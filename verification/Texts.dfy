/** The text that place_hyphens writes (src/isbn-xml-to-fst/isbn-xml-to-fst.c). */
module Texts {
  import opened CStrings

  const ISBN_LEN: nat := 13

  predicate IsIsbn(isbn: CString) {
    |isbn| == ISBN_LEN && AllDigits(isbn)
  }

  /** The memory from the first character of the ISBN to the end of the object that it lies in. */
  predicate LiesIn(isbn: CString, mem: seq<Label>) {
    IsIsbn(isbn) && |mem| > ISBN_LEN && mem[..ISBN_LEN] == isbn && mem[ISBN_LEN] == NUL
  }

  /** Every string of 13 digits is an ISBN, whatever lies behind its NUL. */
  lemma EveryIsbnLiesIn(isbn: CString, mem: seq<Label>)
    requires |isbn| == 13 && forall i :: 0 <= i < 13 ==> 48 <= isbn[i] <= 57
    requires |mem| >= 14 && mem[..13] == isbn && mem[13] == 0
    ensures LiesIn(isbn, mem)
  {
  }

  /** When the copies of place_hyphens stay inside `room` characters of memory. An ISBN in a buffer of its own
      has room 14, which suffices for prefixes of at most six digits. */
  predicate Placeable(len: nat, pfxlen: nat, room: nat) {
    len <= 8 && 3 <= pfxlen && pfxlen + 8 <= room
  }

  function FiveParts(a: seq<Label>, b: seq<Label>, c: seq<Label>, d: seq<Label>, e: seq<Label>): seq<Label> {
    a + [HYPHEN] + (b + [HYPHEN] + (c + [HYPHEN] + (d + [HYPHEN] + e)))
  }

  /** The characters written before the final NUL: prefix, group (from the table), registrant, publication
      of 8 - len characters, check digit. Behind a long prefix the publication reaches beyond the ISBN. */
  function Hyphenated(mem: seq<Label>, len: nat, prefix: CString): seq<Label>
    requires |mem| >= ISBN_LEN && Placeable(len, |prefix|, |mem|)
  {
    var p := |prefix|;
    FiveParts(mem[..3], prefix[3..], mem[p..p + len], mem[p + len..p + 8], [mem[12]])
  }

  // ----- removing hyphens

  function StripHyphens(text: seq<Label>): seq<Label> {
    if text == [] then []
    else if text[0] == HYPHEN then StripHyphens(text[1..])
    else [text[0]] + StripHyphens(text[1..])
  }

  lemma {:induction false} StripOfConcat(a: seq<Label>, b: seq<Label>)
    ensures StripHyphens(a + b) == StripHyphens(a) + StripHyphens(b)
  {
    if a == [] {
      assert a + b == b;
    } else {
      assert (a + b)[1..] == a[1..] + b;
      StripOfConcat(a[1..], b);
    }
  }

  ghost predicate Plain(a: seq<Label>) {
    forall i :: 0 <= i < |a| ==> a[i] != HYPHEN
  }

  lemma {:induction false} StripOfPlain(a: seq<Label>)
    requires Plain(a)
    ensures StripHyphens(a) == a
  {
    if a != [] {
      StripOfPlain(a[1..]);
    }
  }

  lemma StripOfJoin(a: seq<Label>, b: seq<Label>)
    ensures StripHyphens(a + [HYPHEN] + b) == StripHyphens(a) + StripHyphens(b)
  {
    StripOfConcat(a + [HYPHEN], b);
    StripOfConcat(a, [HYPHEN]);
  }

  lemma Associates(a: seq<Label>, b: seq<Label>, c: seq<Label>)
    ensures a + (b + c) == a + b + c
  {
  }

  /** Removing hyphens, in full: what has none stays, and each one found is dropped. */
  lemma StripDropsHyphens(a: seq<Label>, b: seq<Label>)
    requires 45 !in a
    ensures StripHyphens(a) == a && StripHyphens(a + [45] + b) == a + StripHyphens(b)
  {
    StripOfPlain(a);
    StripOfJoin(a, b);
  }

  lemma StripOfThree(a: seq<Label>, b: seq<Label>, c: seq<Label>)
    ensures StripHyphens(a + [HYPHEN] + (b + [HYPHEN] + c)) == StripHyphens(a + b + c)
  {
    StripOfJoin(a, b + [HYPHEN] + c);
    StripOfJoin(b, c);
    StripOfConcat(a + b, c);
    StripOfConcat(a, b);
    Associates(StripHyphens(a), StripHyphens(b), StripHyphens(c));
  }

  /** Joining five parts with hyphens is undone by removing the hyphens. */
  lemma StripOfFiveParts(a: seq<Label>, b: seq<Label>, c: seq<Label>, d: seq<Label>, e: seq<Label>)
    ensures StripHyphens(FiveParts(a, b, c, d, e)) == StripHyphens(a + b + c + d + e)
  {
    StripOfThree(a, b, c + [HYPHEN] + (d + [HYPHEN] + e));
    StripOfConcat(a + b, c + [HYPHEN] + (d + [HYPHEN] + e));
    StripOfThree(c, d, e);
    StripOfConcat(a + b, c + d + e);
    Associates(a + b, c + d, e);
    Associates(a + b, c, d);
  }

  /** A reader of C strings may remove the hyphens before or after stopping at the NUL. */
  lemma {:induction false} StripOfCStr(text: seq<Label>)
    ensures StripHyphens(CStr(text)) == CStr(StripHyphens(text))
  {
    if text != [] {
      StripOfCStr(text[1..]);
      if text[0] != NUL {
        assert CStr(text)[1..] == CStr(text[1..]);
      }
    }
  }

  // ----- what the text is

  /** The text, character by character, for a prefix of every length and a registrant of every length: the first
      three digits, the group, the registrant of len characters, the publication and the check digit, and the
      hyphens between them. */
  ghost predicate LaidOut(t: seq<Label>, mem: seq<Label>, len: nat, prefix: CString)
    requires |mem| >= 13 && len <= 8 && 3 <= |prefix| && |prefix| + 8 <= |mem|
  {
    var p := |prefix|;
    && |t| == p + 13
    && t[..3] == mem[..3] && t[3] == 45
    && t[4..p + 1] == prefix[3..] && t[p + 1] == 45
    && t[p + 2..p + 2 + len] == mem[p..p + len] && t[p + 2 + len] == 45
    && t[p + 3 + len..p + 11] == mem[p + len..p + 8] && t[p + 11] == 45
    && t[p + 12] == mem[12]
  }

  lemma TextLayout(mem: seq<Label>, len: nat, prefix: CString)
    requires |mem| >= 13 && len <= 8 && 3 <= |prefix| && |prefix| + 8 <= |mem|
    ensures Placeable(len, |prefix|, |mem|) && LaidOut(Hyphenated(mem, len, prefix), mem, len, prefix)
  {
  }

  /** However the registrant is cut, 16 + (pfxlen - 3) characters are written, which fit the 18 bytes that
      the code checks for iff the prefix has at most four digits. */
  lemma TextLength(mem: seq<Label>, len: nat, prefix: CString)
    requires |mem| >= ISBN_LEN && Placeable(len, |prefix|, |mem|)
    ensures |Hyphenated(mem, len, prefix)| == 16 + (|prefix| - 3)
    ensures |Hyphenated(mem, len, prefix)| + 1 <= 18 <==> |prefix| <= 4
  {
  }

  /** Without its hyphens the text is what eight characters of memory behind the prefix and the check digit
      give, however the registrant is cut. */
  lemma StrippedText(isbn: CString, mem: seq<Label>, len: nat, prefix: CString)
    requires LiesIn(isbn, mem) && prefix <= isbn && Placeable(len, |prefix|, |mem|)
    ensures StripHyphens(Hyphenated(mem, len, prefix)) == StripHyphens(mem[..|prefix| + 8]) + [isbn[12]]
  {
    var p := |prefix|;
    StripOfFiveParts(mem[..3], prefix[3..], mem[p..p + len], mem[p + len..p + 8], [mem[12]]);
    GroupFromTable(isbn, mem, prefix);
    assert mem[..p] + mem[p..p + len] == mem[..p + len];
    assert mem[..p + len] + mem[p + len..p + 8] == mem[..p + 8];
    assert mem[12] == mem[..ISBN_LEN][12];
    StripOfConcat(mem[..p + 8], [mem[12]]);
    StripOfPlain([mem[12]]);
  }

  /** The group digits come from the table, but they are those of the ISBN. */
  lemma GroupFromTable(isbn: CString, mem: seq<Label>, prefix: CString)
    requires LiesIn(isbn, mem) && prefix <= isbn && |prefix| >= 3
    ensures prefix == mem[..|prefix|] && mem[..3] + prefix[3..] == mem[..|prefix|]
  {
    assert prefix == isbn[..|prefix|] == mem[..ISBN_LEN][..|prefix|];
  }

  /** Eight characters behind a prefix of up to five digits lie inside the ISBN. */
  lemma ShortStretch(isbn: CString, mem: seq<Label>, n: nat)
    requires LiesIn(isbn, mem) && n <= ISBN_LEN
    ensures mem[..n] == isbn[..n] && StripHyphens(mem[..n]) == isbn[..n]
  {
    assert mem[..n] == mem[..ISBN_LEN][..n];
    StripOfPlain(mem[..n]);
  }

  /** Behind a longer prefix they include the terminating NUL. */
  lemma LongStretch(isbn: CString, mem: seq<Label>, n: nat)
    requires LiesIn(isbn, mem) && ISBN_LEN < n <= |mem|
    ensures StripHyphens(mem[..n]) == isbn + [NUL] + StripHyphens(mem[ISBN_LEN + 1..n])
  {
    assert mem[..n] == mem[..ISBN_LEN] + [NUL] + mem[ISBN_LEN + 1..n];
    StripOfConcat(mem[..ISBN_LEN] + [NUL], mem[ISBN_LEN + 1..n]);
    StripOfConcat(mem[..ISBN_LEN], [NUL]);
    ShortStretch(isbn, mem, ISBN_LEN);
  }

  /** Removing the hyphens gives back the ISBN exactly when the registration group has one digit. */
  lemma DigitsConserved(isbn: CString, mem: seq<Label>, len: nat, prefix: CString)
    requires LiesIn(isbn, mem) && prefix <= isbn && Placeable(len, |prefix|, |mem|)
    ensures StripHyphens(Hyphenated(mem, len, prefix)) == isbn <==> |prefix| == 4
  {
    StrippedText(isbn, mem, len, prefix);
    var n := |prefix| + 8;
    if n <= ISBN_LEN {
      ShortStretch(isbn, mem, n);
      assert n == 12 ==> isbn[..12] + [isbn[12]] == isbn;
    } else {
      LongStretch(isbn, mem, n);
    }
  }

  /** Whoever prints the buffer stops at its first NUL. The printed digits are those of the ISBN for groups of
      every length but none and two. */
  lemma PrintedDigits(isbn: CString, mem: seq<Label>, len: nat, prefix: CString)
    requires LiesIn(isbn, mem) && prefix <= isbn && Placeable(len, |prefix|, |mem|)
    ensures StripHyphens(CStr(Hyphenated(mem, len, prefix))) == isbn <==> |prefix| == 4 || |prefix| >= 6
  {
    StripOfCStr(Hyphenated(mem, len, prefix));
    StrippedText(isbn, mem, len, prefix);
    var n := |prefix| + 8;
    if n <= ISBN_LEN {
      ShortStretch(isbn, mem, n);
      CStrOfString(isbn[..n] + [isbn[12]]);
      assert n == 12 ==> isbn[..12] + [isbn[12]] == isbn;
    } else {
      LongStretch(isbn, mem, n);
      var more := StripHyphens(mem[ISBN_LEN + 1..n]);
      assert isbn + [NUL] + more + [isbn[12]] == isbn + [NUL] + (more + [isbn[12]]);
      CStrOfTerminated(isbn, more + [isbn[12]]);
    }
  }

  /** The five elements of an ISBN with a one-digit group, joined by hyphens. */
  function FiveElements(isbn: CString, len: nat): seq<Label>
    requires |isbn| == ISBN_LEN && len <= 8
  {
    FiveParts(isbn[..3], isbn[3..4], isbn[4..4 + len], isbn[4 + len..12], isbn[12..])
  }

  lemma OneDigitText(isbn: CString, mem: seq<Label>, len: nat, prefix: CString)
    requires LiesIn(isbn, mem) && prefix <= isbn && |prefix| == 4 && len <= 8
    ensures Hyphenated(mem, len, prefix) == FiveElements(isbn, len)
  {
    GroupFromTable(isbn, mem, prefix);
    assert isbn == mem[..ISBN_LEN];
    assert prefix[3..] == isbn[3..4] && isbn[12..] == [mem[12]];
    assert isbn[4..4 + len] == mem[4..4 + len] && isbn[4 + len..12] == mem[4 + len..12];
  }

  /** 17 characters, hyphens exactly where the five elements meet. */
  ghost predicate CutInFive(text: seq<Label>, isbn: CString, len: nat)
    requires |isbn| == ISBN_LEN && len <= 8
  {
    && text == FiveElements(isbn, len) && |text| == 17
    && forall i :: 0 <= i < 17 ==> (text[i] == 45 <==> i in {3, 5, 6 + len, 15})
  }

  /** What is written for a one-digit group. */
  lemma OneDigitGroup(isbn: CString, mem: seq<Label>, len: nat, prefix: CString)
    requires LiesIn(isbn, mem) && prefix <= isbn && |prefix| == 4 && len <= 8
    ensures CutInFive(Hyphenated(mem, len, prefix), isbn, len) && StripHyphens(Hyphenated(mem, len, prefix)) == isbn
  {
    OneDigitText(isbn, mem, len, prefix);
    DigitsConserved(isbn, mem, len, prefix);
  }

  // ----- the text as meant

  /** NOT the code: the publication element as its length is meant, 9 - l1 - len. */
  function HyphenatedAsMeant(isbn: CString, len: nat, prefix: CString): seq<Label>
    requires |isbn| == ISBN_LEN && 3 <= |prefix| && |prefix| + len <= 12
  {
    FiveParts(isbn[..3], prefix[3..], isbn[|prefix|..|prefix| + len], isbn[|prefix| + len..12], [isbn[12]])
  }

  /** Where its hyphens stand: behind the prefix, the group, the registrant and the publication. */
  lemma MeantLayout(isbn: CString, len: nat, prefix: CString)
    requires |isbn| == 13 && 3 <= |prefix| && |prefix| + len <= 12
    ensures var (t, p) := (HyphenatedAsMeant(isbn, len, prefix), |prefix|);
            && |t| == 17
            && t[..3] == isbn[..3] && t[3] == 45
            && t[4..p + 1] == prefix[3..] && t[p + 1] == 45
            && t[p + 2..p + 2 + len] == isbn[p..p + len] && t[p + 2 + len] == 45
            && t[p + 3 + len..15] == isbn[p + len..12] && t[15] == 45
            && t[16] == isbn[12]
  {
  }

  /** The text as meant conserves the digits for groups of every length. */
  lemma MeantConservesDigits(isbn: CString, len: nat, prefix: CString)
    requires IsIsbn(isbn) && prefix <= isbn && 3 <= |prefix| && |prefix| + len <= 12
    ensures StripHyphens(HyphenatedAsMeant(isbn, len, prefix)) == isbn && |HyphenatedAsMeant(isbn, len, prefix)| == 17
  {
    var p := |prefix|;
    var a: seq<Label>, b: seq<Label>, e: seq<Label> := isbn[..3], prefix[3..], [isbn[12]];
    var c: seq<Label>, d: seq<Label> := isbn[p..p + len], isbn[p + len..12];
    assert prefix == isbn[..p];
    assert a + b + c + d + e == isbn;
    StripOfFiveParts(a, b, c, d, e);
    StripOfPlain(isbn);
  }

  function FourParts(a: seq<Label>, b: seq<Label>, c: seq<Label>, d: seq<Label>): seq<Label> {
    a + [HYPHEN] + (b + [HYPHEN] + (c + [HYPHEN] + d))
  }

  lemma UpToNul(a: CString, b: CString, c: CString, d: CString, more: seq<Label>, e: seq<Label>)
    ensures CStr(FiveParts(a, b, c, d + [NUL] + more, e)) == FourParts(a, b, c, d)
  {
    var h: CString := [HYPHEN];
    var text: CString := a + h + (b + h + (c + h + d));
    var rest := more + (h + e);
    Associates(c + h, d, [NUL] + rest);
    Associates(b + h, c + h + d, [NUL] + rest);
    Associates(a + h, b + h + (c + h + d), [NUL] + rest);
    assert d + [NUL] + more + h + e == d + ([NUL] + rest);
    assert text + ([NUL] + rest) == text + [NUL] + rest;
    CStrOfTerminated(text, rest);
  }

  /** Behind a prefix of six digits or more, and a registrant that ends inside the ISBN, four parts are printed:
      the publication takes the check digit with it. */
  lemma LongGroupPrinted(isbn: CString, mem: seq<Label>, len: nat, prefix: CString)
    requires LiesIn(isbn, mem) && prefix <= isbn && 6 <= |prefix| && |prefix| + len <= ISBN_LEN
    requires Placeable(len, |prefix|, |mem|)
    ensures CStr(Hyphenated(mem, len, prefix)) ==
            FourParts(isbn[..3], prefix[3..], isbn[|prefix|..|prefix| + len], isbn[|prefix| + len..])
  {
    var p := |prefix|;
    var more := mem[ISBN_LEN + 1..p + 8];
    SliceOfMemory(isbn, mem, 0, 3);
    SliceOfMemory(isbn, mem, p, p + len);
    SliceOfMemory(isbn, mem, p + len, ISBN_LEN);
    assert mem[p + len..p + 8] == mem[p + len..ISBN_LEN] + [NUL] + more;
    UpToNul(isbn[..3], prefix[3..], isbn[p..p + len], isbn[p + len..], more, [mem[12]]);
  }

  lemma SliceOfMemory(isbn: CString, mem: seq<Label>, i: nat, j: nat)
    requires LiesIn(isbn, mem) && i <= j <= ISBN_LEN
    ensures mem[i..j] == isbn[i..j]
  {
    assert isbn == mem[..ISBN_LEN];
  }

  /** Behind a prefix of six digits or more less than the 17 characters meant are printed. */
  lemma PrintedIsShort(isbn: CString, mem: seq<Label>, len: nat, prefix: CString)
    requires LiesIn(isbn, mem) && prefix <= isbn && 6 <= |prefix| && Placeable(len, |prefix|, |mem|)
    ensures |CStr(Hyphenated(mem, len, prefix))| <= 16
  {
    var p := |prefix|;
    if p + len <= ISBN_LEN {
      LongGroupPrinted(isbn, mem, len, prefix);
    } else {
      NulInThird(mem[..3], prefix[3..], mem[p..p + len], mem[p + len..p + 8], [mem[12]], ISBN_LEN - p);
      CStrStops(Hyphenated(mem, len, prefix), 15);
    }
  }

  lemma NulInThird(a: seq<Label>, b: seq<Label>, c: seq<Label>, d: seq<Label>, e: seq<Label>, i: nat)
    requires i < |c| && c[i] == NUL
    ensures |a| + |b| + 2 + i < |FiveParts(a, b, c, d, e)| && FiveParts(a, b, c, d, e)[|a| + |b| + 2 + i] == NUL
  {
  }

  /** Whatever registrant lengths the two take, the code's text, printed or not, is another than the one meant
      when the group has not one digit; with one digit and the same length it is the same. */
  lemma AsMeant(isbn: CString, mem: seq<Label>, len: nat, meant: nat, prefix: CString)
    requires LiesIn(isbn, mem) && prefix <= isbn && Placeable(len, |prefix|, |mem|) && |prefix| + meant <= 12
    requires |prefix| == 4 ==> len == meant
    ensures Hyphenated(mem, len, prefix) == HyphenatedAsMeant(isbn, meant, prefix) <==> |prefix| == 4
    ensures CStr(Hyphenated(mem, len, prefix)) == HyphenatedAsMeant(isbn, meant, prefix) <==> |prefix| == 4
  {
    MeantConservesDigits(isbn, meant, prefix);
    DigitsConserved(isbn, mem, len, prefix);
    PrintedDigits(isbn, mem, len, prefix);
    if |prefix| == 4 {
      OneDigitIsAsMeant(isbn, mem, len, prefix);
    } else if |prefix| >= 6 {
      PrintedIsShort(isbn, mem, len, prefix);
    }
  }

  lemma OneDigitIsAsMeant(isbn: CString, mem: seq<Label>, len: nat, prefix: CString)
    requires LiesIn(isbn, mem) && prefix <= isbn && |prefix| == 4 && len <= 8
    ensures Hyphenated(mem, len, prefix) == CStr(Hyphenated(mem, len, prefix)) == HyphenatedAsMeant(isbn, len, prefix)
  {
    OneDigitText(isbn, mem, len, prefix);
    assert prefix == isbn[..4] && prefix[3..] == isbn[3..4] && isbn[12..] == [isbn[12]];
    var h: CString := [HYPHEN];
    var text: CString :=
      isbn[..3] + h + (isbn[3..4] + h + (isbn[4..4 + len] + h + (isbn[4 + len..12] + h + isbn[12..])));
    assert FiveElements(isbn, len) == text;
    CStrOfString(text);
  }
}
