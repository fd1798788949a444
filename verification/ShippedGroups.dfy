/** Two groups of the range table that the repository ships (src/cmd/isbn-range.xml). */
module ShippedGroups {
  import opened CStrings
  import opened Results
  import opened Numbers
  import opened Transducers
  import opened Tables
  import opened Texts
  import opened RangeSearch
  import opened Hyphenation

  // ----- 978-81, a group of two digits whose rules leave no gap (lines 1268-1291)

  const INDIA: CString := [57, 55, 56, 56, 49]
  const INDIAN_RULES: seq<Range> := [
    Range(2, 0, 1999999), Range(3, 2000000, 6999999), Range(4, 7000000, 8499999),
    Range(5, 8500000, 8999999), Range(6, 9000000, 9999999)]

  lemma GroupOf(isbn: CString, prefix: CString, digits: CString)
    requires IsIsbn(isbn) && prefix <= isbn && |prefix| >= 4 && prefix[4..] == digits && |digits| <= 7
    ensures AllDigits(digits)
    ensures var (d, unit) := (Decimal(digits), Pow10(7 - |digits|));
            d * unit <= Registrant(isbn) < d * unit + unit
  {
    RegistrantBeginsWithGroup(isbn, prefix);
  }

  /** Every Indian ISBN is cut by the rule for two digits, because the number that the code looks up begins with
      the 1 of the group; that is the rule meant iff the digits behind the prefix are at most 1999999. */
  lemma IndianRules(isbn: CString)
    requires IsIsbn(isbn) && INDIA <= isbn
    ensures FirstRule(INDIAN_RULES, Registrant(isbn)) == Some(INDIAN_RULES[0])
    ensures FirstRule(INDIAN_RULES, NumberBehind(isbn, 5)) == Some(INDIAN_RULES[0]) <==>
            Decimal(isbn[5..12]) <= 1999999
  {
    GroupOf(isbn, INDIA, [49]);
    SomePowers();
    assert Decimal([49]) == 1 by { assert [49][..0] == []; }
    assert DigitsBehind(isbn, 5) == isbn[5..12];
  }

  /** 9788132220794, for which src/isbn-xml-to-fst/test-cases:177 expects 978-81-322-2079-4. */
  const INDIAN_ISBN: CString := [57, 55, 56, 56, 49, 51, 50, 50, 50, 48, 55, 57, 52]

  lemma SevenDigits(s: CString)
    requires |s| == 7 && AllDigits(s)
    ensures Decimal(s) == 1000000 * (s[0] - ZERO) + 100000 * (s[1] - ZERO) + 10000 * (s[2] - ZERO)
                          + 1000 * (s[3] - ZERO) + 100 * (s[4] - ZERO) + 10 * (s[5] - ZERO) + (s[6] - ZERO)
  {
    assert s[..6][..5] == s[..5] && s[..5][..4] == s[..4] && s[..4][..3] == s[..3];
    assert s[..3][..2] == s[..2] && s[..2][..1] == s[..1] && s[..1][..0] == [];
    assert Decimal(s[..1]) == s[0] - ZERO;
    assert Decimal(s[..2]) == 10 * Decimal(s[..1]) + (s[1] - ZERO);
    assert Decimal(s[..3]) == 10 * Decimal(s[..2]) + (s[2] - ZERO);
    assert Decimal(s[..4]) == 10 * Decimal(s[..3]) + (s[3] - ZERO);
    assert Decimal(s[..5]) == 10 * Decimal(s[..4]) + (s[4] - ZERO);
    assert Decimal(s[..6]) == 10 * Decimal(s[..5]) + (s[5] - ZERO);
  }

  lemma SlicesOfIndianIsbn()
    ensures IsIsbn(INDIAN_ISBN) && INDIA <= INDIAN_ISBN && INDIAN_ISBN[..3] == [57, 55, 56]
    ensures INDIAN_ISBN[5..7] == [51, 50] && INDIAN_ISBN[7..13] == [50, 50, 48, 55, 57, 52]
    ensures INDIAN_ISBN[5..8] == [51, 50, 50] && INDIAN_ISBN[8..12] == [50, 48, 55, 57]
    ensures INDIAN_ISBN[5..12] == [51, 50, 50, 50, 48, 55, 57]
  {
    assert INDIA == INDIAN_ISBN[..5];
  }

  /** For that ISBN three digits are meant: the text would be 978-81-322-2079-4. */
  lemma IndianTextAsMeant()
    ensures IsIsbn(INDIAN_ISBN)
    ensures FirstRule(INDIAN_RULES, NumberBehind(INDIAN_ISBN, 5)) == Some(INDIAN_RULES[1])
    ensures HyphenatedAsMeant(INDIAN_ISBN, 3, INDIA) ==
            FiveParts([57, 55, 56], [56, 49], [51, 50, 50], [50, 48, 55, 57], [52])
  {
    SlicesOfIndianIsbn();
    assert NumberBehind(INDIAN_ISBN, 5) == 3222079 by {
      SevenDigits(INDIAN_ISBN[5..12]);
      assert DigitsBehind(INDIAN_ISBN, 5) == INDIAN_ISBN[5..12];
    }
    assert INDIAN_RULES[1..][0] == INDIAN_RULES[1];
  }

  /** The code takes two and writes 978-81-32-220794-4, with the check digit twice. */
  lemma IndianText(mem: seq<Label>)
    requires LiesIn(INDIAN_ISBN, mem)
    ensures FirstRule(INDIAN_RULES, Registrant(INDIAN_ISBN)) == Some(INDIAN_RULES[0])
    ensures Hyphenated(mem, 2, INDIA) == FiveParts([57, 55, 56], [56, 49], [51, 50], [50, 50, 48, 55, 57, 52], [52])
  {
    SlicesOfIndianIsbn();
    IndianRules(INDIAN_ISBN);
    SliceOfMemory(INDIAN_ISBN, mem, 0, 3);
    SliceOfMemory(INDIAN_ISBN, mem, 5, 7);
    SliceOfMemory(INDIAN_ISBN, mem, 7, 13);
    SliceOfMemory(INDIAN_ISBN, mem, 12, 13);
    assert INDIA[3..] == [56, 49];
  }

  /** End to end, in any document in which the Indian group with these rules governs that ISBN: what is meant, and
      what the code writes into a buffer that has room for it. */
  lemma IndianEndToEnd(events: seq<Event>, i: nat, mem: seq<Label>, bsz: nat)
    requires LiesIn(INDIAN_ISBN, mem) && bsz >= 19 && Governs(BookOf(events).sections, i, INDIAN_ISBN)
    requires var s := BookOf(events).sections[i]; s.prefix == INDIA && s.rules == INDIAN_RULES
    ensures TextMeant(BookOf(events).sections[i], INDIAN_ISBN) ==
            Some(FiveParts([57, 55, 56], [56, 49], [51, 50, 50], [50, 48, 55, 57], [52]))
    ensures Hyphenate(Run(events), Lookup(Run(events).fst, INDIAN_ISBN, true), INDIAN_ISBN, mem, bsz) ==
            Done(FiveParts([57, 55, 56], [56, 49], [51, 50], [50, 50, 48, 55, 57, 52], [52]))
  {
    IndianTextAsMeant();
    IndianText(mem);
    EndToEnd(events, INDIAN_ISBN, mem, bsz);
  }

  // ----- 978-968, a group of three digits with a gap in its rules (lines 2531-2555)

  const MEXICO: CString := [57, 55, 56, 57, 54, 56]
  const MEXICAN_RULES: seq<Range> := [
    Range(2, 100000, 3999999), Range(3, 4000000, 4999999), Range(4, 5000000, 7999999),
    Range(3, 8000000, 8999999), Range(4, 9000000, 9999999)]

  /** The code never meets the gap below 0100000: it takes the rule for four digits for every Mexican ISBN, also
      for those whose digits behind the prefix lie in the gap. */
  lemma MexicanGap(isbn: CString)
    requires IsIsbn(isbn) && MEXICO <= isbn
    ensures FirstRule(MEXICAN_RULES, Registrant(isbn)) == Some(MEXICAN_RULES[2])
    ensures FirstRule(MEXICAN_RULES, NumberBehind(isbn, 6)).None? <==> NumberBehind(isbn, 6) < 100000
  {
    assert 6800000 <= Registrant(isbn) < 6900000 by {
      GroupOf(isbn, MEXICO, [54, 56]);
      SomePowers();
      assert Decimal([54, 56]) == 68 by { assert [54, 56][..1] == [54] && [54][..0] == []; }
    }
    MexicanSearch(Registrant(isbn));
    SevenDigitsFit(DigitsBehind(isbn, 6));
    MexicanSearch(NumberBehind(isbn, 6));
  }

  lemma MexicanSearch(n: nat)
    requires n <= 9999999
    ensures 5000000 <= n <= 7999999 ==> FirstRule(MEXICAN_RULES, n) == Some(MEXICAN_RULES[2])
    ensures FirstRule(MEXICAN_RULES, n).None? <==> n < 100000
  {
    FirstRuleMisses(MEXICAN_RULES, n);
    var rules := MEXICAN_RULES;
    assert rules[1..][0] == rules[1] && rules[1..][1..][0] == rules[2];
    assert forall i :: 0 <= i < 5 ==> rules[i] in rules;
    assert rules[0] in rules && rules[1] in rules && rules[2] in rules && rules[3] in rules && rules[4] in rules;
  }

  /** 9789680012343, with 0012340 behind the prefix: 978-968-0012-343 is printed. */
  const MEXICAN_ISBN: CString := [57, 55, 56, 57, 54, 56, 48, 48, 49, 50, 51, 52, 51]

  lemma SlicesOfMexicanIsbn()
    ensures IsIsbn(MEXICAN_ISBN) && MEXICO <= MEXICAN_ISBN && MEXICAN_ISBN[..3] == [57, 55, 56]
    ensures MEXICAN_ISBN[6..10] == [48, 48, 49, 50] && MEXICAN_ISBN[10..13] == [51, 52, 51]
    ensures MEXICAN_ISBN[6..12] == [48, 48, 49, 50, 51, 52]
  {
    assert MEXICO == MEXICAN_ISBN[..6];
  }

  lemma MexicanNumberBehind()
    ensures IsIsbn(MEXICAN_ISBN) && NumberBehind(MEXICAN_ISBN, 6) == 12340
  {
    SlicesOfMexicanIsbn();
    assert DigitsBehind(MEXICAN_ISBN, 6) == MEXICAN_ISBN[6..12] + [ZERO];
    SevenDigits(MEXICAN_ISBN[6..12] + [ZERO]);
  }

  lemma MexicanText(mem: seq<Label>)
    requires LiesIn(MEXICAN_ISBN, mem)
    ensures MEXICO <= MEXICAN_ISBN && FirstRule(MEXICAN_RULES, NumberBehind(MEXICAN_ISBN, 6)).None?
    ensures FirstRule(MEXICAN_RULES, Registrant(MEXICAN_ISBN)) == Some(Range(4, 5000000, 7999999))
    ensures CStr(Hyphenated(mem, 4, MEXICO)) == FourParts([57, 55, 56], [57, 54, 56], [48, 48, 49, 50], [51, 52, 51])
  {
    SlicesOfMexicanIsbn();
    MexicanNumberBehind();
    MexicanGap(MEXICAN_ISBN);
    LongGroupPrinted(MEXICAN_ISBN, mem, 4, MEXICO);
    assert MEXICO[3..] == [57, 54, 56];
  }
}
