/** The search of a slice of the range table (src/isbn-xml-to-fst/isbn-xml-to-fst.c), and the number that is
    searched for. */
module RangeSearch {
  import opened CStrings
  import opened Results
  import opened Numbers
  import opened Tables
  import opened Texts

  predicate Contains(r: Range, n: nat) {
    r.lo <= n <= r.hi
  }

  function FirstRule(rules: seq<Range>, n: nat): (hit: Option<Range>)
    ensures hit.Some? ==> hit.value in rules && Contains(hit.value, n)
  {
    if rules == [] then None
    else if Contains(rules[0], n) then Some(rules[0])
    else FirstRule(rules[1..], n)
  }

  lemma {:induction false} FirstRuleMisses(rules: seq<Range>, n: nat)
    ensures FirstRule(rules, n).None? <==> forall r :: r in rules ==> !Contains(r, n)
  {
    if rules != [] {
      FirstRuleMisses(rules[1..], n);
      assert rules == [rules[0]] + rules[1..];
    }
  }

  /** r is a rule of the list that contains n, bounds included, and no rule before it does. */
  ghost predicate IsFirst(rules: seq<Range>, n: nat, r: Range) {
    exists i :: 0 <= i < |rules| && rules[i] == r && r.lo <= n <= r.hi
                && forall j :: 0 <= j < i ==> !(rules[j].lo <= n <= rules[j].hi)
  }

  lemma FirstOfRest(rules: seq<Range>, n: nat, r: Range)
    requires rules != [] && !(rules[0].lo <= n <= rules[0].hi)
    ensures IsFirst(rules, n, r) <==> IsFirst(rules[1..], n, r)
  {
    if IsFirst(rules, n, r) {
      DropFirst(rules, n, r);
    }
    if IsFirst(rules[1..], n, r) {
      PutFirst(rules, n, r);
    }
  }

  lemma DropFirst(rules: seq<Range>, n: nat, r: Range)
    requires rules != [] && !(rules[0].lo <= n <= rules[0].hi) && IsFirst(rules, n, r)
    ensures IsFirst(rules[1..], n, r)
  {
    var i :| 0 <= i < |rules| && rules[i] == r && r.lo <= n <= r.hi
             && forall j :: 0 <= j < i ==> !(rules[j].lo <= n <= rules[j].hi);
    assert rules[1..][i - 1] == r;
    assert forall j :: 0 <= j < i - 1 ==> rules[1..][j] == rules[j + 1];
  }

  lemma PutFirst(rules: seq<Range>, n: nat, r: Range)
    requires rules != [] && !(rules[0].lo <= n <= rules[0].hi) && IsFirst(rules[1..], n, r)
    ensures IsFirst(rules, n, r)
  {
    var rest := rules[1..];
    var i :| 0 <= i < |rest| && rest[i] == r && r.lo <= n <= r.hi
             && forall j :: 0 <= j < i ==> !(rest[j].lo <= n <= rest[j].hi);
    assert rules[i + 1] == r;
    assert forall j :: 0 < j < |rules| ==> rules[j] == rest[j - 1];
  }

  /** The search selects the first rule of the slice that contains the number. */
  lemma {:induction false} FirstRuleIsFirst(rules: seq<Range>, n: nat, r: Range)
    ensures FirstRule(rules, n) == Some(r) <==> IsFirst(rules, n, r)
  {
    if rules != [] {
      if rules[0].lo <= n <= rules[0].hi {
        assert rules[0] == r ==> IsFirst(rules, n, r);
      } else {
        FirstRuleIsFirst(rules[1..], n, r);
        FirstOfRest(rules, n, r);
      }
    }
  }

  /** The rules follow one another without gap or overlap from lo to hi. */
  ghost predicate Tile(rules: seq<Range>, lo: nat, hi: nat)
    decreases |rules|
  {
    && rules != []
    && rules[0].lo == lo <= rules[0].hi
    && if |rules| == 1 then rules[0].hi == hi else Tile(rules[1..], rules[0].hi + 1, hi)
  }

  /** One rule of the tiling contains n, and no rule at another place does. */
  lemma {:induction false} TileHitsOnce(rules: seq<Range>, lo: nat, hi: nat, n: nat) returns (i: nat)
    requires Tile(rules, lo, hi) && lo <= n <= hi
    ensures i < |rules| && Contains(rules[i], n)
    ensures forall j :: 0 <= j < |rules| && Contains(rules[j], n) ==> j == i
  {
    TileStaysInside(rules, lo, hi);
    if Contains(rules[0], n) {
      i := 0;
      if |rules| > 1 {
        TileStaysInside(rules[1..], rules[0].hi + 1, hi);
        assert forall j :: 0 < j < |rules| ==> rules[j] == rules[1..][j - 1];
      }
    } else {
      i := TileHitsOnce(rules[1..], rules[0].hi + 1, hi, n);
      i := i + 1;
      assert forall j :: 0 < j < |rules| ==> rules[j] == rules[1..][j - 1];
    }
  }

  lemma {:induction false} TileStaysInside(rules: seq<Range>, lo: nat, hi: nat)
    requires Tile(rules, lo, hi)
    ensures forall r :: r in rules ==> lo <= r.lo <= r.hi <= hi
  {
    if |rules| > 1 {
      TileStaysInside(rules[1..], rules[0].hi + 1, hi);
      assert rules == [rules[0]] + rules[1..];
    }
  }

  /** Whatever the order in which the rules of a tiling are listed, the search selects the one rule
      that contains n, so it always succeeds. */
  lemma SearchIgnoresOrder(rules: seq<Range>, listed: seq<Range>, lo: nat, hi: nat, n: nat)
    requires Tile(rules, lo, hi) && lo <= n <= hi && multiset(listed) == multiset(rules)
    ensures FirstRule(listed, n).Some? && FirstRule(listed, n) == FirstRule(rules, n)
  {
    var i := TileHitsOnce(rules, lo, hi, n);
    assert forall r :: r in listed <==> r in multiset(listed);
    assert forall r :: r in rules <==> r in multiset(rules);
    FirstRuleMisses(listed, n);
    FirstRuleMisses(rules, n);
    assert rules[i] in rules;
    assert rules[i] in listed;
  }

  /** Two numbers get the same rule of a tiling iff the rule of the one contains the other. */
  lemma SameRule(rules: seq<Range>, listed: seq<Range>, lo: nat, hi: nat, m: nat, n: nat)
    requires Tile(rules, lo, hi) && lo <= m <= hi && lo <= n <= hi && multiset(listed) == multiset(rules)
    ensures FirstRule(listed, m).Some?
    ensures FirstRule(listed, m) == FirstRule(listed, n) <==> Contains(FirstRule(listed, m).value, n)
  {
    SearchIgnoresOrder(rules, listed, lo, hi, m);
    SearchIgnoresOrder(rules, listed, lo, hi, n);
    var i := TileHitsOnce(rules, lo, hi, n);
  }

  // ----- the number searched for

  /** The registrant and publication digits, always read at offset 4. */
  function Registrant(isbn: CString): nat
    requires IsIsbn(isbn)
  {
    Decimal(isbn[4..11])
  }

  lemma RegistrantFits(isbn: CString)
    requires IsIsbn(isbn)
    ensures Registrant(isbn) <= 9_999_999 && Registrant(isbn) % 4_294_967_296 == Registrant(isbn)
  {
    NineDigitsFit(isbn[4..11]);
    SomePowers();
  }

  /** The range test compares seven-digit strings: the bounds and the digits at offset 4. */
  lemma RangeTestIsLexicographic(r: Range, lo: CString, hi: CString, isbn: CString)
    requires IsIsbn(isbn) && |lo| == |hi| == 7 && AllDigits(lo) && AllDigits(hi)
    requires r.lo == Decimal(lo) && r.hi == Decimal(hi)
    ensures Contains(r, Registrant(isbn)) <==> !LexLess(isbn[4..11], lo) && !LexLess(hi, isbn[4..11])
  {
    NumericIsLexicographic(isbn[4..11], lo);
    NumericIsLexicographic(hi, isbn[4..11]);
  }

  /** NOT the code: the seven digits that the rules are about, those behind the prefix and before the check
      digit, filled with zeros or cut to seven. */
  function DigitsBehind(isbn: CString, p: nat): (digits: CString)
    requires IsIsbn(isbn)
    ensures AllDigits(digits)
  {
    seq(7, i requires 0 <= i < 7 => if p + i < 12 then isbn[p + i] else ZERO)
  }

  function NumberBehind(isbn: CString, p: nat): nat
    requires IsIsbn(isbn)
  {
    Decimal(DigitsBehind(isbn, p))
  }

  /** Behind a prefix of five digits or more, the digits up to the check digit, filled with zeros. */
  lemma BehindLongPrefix(isbn: CString, p: nat)
    requires IsIsbn(isbn) && 5 <= p <= 12
    ensures NumberBehind(isbn, p) == Decimal(isbn[p..12]) * Pow10(p - 5)
  {
    var zeros: CString := seq(p - 5, _ => ZERO);
    assert DigitsBehind(isbn, p) == isbn[p..12] + zeros;
    DecimalOfConcat(isbn[p..12], zeros);
    ZerosCountNothing(zeros);
  }

  lemma {:induction false} ZerosCountNothing(zeros: CString)
    requires AllDigits(zeros) && forall i :: 0 <= i < |zeros| ==> zeros[i] == ZERO
    ensures Decimal(zeros) == 0
  {
    if zeros != [] {
      ZerosCountNothing(zeros[..|zeros| - 1]);
    }
  }

  /** Behind a prefix of four digits stand the digits that the code reads. */
  lemma BehindFourDigits(isbn: CString)
    requires IsIsbn(isbn)
    ensures NumberBehind(isbn, 4) == Registrant(isbn)
  {
    assert DigitsBehind(isbn, 4) == isbn[4..11];
  }

  lemma SevenDigitsFit(s: CString)
    requires AllDigits(s) && |s| == 7
    ensures Decimal(s) <= 9_999_999
  {
    DecimalIsBounded(s);
    SomePowers();
  }

  /** When the rules tile the seven-digit numbers, in whatever order they are listed, the code takes the rule
      that is meant iff the rule it takes contains the number behind the prefix as well. */
  lemma RuleIsTheOneMeant(rules: seq<Range>, listed: seq<Range>, isbn: CString, p: nat)
    requires IsIsbn(isbn) && Tile(rules, 0, 9_999_999) && multiset(listed) == multiset(rules)
    ensures FirstRule(listed, Registrant(isbn)).Some?
    ensures FirstRule(listed, Registrant(isbn)) == FirstRule(listed, NumberBehind(isbn, p)) <==>
            Contains(FirstRule(listed, Registrant(isbn)).value, NumberBehind(isbn, p))
  {
    SevenDigitsFit(isbn[4..11]);
    SevenDigitsFit(DigitsBehind(isbn, p));
    SameRule(rules, listed, 0, 9_999_999, Registrant(isbn), NumberBehind(isbn, p));
  }

  /** The number that is searched for begins with the digits of the group behind its first: for a group of two
      digits it lies in one stretch of a million, for three in one of a hundred thousand, and so on. */
  lemma RegistrantBeginsWithGroup(isbn: CString, prefix: CString)
    requires IsIsbn(isbn) && prefix <= isbn && 4 <= |prefix| <= 11
    ensures AllDigits(prefix[4..])
    ensures var (d, unit) := (Decimal(prefix[4..]), Pow10(11 - |prefix|));
            d * unit <= Registrant(isbn) < d * unit + unit
  {
    var tail := isbn[|prefix|..11];
    assert prefix == isbn[..|prefix|];
    assert forall i :: 4 <= i < |prefix| ==> prefix[i] == isbn[i];
    assert isbn[4..11] == prefix[4..] + tail;
    DecimalOfConcat(prefix[4..], tail);
    DecimalIsBounded(tail);
  }
}
