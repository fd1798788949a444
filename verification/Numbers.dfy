/** Decimal numbers in strings (src/isbn-xml-to-fst/isbn-xml-to-fst.c, parse_number_slice). */
module Numbers {
  import opened CStrings

  const TWO_TO_32: nat := 0x1_0000_0000

  type Uint32 = n: nat | n < TWO_TO_32

  function Decimal(s: CString): nat
    requires AllDigits(s)
  {
    if s == [] then 0 else 10 * Decimal(s[..|s| - 1]) + (s[|s| - 1] - ZERO)
  }

  function Pow10(n: nat): nat {
    if n == 0 then 1 else 10 * Pow10(n - 1)
  }

  /** Digits s[start .. start + len], accumulated in a 32-bit unsigned integer. */
  method ParseNumberSlice(s: CString, start: nat, len: nat) returns (n: Uint32)
    requires start + len <= |s| && AllDigits(s[start..start + len])
    ensures n == Decimal(s[start..start + len]) % 4_294_967_296
  {
    n := 0;
    var i := 0;
    assert s[start..start] == [];
    while i != len
      invariant 0 <= i <= len
      invariant AllDigits(s[start..start + i])
      invariant n == Decimal(s[start..start + i]) % TWO_TO_32
    {
      ghost var digits := s[start..start + i + 1];
      assert digits[..i] == s[start..start + i];
      assert forall j :: 0 <= j <= i ==> digits[j] == s[start..start + len][j];
      WrapsTogether(Decimal(digits[..i]), digits[i] - ZERO);
      n := n * 10 % TWO_TO_32;
      n := (n + (s[start + i] - ZERO)) % TWO_TO_32;
      i := i + 1;
    }
  }

  lemma WrapsTogether(m: nat, d: nat)
    ensures (m % TWO_TO_32 * 10 % TWO_TO_32 + d) % TWO_TO_32 == (10 * m + d) % TWO_TO_32
  {
    var q, r := m / TWO_TO_32, m % TWO_TO_32;
    assert 10 * m + d == TWO_TO_32 * (10 * q) + (10 * r + d);
    var q', r' := 10 * r / TWO_TO_32, 10 * r % TWO_TO_32;
    assert 10 * r + d == TWO_TO_32 * q' + (r' + d);
  }

  lemma {:induction false} DecimalIsBounded(s: CString)
    requires AllDigits(s)
    ensures Decimal(s) < Pow10(|s|)
  {
    if s != [] {
      assert IsDigit(s[|s| - 1]);
      DecimalIsBounded(s[..|s| - 1]);
    }
  }

  /** Writing digits behind a number. */
  lemma {:induction false} DecimalOfConcat(a: CString, b: CString)
    requires AllDigits(a) && AllDigits(b)
    ensures AllDigits(a + b) && Decimal(a + b) == Decimal(a) * Pow10(|b|) + Decimal(b)
  {
    if b == [] {
      assert a + b == a;
    } else {
      var n := |b| - 1;
      DecimalOfConcat(a, b[..n]);
      assert (a + b)[..|a| + n] == a + b[..n];
      TimesTen(Decimal(a), Pow10(n));
    }
  }

  lemma TimesTen(x: nat, y: nat)
    ensures x * (10 * y) == 10 * (x * y)
  {
  }

  lemma SomePowers()
    ensures Pow10(5) == 100_000 && Pow10(6) == 1_000_000 && Pow10(7) == 10_000_000
  {
    assert Pow10(7) == 10 * Pow10(6) && Pow10(6) == 10 * Pow10(5) && Pow10(5) == 10 * Pow10(4);
    assert Pow10(4) == 10 * Pow10(3) && Pow10(3) == 10 * Pow10(2) && Pow10(2) == 10 * Pow10(1);
  }

  /** Up to nine digits nothing wraps. */
  lemma NineDigitsFit(s: CString)
    requires AllDigits(s) && |s| <= 9
    ensures Decimal(s) < Pow10(|s|) <= Pow10(9) == 1_000_000_000 && Decimal(s) % TWO_TO_32 == Decimal(s)
  {
    DecimalIsBounded(s);
    PowersGrow(|s|, 9);
    SomePowers();
    assert Pow10(9) == 10 * Pow10(8) && Pow10(8) == 10 * Pow10(7);
  }

  lemma {:induction false} PowersGrow(m: nat, n: nat)
    requires m <= n
    ensures 0 < Pow10(m) <= Pow10(n)
    decreases m + n
  {
    if m < n {
      PowersGrow(m, n - 1);
    } else if m > 0 {
      PowersGrow(m - 1, n - 1);
    }
  }

  /** a comes before b in the dictionary: at the first difference it has the smaller character. */
  ghost predicate LexLess(a: CString, b: CString)
    requires |a| == |b|
  {
    exists i :: 0 <= i < |a| && a[..i] == b[..i] && a[i] < b[i]
  }

  lemma LexLessBySuffix(a: CString, b: CString)
    requires |a| == |b| > 0
    ensures var n := |a| - 1;
            LexLess(a, b) <==> LexLess(a[..n], b[..n]) || (a[..n] == b[..n] && a[n] < b[n])
  {
    var n := |a| - 1;
    forall i | 0 <= i < n
      ensures a[..n][..i] == a[..i] && b[..n][..i] == b[..i]
    {
    }
    if LexLess(a[..n], b[..n]) {
      var i :| 0 <= i < n && a[..n][..i] == b[..n][..i] && a[..n][i] < b[..n][i];
      assert a[..i] == b[..i] && a[i] < b[i];
    }
    if LexLess(a, b) {
      var i :| 0 <= i <= n && a[..i] == b[..i] && a[i] < b[i];
      assert i < n ==> a[..n][..i] == b[..n][..i] && a[..n][i] < b[..n][i];
    }
  }

  lemma LastDigitDecides(m: nat, n: nat, c: Char, d: Char)
    requires IsDigit(c) && IsDigit(d)
    ensures 10 * m + (c - ZERO) < 10 * n + (d - ZERO) <==> m < n || (m == n && c < d)
    ensures 10 * m + (c - ZERO) == 10 * n + (d - ZERO) <==> m == n && c == d
  {
  }

  lemma EqualBySuffix(a: CString, b: CString)
    requires |a| == |b| > 0
    ensures var n := |a| - 1; a == b <==> a[..n] == b[..n] && a[n] == b[n]
  {
    var n := |a| - 1;
    assert a == a[..n] + [a[n]] && b == b[..n] + [b[n]];
  }

  /** On strings of equal length, the order of the numbers is the order of the strings. */
  lemma {:induction false} NumericIsLexicographic(a: CString, b: CString)
    requires |a| == |b| && AllDigits(a) && AllDigits(b)
    ensures Decimal(a) < Decimal(b) <==> LexLess(a, b)
    ensures Decimal(a) == Decimal(b) <==> a == b
  {
    if a != [] {
      var n := |a| - 1;
      LexLessBySuffix(a, b);
      EqualBySuffix(a, b);
      NumericIsLexicographic(a[..n], b[..n]);
      assert IsDigit(a[n]) && IsDigit(b[n]);
      LastDigitDecides(Decimal(a[..n]), Decimal(b[..n]), a[n], b[n]);
    }
  }
}
