/** Rules as the range message writes them, "0000000-5999999" and a length
    (src/isbn-xml-to-fst/isbn-xml-to-fst.c, add_rule_str). */
module RuleStrings {
  import opened CStrings
  import opened Results
  import opened Numbers
  import opened Tables

  const ULONG_MAX: nat := 0xFFFF_FFFF_FFFF_FFFF
  const PLUS: Char := 43

  predicate IsSpace(c: Char) {
    c == 32 || 9 <= c <= 13
  }

  function SkipSpace(s: CString): CString {
    if s != [] && IsSpace(s[0]) then SkipSpace(s[1..]) else s
  }

  function LeadingDigits(s: CString): (d: CString)
    ensures AllDigits(d) && d <= s
  {
    if s == [] || !IsDigit(s[0]) then [] else [s[0]] + LeadingDigits(s[1..])
  }

  /** strtoul and strtoull in base 10 on a machine where both have 64 bits. */
  function StrToUL(s: CString): nat {
    var t := SkipSpace(s);
    var digits := LeadingDigits(if t != [] && (t[0] == HYPHEN || t[0] == PLUS) then t[1..] else t);
    var v := Decimal(digits);
    if v > ULONG_MAX then ULONG_MAX
    else if t != [] && t[0] == HYPHEN && v > 0 then ULONG_MAX + 1 - v
    else v
  }

  /** Everything before the first hyphen. */
  function BeforeHyphen(s: CString): (lo: CString)
    ensures lo <= s
    ensures forall i :: 0 <= i < |lo| ==> s[i] != HYPHEN
    ensures |lo| < |s| ==> s[|lo|] == HYPHEN
  {
    if s == [] || s[0] == HYPHEN then [] else [s[0]] + BeforeHyphen(s[1..])
  }

  function AfterHyphen(s: CString): CString {
    var n := |BeforeHyphen(s)|;
    if n < |s| then s[n + 1..] else []
  }

  /** None when a string is missing or one side of the range has more than 14 characters. */
  function ParseRule(rangeStr: Option<CString>, rangeLen: Option<CString>): Option<Range> {
    if rangeStr == None || rangeLen == None then None
    else
      var (lo, hi) := (BeforeHyphen(rangeStr.value), AfterHyphen(rangeStr.value));
      if |lo| > 14 || |hi| > 14 then None
      else Some(Range(StrToUL(rangeLen.value), StrToUL(lo) % TWO_TO_32, StrToUL(hi) % TWO_TO_32))
  }

  lemma {:induction false} DigitsAreLeading(s: CString)
    requires AllDigits(s)
    ensures LeadingDigits(s) == s
  {
    if s != [] {
      DigitsAreLeading(s[1..]);
    }
  }

  lemma DigitsConvert(s: CString)
    requires AllDigits(s) && |s| <= 14
    ensures StrToUL(s) == Decimal(s)
  {
    assert Decimal(s) <= ULONG_MAX by {
      DecimalIsBounded(s);
      PowersGrow(|s|, 14);
      FourteenDigitsFit();
    }
    PlainDigits(s);
  }

  lemma PlainDigits(s: CString)
    requires AllDigits(s) && Decimal(s) <= ULONG_MAX
    ensures StrToUL(s) == Decimal(s)
  {
    assert SkipSpace(s) == s && (s != [] ==> s[0] != HYPHEN && s[0] != PLUS) by {
      assert s != [] ==> IsDigit(s[0]);
    }
    assert LeadingDigits(s) == s by { DigitsAreLeading(s); }
  }

  lemma FourteenDigitsFit()
    ensures Pow10(14) <= ULONG_MAX
  {
    NineDigitsFit([]);
    assert Pow10(14) == 10 * Pow10(13) && Pow10(13) == 10 * Pow10(12) && Pow10(12) == 10 * Pow10(11);
    assert Pow10(11) == 10 * Pow10(10) && Pow10(10) == 10 * Pow10(9);
  }

  lemma {:induction false} HyphenSplits(a: CString, b: CString)
    requires 45 !in a
    ensures BeforeHyphen(a + [45] + b) == a && AfterHyphen(a + [45] + b) == b
    ensures BeforeHyphen(a) == a && AfterHyphen(a) == []
  {
    if a != [] {
      assert (a + [45] + b)[1..] == a[1..] + [45] + b;
      HyphenSplits(a[1..], b);
    }
  }

  /** Which strings are accepted, and as what: the range is split at its first hyphen, a side of 15 characters or
      more is rejected, and so is a missing string; without a hyphen the upper side is empty. */
  lemma RuleOfStrings(lo: CString, hi: CString, len: CString)
    requires 45 !in lo
    ensures ParseRule(Some(lo + [45] + hi), Some(len)) ==
            if |lo| >= 15 || |hi| >= 15 then None
            else Some(Range(StrToUL(len), StrToUL(lo) % 4_294_967_296, StrToUL(hi) % 4_294_967_296))
    ensures ParseRule(Some(lo), Some(len)) ==
            if |lo| >= 15 then None
            else Some(Range(StrToUL(len), StrToUL(lo) % 4_294_967_296, StrToUL([]) % 4_294_967_296))
    ensures ParseRule(None, Some(len)) == None && ParseRule(Some(lo), None) == None
  {
    HyphenSplits(lo, hi);
  }

  lemma {:induction false} SpacesAreSkipped(spaces: CString, t: CString)
    requires forall i :: 0 <= i < |spaces| ==> IsSpace(spaces[i])
    requires t != [] ==> !IsSpace(t[0])
    ensures SkipSpace(spaces + t) == t
  {
    if spaces == [] {
      assert spaces + t == t;
    } else {
      assert (spaces + t)[1..] == spaces[1..] + t;
      SpacesAreSkipped(spaces[1..], t);
    }
  }

  lemma {:induction false} DigitsAreTaken(digits: CString, rest: CString)
    requires AllDigits(digits) && (rest != [] ==> !IsDigit(rest[0]))
    ensures LeadingDigits(digits + rest) == digits
  {
    if digits == [] {
      assert digits + rest == rest;
    } else {
      assert (digits + rest)[1..] == digits[1..] + rest;
      DigitsAreTaken(digits[1..], rest);
    }
  }

  predicate IsSign(sign: CString) {
    sign == [] || sign == [43] || sign == [45]
  }

  /** Where the sign ends. */
  lemma BehindSign(sign: CString, tail: CString)
    requires IsSign(sign)
    requires sign == [] && tail != [] ==> !IsSpace(tail[0]) && tail[0] != 43 && tail[0] != 45
    ensures var t := sign + tail;
            && (t != [] ==> !IsSpace(t[0]))
            && (sign == [] ==> t == tail && (t != [] ==> t[0] != 43 && t[0] != 45))
            && (sign != [] ==> t != [] && t[0] == sign[0] && t[1..] == tail)
  {
  }

  /** The value that comes of the digits v: too large a number gives the largest value, and a minus sign the
      complement to 2^64. */
  function Converted(v: nat, negative: bool): nat {
    if v > 18_446_744_073_709_551_615 then 18_446_744_073_709_551_615
    else if negative && v > 0 then 18_446_744_073_709_551_616 - v
    else v
  }

  /** Conversion once the white space is gone. */
  lemma ConversionOfSigned(sign: CString, digits: CString, rest: CString, s: CString)
    requires IsSign(sign) && AllDigits(digits) && (rest != [] ==> !IsDigit(rest[0]))
    requires sign == [] && digits == [] && rest != [] ==> !IsSpace(rest[0]) && rest[0] != 43 && rest[0] != 45
    requires SkipSpace(s) == sign + (digits + rest)
    ensures StrToUL(s) == Converted(Decimal(digits), sign == [45])
  {
    var tail := digits + rest;
    assert tail != [] ==> tail[0] == if digits != [] then digits[0] else rest[0];
    BehindSign(sign, tail);
    assert LeadingDigits(tail) == digits by { DigitsAreTaken(digits, rest); }
  }

  /** strtoul on every string: white space, at most one sign, the digits and whatever follows them. */
  lemma ConversionOfStrings(spaces: CString, sign: CString, digits: CString, rest: CString)
    requires forall i :: 0 <= i < |spaces| ==> spaces[i] == 32 || 9 <= spaces[i] <= 13
    requires (sign == [] || sign == [43] || sign == [45]) && AllDigits(digits)
    requires rest != [] ==> !(48 <= rest[0] <= 57)
    requires sign == [] && digits == [] && rest != [] ==>
               rest[0] != 32 && !(9 <= rest[0] <= 13) && rest[0] != 43 && rest[0] != 45
    ensures StrToUL(spaces + (sign + (digits + rest))) == Converted(Decimal(digits), sign == [45])
  {
    var tail := digits + rest;
    assert tail != [] ==> tail[0] == if digits != [] then digits[0] else rest[0];
    BehindSign(sign, tail);
    SpacesAreSkipped(spaces, sign + tail);
    ConversionOfSigned(sign, digits, rest, spaces + (sign + tail));
  }

  lemma NoHyphenInDigits(s: CString)
    requires AllDigits(s)
    ensures 45 !in s
  {
  }

  /** Round trip: a range written with at most 14 digits a side is read back, modulo 2^32. */
  lemma RangeIsReadBack(lo: CString, hi: CString, len: CString)
    requires AllDigits(lo) && AllDigits(hi) && AllDigits(len)
    requires |lo| <= 14 && |hi| <= 14 && Decimal(len) <= 18_446_744_073_709_551_615
    ensures ParseRule(Some(lo + [45] + hi), Some(len)) ==
            Some(Range(Decimal(len), Decimal(lo) % 4_294_967_296, Decimal(hi) % 4_294_967_296))
  {
    NoHyphenInDigits(lo);
    RuleOfStrings(lo, hi, len);
    assert StrToUL(lo) == Decimal(lo) by { DigitsConvert(lo); }
    assert StrToUL(hi) == Decimal(hi) by { DigitsConvert(hi); }
    assert StrToUL(len) == Decimal(len) by { PlainDigits(len); }
  }

  /** With at most nine digits a side, as every range of the message has, it is read back exactly. */
  lemma NineDigitRange(lo: CString, hi: CString, len: CString)
    requires AllDigits(lo) && AllDigits(hi) && AllDigits(len)
    requires |lo| <= 9 && |hi| <= 9 && Decimal(len) <= 18_446_744_073_709_551_615
    ensures Decimal(lo) < 4_294_967_296 && Decimal(hi) < 4_294_967_296
    ensures ParseRule(Some(lo + [45] + hi), Some(len)) == Some(Range(Decimal(len), Decimal(lo), Decimal(hi)))
  {
    RangeIsReadBack(lo, hi, len);
    NineDigitsFit(lo);
    NineDigitsFit(hi);
  }

  /** Copies one side of the range, s[start .. end], into a buffer of 16 characters; None for a 15th character. */
  method CopySide(s: CString, start: nat, toHyphen: bool, ghost end: nat) returns (side: Option<CString>)
    requires start <= end <= |s|
    requires forall i :: start <= i < end ==> !(toHyphen && s[i] == HYPHEN)
    requires end < |s| ==> toHyphen && s[end] == HYPHEN
    ensures side == if end - start > 14 then None else Some(s[start..end])
  {
    var buf := new Char[16];
    var rlen, i := 0, start;
    while i < |s| && !(toHyphen && s[i] == HYPHEN)
      invariant start <= i <= end && rlen == i - start <= 14
      invariant buf[..rlen] == s[start..i]
    {
      if rlen > 13 {
        return None;
      }
      buf[rlen] := s[i];
      rlen := rlen + 1;
      i := i + 1;
    }
    return Some(buf[..rlen]);
  }

  method TakeApart(s: CString) returns (lo: Option<CString>, hi: Option<CString>)
    ensures lo == if |BeforeHyphen(s)| > 14 then None else Some(BeforeHyphen(s))
    ensures lo.Some? ==> hi == if |AfterHyphen(s)| > 14 then None else Some(AfterHyphen(s))
  {
    hi := None;
    lo := CopySide(s, 0, true, |BeforeHyphen(s)|);
    assert s[0..|BeforeHyphen(s)|] == BeforeHyphen(s);
    if lo == None {
      return;
    }
    var i := |lo.value|;
    if i < |s| {
      i := i + 1;
    }
    hi := CopySide(s, i, false, |s|);
    assert s[i..|s|] == AfterHyphen(s);
  }

  /** The strings are taken apart and converted; null strings are None. */
  method ReadRule(rangeStr: Option<CString>, rangeLen: Option<CString>) returns (rule: Option<Range>)
    ensures rule == ParseRule(rangeStr, rangeLen)
  {
    if rangeStr == None || rangeLen == None {
      return None;
    }
    var lo, hi := TakeApart(rangeStr.value);
    if lo == None || hi == None {
      return None;
    }
    return Some(Range(StrToUL(rangeLen.value), StrToUL(lo.value) % TWO_TO_32, StrToUL(hi.value) % TWO_TO_32));
  }
}
