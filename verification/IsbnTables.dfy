/** The table builder and the hyphenator, updating their tables in place
    (src/isbn-xml-to-fst/isbn-xml-to-fst.c). */
module IsbnTables {
  import opened CStrings
  import opened Results
  import opened Numbers
  import opened Vectors
  import opened Transducers
  import opened Fst
  import opened Packing
  import opened Tables
  import opened Texts
  import opened RangeSearch
  import opened Hyphenation
  import opened RuleStrings

  /** Recorded slices lie inside the range table, and the pending slice ends where the table does. */
  ghost predicate WellSliced(t: TableSet) {
    && (forall i :: 0 <= i < |t.prefixes| ==> Inside(t.prefixes[i].rules, |t.ranges|))
    && Inside(t.pending, |t.ranges|)
    && (t.pending.ruleIdx.Some? ==> t.pending.ruleIdx.value + t.pending.nrules == |t.ranges|)
  }

  ghost predicate Inside(s: Slice, n: nat) {
    s.nrules > 0 ==> s.ruleIdx.Some? && s.ruleIdx.value + s.nrules <= n
  }

  lemma EventsKeepSlices(t: TableSet, r: Range, pfx: CString, agency: CString)
    requires WellSliced(t)
    ensures WellSliced(AddRuleTo(t, r)) && WellSliced(AddPrefixTo(t, pfx, agency).t)
  {
  }

  /** memcpy to the position of the cursor, which moves on. */
  method MemCpy(buf: array<Label>, lbuf: nat, src: seq<Label>) returns (next: nat)
    requires lbuf + |src| <= buf.Length
    modifies buf
    ensures next == lbuf + |src|
    ensures buf[..next] == old(buf[..lbuf]) + src
    ensures forall x :: next <= x < buf.Length ==> buf[x] == old(buf[x])
  {
    for i := 0 to |src|
      invariant forall j :: 0 <= j < i ==> buf[lbuf + j] == src[j]
      invariant forall x :: 0 <= x < buf.Length && !(lbuf <= x < lbuf + i) ==> buf[x] == old(buf[x])
    {
      buf[lbuf + i] := src[i];
    }
    next := lbuf + |src|;
  }

  /** One part and the hyphen behind it. */
  method PlacePart(hbuf: array<Label>, lbuf: nat, part: seq<Label>, ghost before: seq<Label>) returns (next: nat)
    requires lbuf + |part| + 1 <= hbuf.Length && hbuf[..lbuf] == before
    modifies hbuf
    ensures next == lbuf + |part| + 1 && hbuf[..next] == before + (part + [HYPHEN])
    ensures forall x :: next <= x < hbuf.Length ==> hbuf[x] == old(hbuf[x])
  {
    next := MemCpy(hbuf, lbuf, part);
    hbuf[next] := HYPHEN;
    next := next + 1;
    assert hbuf[..next] == hbuf[..next - 1] + [HYPHEN];
  }

  /** The last part and the NUL. */
  method PlaceLast(hbuf: array<Label>, lbuf: nat, part: seq<Label>, ghost before: seq<Label>)
    requires lbuf + |part| + 1 <= hbuf.Length && hbuf[..lbuf] == before
    modifies hbuf
    ensures hbuf[..lbuf + |part| + 1] == before + (part + [NUL])
    ensures forall x :: lbuf + |part| + 1 <= x < hbuf.Length ==> hbuf[x] == old(hbuf[x])
  {
    var next := MemCpy(hbuf, lbuf, part);
    hbuf[next] := NUL;
    assert hbuf[..next + 1] == hbuf[..next] + [NUL];
  }

  lemma TwoPartsInTurn(a: seq<Label>, b: seq<Label>, more: seq<Label>)
    ensures [] + (a + [HYPHEN]) + (b + [HYPHEN]) + more == a + [HYPHEN] + (b + [HYPHEN] + more)
  {
  }

  lemma ThreePartsInTurn(ab: seq<Label>, c: seq<Label>, d: seq<Label>, e: seq<Label>)
    ensures ab + (c + [HYPHEN]) + (d + [HYPHEN]) + (e + [NUL]) == ab + (c + [HYPHEN] + (d + [HYPHEN] + e)) + [NUL]
  {
  }

  /** Prefix and group. */
  method PlaceFront(hbuf: array<Label>, a: seq<Label>, b: seq<Label>) returns (lbuf: nat)
    requires |a| + |b| + 2 <= hbuf.Length
    modifies hbuf
    ensures lbuf == |a| + |b| + 2 && hbuf[..lbuf] == [] + (a + [HYPHEN]) + (b + [HYPHEN])
    ensures forall x :: lbuf <= x < hbuf.Length ==> hbuf[x] == old(hbuf[x])
  {
    lbuf := PlacePart(hbuf, 0, a, []);
    lbuf := PlacePart(hbuf, lbuf, b, [] + (a + [HYPHEN]));
  }

  /** Registrant, publication and check digit. */
  method PlaceBack(hbuf: array<Label>, start: nat, c: seq<Label>, d: seq<Label>, e: seq<Label>, ghost before: seq<Label>)
    requires start + |c| + |d| + |e| + 3 <= hbuf.Length && hbuf[..start] == before
    modifies hbuf
    ensures var n := start + |c| + |d| + |e| + 3;
            && hbuf[..n] == before + (c + [HYPHEN]) + (d + [HYPHEN]) + (e + [NUL])
            && forall x :: n <= x < hbuf.Length ==> hbuf[x] == old(hbuf[x])
  {
    var lbuf := PlacePart(hbuf, start, c, before);
    lbuf := PlacePart(hbuf, lbuf, d, before + (c + [HYPHEN]));
    PlaceLast(hbuf, lbuf, e, before + (c + [HYPHEN]) + (d + [HYPHEN]));
  }

  /** Fills hbuf with the hyphenated ISBN, which begins mem; less than 18 bytes would abort. */
  method PlaceHyphens(hbuf: array<Label>, bsz: nat, mem: seq<Label>, len: nat, prefix: CString, pfxlen: nat)
    requires bsz >= 18 && hbuf.Length >= 14 + pfxlen
    requires |mem| >= ISBN_LEN && pfxlen == |prefix| && Placeable(len, pfxlen, |mem|)
    modifies hbuf
    ensures hbuf[..14 + pfxlen] == Hyphenated(mem, len, prefix) + [NUL]
    ensures forall x :: 14 + pfxlen <= x < hbuf.Length ==> hbuf[x] == old(hbuf[x])
  {
    var l1 := pfxlen - 3;
    var a: seq<Label>, b: seq<Label>, e: seq<Label> := mem[..3], prefix[3..], [mem[12]];
    var c, d := mem[3 + l1..3 + l1 + len], mem[3 + l1 + len..3 + l1 + len + (8 - len)];
    var lbuf := PlaceFront(hbuf, a, b);
    PlaceBack(hbuf, lbuf, c, d, e, [] + (a + [HYPHEN]) + (b + [HYPHEN]));
    ThreePartsInTurn([] + (a + [HYPHEN]) + (b + [HYPHEN]), c, d, e);
    TwoPartsInTurn(a, b, c + [HYPHEN] + (d + [HYPHEN] + e));
    assert Hyphenated(mem, len, prefix) == FiveParts(a, b, c, d, e);
  }

  lemma PrintedIsText(hbuf: array<Label>, text: seq<Label>)
    requires |text| < hbuf.Length && hbuf[..|text| + 1] == text + [NUL]
    ensures CStr(hbuf[..]) == CStr(text)
  {
    var rest := hbuf[|text| + 1..];
    assert hbuf[..] == text + [NUL] + rest;
    CStrIgnoresRest(text, rest);
  }

  /** The call of place_hyphens and what it leaves in a buffer that is large enough. */
  method PlaceText(hbuf: array<Label>, bsz: nat, mem: seq<Label>, len: nat, prefix: CString)
    requires 18 <= bsz == hbuf.Length && 14 + |prefix| <= bsz
    requires |mem| >= ISBN_LEN && Placeable(len, |prefix|, |mem|)
    modifies hbuf
    ensures var text := Hyphenated(mem, len, prefix);
            && |text| + 1 <= bsz && hbuf[..|text| + 1] == text + [NUL] && CStr(hbuf[..]) == CStr(text)
            && forall x :: |text| < x < bsz ==> hbuf[x] == old(hbuf[x])
  {
    TextLength(mem, len, prefix);
    PlaceHyphens(hbuf, bsz, mem, len, prefix, |prefix|);
    PrintedIsText(hbuf, Hyphenated(mem, len, prefix));
  }

  /** The digits of a prefix, collected in a buffer of 16 characters; None for a bad character. */
  method NumericPrefix(pfx: CString) returns (numeric: Option<CString>)
    requires FitsBuffer(pfx)
    ensures numeric == if Clean(pfx) then Some(DigitsOf(pfx)) else None
  {
    var buf := new Char[16];
    var rlen, i := 0, 0;
    while i < |pfx|
      invariant 0 <= i <= |pfx| && Clean(pfx[..i])
      invariant rlen == |DigitsOf(pfx[..i])| <= 15 && buf[..rlen] == DigitsOf(pfx[..i])
    {
      assert pfx[..i + 1][..i] == pfx[..i];
      if IsDigit(pfx[i]) {
        buf[rlen] := pfx[i];
        rlen := rlen + 1;
        assert Clean(pfx[..i + 1]);
      } else if pfx[i] != HYPHEN {
        return None;
      }
      i := i + 1;
    }
    assert pfx[..i] == pfx;
    return Some(buf[..rlen]);
  }

  method ParseRegistrant(isbn: CString) returns (n: Uint32)
    requires IsIsbn(isbn)
    ensures n == Registrant(isbn)
  {
    RegistrantFits(isbn);
    n := ParseNumberSlice(isbn, 4, 7);
  }

  lemma RulesOfEntry(t: TableSet, i: nat)
    requires WellSliced(t) && i < |t.prefixes|
    ensures var s := t.prefixes[i].rules;
            RulesOf(t, i) == if s.nrules == 0 then [] else t.ranges[s.ruleIdx.value..s.ruleIdx.value + s.nrules]
  {
  }

  /** The linear search of a slice of the range table. */
  method SearchRules(ranges: Vec<Range>, ruleIdx: nat, nrules: nat, registrant: Uint32, ghost rules: seq<Range>)
    returns (hit: Option<Range>)
    requires Holds(ranges) && ruleIdx + nrules <= ranges.len
    requires rules == Contents(ranges)[ruleIdx..ruleIdx + nrules]
    ensures hit == FirstRule(rules, registrant)
  {
    for i := 0 to nrules
      invariant FirstRule(rules, registrant) == FirstRule(rules[i..], registrant)
    {
      var rule := ranges.base[ruleIdx + i];
      assert rule == rules[i];
      if registrant >= rule.lo && registrant <= rule.hi {
        return Some(rule);
      }
      assert rules[i..][1..] == rules[i + 1..];
    }
    return None;
  }

  class IsbnInfo {
    var curValue: nat
    const prefixVec: Vec<Prefix>
    const rangesVec: Vec<Range>
    var ruleNr: nat
    var prefixNr: nat
    var newPrefix: Prefix
    const fst: Vec<State>
    /** The block that replaces the transducer when the document has been read. */
    var packed: array?<int>
    /** What the fields above hold, as a value. */
    ghost var tables: TableSet

    ghost predicate Valid()
      reads this, prefixVec, rangesVec, fst, prefixVec.base, rangesVec.base, fst.base, packed
    {
      Tied() && WellSliced(tables)
    }

    /** The fields hold the tables. */
    ghost predicate Tied()
      reads this, prefixVec, rangesVec, fst, prefixVec.base, rangesVec.base, fst.base, packed
    {
      && Holds(prefixVec) && tables.prefixes == Contents(prefixVec) && prefixNr == |tables.prefixes|
      && Holds(rangesVec) && tables.ranges == Contents(rangesVec) && ruleNr == |tables.ranges|
      && tables.pending == newPrefix.rules && tables.curValue == curValue
      && Ready(fst) && tables.fst == Model(fst) && fst.esize == SIZEOF_STATE
      && (packed != null ==> Encodes(packed, tables.fst[..|tables.fst| - 1]))
    }

    constructor ()
      ensures Valid() && tables == START && packed == null
      ensures fresh(prefixVec) && fresh(rangesVec) && fresh(fst) && fresh(fst.base)
      ensures prefixVec.base == null && rangesVec.base == null
    {
      var prefixes := new Vec<Prefix>(32);
      var ranges := new Vec<Range>(16);
      var states := FstNew();
      curValue, ruleNr, prefixNr := 0, 0, 0;
      prefixVec := prefixes;
      rangesVec := ranges;
      newPrefix := Prefix([], [], Slice(Some(0), 0));
      fst := states;
      packed := null;
      tables := START;
    }

    method AddRule(len: nat, lbound: Uint32, ubound: Uint32) returns (rc: Rc)
      requires Valid() && packed == null
      modifies this, rangesVec, rangesVec.base
      ensures Valid() && packed == null && rc == OK
      ensures tables == AddRuleTo(old(tables), Range(len, lbound, ubound))
      ensures rangesVec.base == old(rangesVec.base) || fresh(rangesVec.base)
    {
      EventsKeepSlices(tables, Range(len, lbound, ubound), [], []);
      AppendRange(Range(len, lbound, ubound));
      CountRule();
      return OK;
    }

    /** The second half: the pending slice counts the rule. */
    method CountRule()
      requires Tied() && packed == null && ruleNr > 0
      modifies this`newPrefix, this`tables
      ensures Tied() && packed == null
      ensures tables == old(tables).(pending := Counted(old(tables.pending), ruleNr - 1))
    {
      var rules := newPrefix.rules;
      if rules.ruleIdx == None {
        rules := Slice(Some(ruleNr - 1), 0);
      }
      newPrefix := newPrefix.(rules := rules.(nrules := rules.nrules + 1));
      tables := tables.(pending := newPrefix.rules);
    }

    /** The first half of add_rule: the range table grows. */
    method AppendRange(r: Range)
      requires Tied() && packed == null
      modifies this, rangesVec, rangesVec.base
      ensures Tied() && packed == null && newPrefix == old(newPrefix)
      ensures tables == old(tables).(ranges := old(tables.ranges) + [r])
      ensures rangesVec.base == old(rangesVec.base) || fresh(rangesVec.base)
    {
      MakeRoomForNext(rangesVec);
      StoreNext(rangesVec, r);
      ruleNr := ruleNr + 1;
      tables := tables.(ranges := tables.ranges + [r]);
    }

    method AddRuleStr(rangeStr: Option<CString>, rangeLen: Option<CString>) returns (rc: Rc)
      requires Valid() && packed == null
      modifies this, rangesVec, rangesVec.base
      ensures Valid() && packed == null
      ensures rc == if ParseRule(rangeStr, rangeLen).Some? then OK else REJECTED
      ensures tables == if rc == OK then AddRuleTo(old(tables), ParseRule(rangeStr, rangeLen).value) else old(tables)
      ensures rangesVec.base == old(rangesVec.base) || fresh(rangesVec.base)
    {
      var rule := ReadRule(rangeStr, rangeLen);
      if rule == None {
        return REJECTED;
      }
      rc := AddRule(rule.value.len, rule.value.lo, rule.value.hi);
    }

    method AddPrefix(pfx: CString, agency: CString) returns (rc: Rc)
      requires Valid() && packed == null && FitsBuffer(pfx)
      modifies this, prefixVec, prefixVec.base, fst, fst.base
      ensures Valid() && packed == null
      ensures Grouped(tables, rc) == AddPrefixTo(old(tables), pfx, agency)
      ensures prefixVec.base == old(prefixVec.base) || fresh(prefixVec.base)
      ensures fst.base == old(fst.base) || fresh(fst.base)
    {
      EventsKeepSlices(tables, Range(0, 0, 0), pfx, agency);
      MakeRoomForPrefix();
      var numericPrefix := NumericPrefix(pfx);
      if numericPrefix == None {
        return REJECTED;
      }
      rc := Accept(numericPrefix.value, agency);
    }

    /** The prefix goes into the table and into the transducer. */
    method Accept(prefix: CString, agency: CString) returns (rc: Rc)
      requires Tied() && packed == null && prefixVec.base != null && prefixVec.len < prefixVec.size
      modifies this, prefixVec`len, prefixVec.base, fst, fst.base
      ensures Tied() && packed == null && Grouped(tables, rc) == Record(old(tables), prefix, agency)
      ensures fst.base == old(fst.base) || fresh(fst.base)
    {
      RecordPrefix(prefix, agency);
      rc := IndexPrefix(prefix);
    }

    method MakeRoomForPrefix()
      requires Tied() && packed == null
      modifies prefixVec
      ensures Tied() && prefixVec.base != null && prefixVec.len < prefixVec.size
      ensures prefixVec.base == old(prefixVec.base) || fresh(prefixVec.base)
    {
      MakeRoomForNext(prefixVec);
    }

    /** The first half of add_prefix: the entry takes over the pending slice. */
    method RecordPrefix(prefix: CString, agency: CString)
      requires Tied() && packed == null && prefixVec.base != null && prefixVec.len < prefixVec.size
      modifies this, prefixVec`len, prefixVec.base
      ensures Tied() && packed == null
      ensures tables == old(tables).(prefixes := old(tables.prefixes) + [Prefix(prefix, agency, old(tables.pending))],
                                     pending := Slice(None, 0))
    {
      newPrefix := newPrefix.(prefix := prefix, agency := agency);
      StoreNext(prefixVec, newPrefix);
      prefixNr := prefixNr + 1;
      tables := tables.(prefixes := tables.prefixes + [newPrefix], pending := Slice(None, 0));
      newPrefix := newPrefix.(rules := Slice(None, 0));
    }

    /** The second half: the transducer learns the prefix. */
    method IndexPrefix(prefix: CString) returns (rc: Rc)
      requires Tied() && packed == null
      modifies this, fst, fst.base
      ensures Tied() && packed == null
      ensures tables == old(tables).(fst := tables.fst, curValue := old(tables.curValue) + 1)
      ensures Added(tables.fst, rc) == Add(old(tables.fst), prefix, old(tables.curValue))
      ensures fst.base == old(fst.base) || fresh(fst.base)
    {
      rc := AddString(fst, prefix, curValue);
      curValue := curValue + 1;
      tables := tables.(fst := Model(fst), curValue := curValue);
    }

    /** Replaces the transducer by its packed copy in the block given. */
    method Pack(block: array<int>)
      requires Valid() && packed == null
      requires block.Length >= TransStart(tables.fst[..|tables.fst| - 1], |tables.fst| - 1)
      modifies this, block
      ensures Valid() && packed == block && tables == old(tables)
    {
      ghost var cursor := FstPack(block, fst);
      packed := block;
    }

    method LookupPrefix(isbn: CString) returns (found: Outcome)
      requires Valid()
      ensures found == if packed == null then Lookup(tables.fst, isbn, true) else PackedResult(tables.fst, isbn, true)
    {
      if packed == null {
        ghost var turns;
        found, turns := FstLookup(fst, isbn, true);
      } else {
        found := PackedLookup(packed, tables.fst[..|tables.fst| - 1], isbn, true);
      }
    }

    /** The entry of the prefix table and the first matching rule of its slice. */
    method FindRule(val: nat, isbn: CString) returns (prefix: CString, hit: Option<Range>)
      requires Valid() && IsIsbn(isbn) && val < prefixNr
      ensures prefix == tables.prefixes[val].prefix
      ensures hit == FirstRule(RulesOf(tables, val), Registrant(isbn))
    {
      var pfx := prefixVec.base[val];
      assert pfx == tables.prefixes[val];
      prefix := pfx.prefix;
      var registrant := ParseRegistrant(isbn);
      RulesOfEntry(tables, val);
      if pfx.rules.nrules == 0 {
        hit := None;
      } else {
        var ruleIdx := pfx.rules.ruleIdx.value;
        hit := SearchRules(rangesVec, ruleIdx, pfx.rules.nrules, registrant, RulesOf(tables, val));
      }
    }

    /** The decision of hyphenate_isbn: an error, or the prefix and the length of the registrant to place. */
    method Resolve(isbn: CString, mem: seq<Label>, bsz: nat) returns (r: Hyphenation, prefix: CString, len: nat)
      requires Valid() && LiesIn(isbn, mem)
      ensures r == Hyphenate(tables, if packed == null then Lookup(tables.fst, isbn, true)
                                     else PackedResult(tables.fst, isbn, true), isbn, mem, bsz)
      ensures r.Done? ==> bsz >= 18 && Placeable(len, |prefix|, |mem|) && 14 + |prefix| <= bsz
                          && r.text == Hyphenated(mem, len, prefix)
    {
      prefix, len := [], 0;
      if bsz < 18 {
        return NotDone(ENOSPC), prefix, len;
      }
      var found := LookupPrefix(isbn);
      match found
      case Failed(rc) => return NotDone(rc), prefix, len;
      case Fault => return Undefined, prefix, len;
      case Found(val) =>
        if val >= prefixNr {
          return Undefined, prefix, len;
        }
        var hit;
        prefix, hit := FindRule(val, isbn);
        if hit == None {
          return NotDone(ENOENT), prefix, len;
        }
        len := hit.value.len;
        if !Placeable(len, |prefix|, |mem|) || 14 + |prefix| > bsz {
          return Undefined, prefix, len;
        }
        return Done(Hyphenated(mem, len, prefix)), prefix, len;
    }

    /** The ISBN goes through the transducer, the prefix table, the slice of the range table and the buffer.
        The pointer of the source is two parameters: the string, and the memory that begins with it. */
    method HyphenateIsbn(hbuf: array<Label>, bsz: nat, isbn: CString, mem: seq<Label>) returns (r: Hyphenation)
      requires Valid() && LiesIn(isbn, mem) && hbuf.Length == bsz
      modifies hbuf
      ensures Valid()
      ensures r == Hyphenate(tables, if packed == null then Lookup(tables.fst, isbn, true)
                                     else PackedResult(tables.fst, isbn, true), isbn, mem, bsz)
      ensures r.Done? ==> |r.text| + 1 <= bsz && hbuf[..|r.text| + 1] == r.text + [NUL]
      ensures r.Done? ==> CStr(hbuf[..]) == CStr(r.text)
      ensures forall x :: 0 <= x < bsz && (r.Done? ==> |r.text| < x) ==> hbuf[x] == old(hbuf[x])
    {
      var prefix, len;
      r, prefix, len := Resolve(isbn, mem, bsz);
      if r.Done? {
        PlaceText(hbuf, bsz, mem, len, prefix);
      }
    }

    /** One call of the parser. */
    method Handle(e: Event)
      requires Valid() && packed == null && (e.Group? ==> FitsBuffer(e.pfx))
      modifies this, prefixVec, prefixVec.base, rangesVec, rangesVec.base, fst, fst.base
      ensures Valid() && packed == null && tables == Apply(old(tables), e)
      ensures prefixVec.base == old(prefixVec.base) || fresh(prefixVec.base)
      ensures rangesVec.base == old(rangesVec.base) || fresh(rangesVec.base)
      ensures fst.base == old(fst.base) || fresh(fst.base)
    {
      match e
      case Rule(r) =>
        var rc := AddRule(r.len, r.lo, r.hi);
      case Group(pfx, agency) =>
        var rc := AddPrefix(pfx, agency);
    }
  }

  /** Any sequence of calls that the parser makes, on a new object. */
  method Load(events: seq<Event>) returns (info: IsbnInfo)
    requires forall i :: 0 <= i < |events| && events[i].Group? ==> FitsBuffer(events[i].pfx)
    ensures info.Valid() && info.packed == null && info.tables == Run(events)
  {
    info := new IsbnInfo();
    for i := 0 to |events|
      invariant info.Valid() && info.packed == null && info.tables == Run(events[..i])
      invariant fresh(info) && fresh(info.prefixVec) && fresh(info.rangesVec) && fresh(info.fst)
      invariant fresh(info.fst.base)
      invariant info.prefixVec.base == null || fresh(info.prefixVec.base)
      invariant info.rangesVec.base == null || fresh(info.rangesVec.base)
    {
      assert events[..i + 1][..i] == events[..i];
      info.Handle(events[i]);
    }
    assert events[..|events|] == events;
  }
}
