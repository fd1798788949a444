/** hyphenate_isbn from end to end (src/isbn-xml-to-fst/isbn-xml-to-fst.c). */
module Hyphenation {
  import opened CStrings
  import opened Results
  import opened Numbers
  import opened Transducers
  import opened Meaning
  import opened Packing
  import opened Tables
  import opened Texts
  import opened RangeSearch

  datatype Hyphenation = Done(text: seq<Label>) | NotDone(rc: Rc) | Undefined

  function RulesOf(t: TableSet, i: nat): seq<Range>
    requires i < |t.prefixes|
  {
    var s := t.prefixes[i].rules;
    if s.ruleIdx.Some? && s.ruleIdx.value + s.nrules <= |t.ranges|
    then t.ranges[s.ruleIdx.value..s.ruleIdx.value + s.nrules] else []
  }

  /** The result for a buffer of bsz bytes and an ISBN at the start of mem, given what the prefix lookup returned. */
  function Hyphenate(t: TableSet, found: Outcome, isbn: CString, mem: seq<Label>, bsz: nat): Hyphenation
    requires LiesIn(isbn, mem)
  {
    if bsz < 18 then NotDone(ENOSPC)
    else
      match found
      case Failed(rc) => NotDone(rc)
      case Fault => Undefined
      case Found(val) =>
        if val >= |t.prefixes| then Undefined
        else
          var prefix := t.prefixes[val].prefix;
          match FirstRule(RulesOf(t, val), Registrant(isbn))
          case None => NotDone(ENOENT)
          case Some(rule) =>
            if Placeable(rule.len, |prefix|, |mem|) && 14 + |prefix| <= bsz
            then Done(Hyphenated(mem, rule.len, prefix)) else Undefined
  }

  /** The section of the document that a prefix lookup of the ISBN leads to. */
  ghost predicate Governs(sections: seq<Section>, i: nat, isbn: CString) {
    && i < |sections|
    && (forall j :: 0 <= j < i ==> sections[j].prefix != sections[i].prefix)
    && sections[i].prefix <= isbn
    && (sections[i].prefix == isbn || forall j :: 0 <= j < |sections| ==> !(sections[i].prefix < sections[j].prefix))
  }

  lemma GoverningSettles(sections: seq<Section>, i: nat, isbn: CString)
    ensures var m := Dict(EntriesOf(sections));
            Governs(sections, i, isbn) <==>
            i < |sections| && Settles(m, sections[i].prefix, isbn) && m[sections[i].prefix] == i
  {
    var m := Dict(EntriesOf(sections));
    forall k
      ensures k in m <==> exists j :: 0 <= j < |sections| && sections[j].prefix == k
    {
      DictOfSections(sections, k);
    }
    if i < |sections| {
      DictOfSections(sections, sections[i].prefix);
      assert sections[i].prefix in m;
      forall j | 0 <= j < |sections|
        ensures sections[j].prefix in m
      {
      }
    }
  }

  lemma PrefixLookupFindsSection(events: seq<Event>, isbn: CString)
    requires BookOf(events).sections != []
    ensures var (sections, r) := (BookOf(events).sections, Lookup(Run(events).fst, isbn, true));
            && (forall i: nat :: r == Found(i) <==> Governs(sections, i, isbn))
            && (r.Found? || r == Failed(ENOENT))
  {
    var sections := BookOf(events).sections;
    var m := Dict(EntriesOf(sections));
    TableOfRun(events);
    PrefixLookup(EntriesOf(sections), isbn);
    forall i: nat
      ensures Lookup(Run(events).fst, isbn, true) == Found(i) <==> Governs(sections, i, isbn)
    {
      GoverningSettles(sections, i, isbn);
      if k :| Settles(m, k, isbn) && m[k] == i {
        DictOfSections(sections, k);
      }
    }
  }

  lemma RulesOfSection(events: seq<Event>, i: nat)
    requires i < |BookOf(events).sections|
    ensures var (t, s) := (Run(events), BookOf(events).sections[i]);
            i < |t.prefixes| && t.prefixes[i].prefix == s.prefix && RulesOf(t, i) == s.rules
  {
    RunFlattensBook(events);
    assert EntryFlattens(Run(events), BookOf(events), i);
  }

  // ----- what becomes of an ISBN under a section of the document

  /** NOT the code: the text that the section means for the ISBN, cut by the rule for the number behind the prefix. */
  function TextMeant(s: Section, isbn: CString): Option<seq<Label>>
    requires IsIsbn(isbn)
  {
    match FirstRule(s.rules, NumberBehind(isbn, |s.prefix|))
    case None => None
    case Some(rule) =>
      if 3 <= |s.prefix| && |s.prefix| + rule.len <= 12 then Some(HyphenatedAsMeant(isbn, rule.len, s.prefix)) else None
  }

  /** What is written: the text with its hyphens where the prefix and the rule put them. Its digits are conserved
      for one-digit groups alone, and its digits up to the first NUL for all but two-digit groups and prefixes
      without a group. */
  ghost predicate Written(text: seq<Label>, s: Section, rule: Range, isbn: CString, mem: seq<Label>)
    requires LiesIn(isbn, mem) && rule.len <= 8 && 3 <= |s.prefix| && |s.prefix| + 8 <= |mem|
  {
    && LaidOut(text, mem, rule.len, s.prefix)
    && text == Hyphenated(mem, rule.len, s.prefix)
    && (StripHyphens(text) == isbn <==> |s.prefix| == 4)
    && (StripHyphens(CStr(text)) == isbn <==> |s.prefix| == 4 || |s.prefix| >= 6)
    && (|s.prefix| == 4 ==> CutInFive(text, isbn, rule.len))
  }

  /** Whenever a text is meant, it is what the code writes, and what is printed, iff the group has one digit. */
  ghost predicate AsMeantIff(r: Hyphenation, s: Section, isbn: CString)
    requires IsIsbn(isbn)
  {
    TextMeant(s, isbn).Some? ==>
      && (r == Done(TextMeant(s, isbn).value) <==> |s.prefix| == 4)
      && (r.Done? && CStr(r.text) == TextMeant(s, isbn).value <==> |s.prefix| == 4)
  }

  /** What becomes of an ISBN that the section governs. Without a rule for the registrant, ENOENT. With one, a text
      is written iff the registrant has at most eight digits, the prefix at least three, there are eight characters
      to read behind the prefix, and the buffer has room for the text and its NUL. */
  ghost predicate Fulfils(r: Hyphenation, s: Section, isbn: CString, mem: seq<Label>, bsz: nat)
    requires LiesIn(isbn, mem)
  {
    && AsMeantIff(r, s, isbn)
    && match FirstRule(s.rules, Registrant(isbn))
       case None => r == NotDone(ENOENT)
       case Some(rule) =>
         && (r.Done? <==> rule.len <= 8 && 3 <= |s.prefix| && |s.prefix| + 8 <= |mem| && 14 + |s.prefix| <= bsz)
         && (if r.Done? then Written(r.text, s, rule, isbn, mem) else r == Undefined)
  }

  lemma TextIsWritten(s: Section, rule: Range, isbn: CString, mem: seq<Label>)
    requires LiesIn(isbn, mem) && s.prefix <= isbn && Placeable(rule.len, |s.prefix|, |mem|)
    ensures Written(Hyphenated(mem, rule.len, s.prefix), s, rule, isbn, mem)
  {
    TextLayout(mem, rule.len, s.prefix);
    DigitsConserved(isbn, mem, rule.len, s.prefix);
    PrintedDigits(isbn, mem, rule.len, s.prefix);
    if |s.prefix| == 4 {
      OneDigitGroup(isbn, mem, rule.len, s.prefix);
    }
  }

  /** The rule that the code takes need not be the one meant; with a one-digit group it is. */
  lemma TextIsAsMeant(s: Section, rule: Range, isbn: CString, mem: seq<Label>)
    requires LiesIn(isbn, mem) && s.prefix <= isbn && Placeable(rule.len, |s.prefix|, |mem|)
    requires FirstRule(s.rules, Registrant(isbn)) == Some(rule)
    ensures AsMeantIff(Done(Hyphenated(mem, rule.len, s.prefix)), s, isbn)
  {
    var hit := FirstRule(s.rules, NumberBehind(isbn, |s.prefix|));
    if |s.prefix| == 4 {
      BehindFourDigits(isbn);
    }
    if hit.Some? && |s.prefix| + hit.value.len <= 12 {
      AsMeant(isbn, mem, rule.len, hit.value.len, s.prefix);
    }
  }

  /** For a one-digit group, a text that is meant is always written. */
  lemma MeantIsDone(s: Section, isbn: CString)
    requires IsIsbn(isbn) && |s.prefix| == 4 && TextMeant(s, isbn).Some?
    ensures FirstRule(s.rules, Registrant(isbn)).Some? && FirstRule(s.rules, Registrant(isbn)).value.len <= 8
  {
    BehindFourDigits(isbn);
  }

  lemma SectionFulfilled(events: seq<Event>, i: nat, isbn: CString, mem: seq<Label>, bsz: nat)
    requires i < |BookOf(events).sections| && BookOf(events).sections[i].prefix <= isbn
    requires LiesIn(isbn, mem) && bsz >= 18
    ensures Fulfils(Hyphenate(Run(events), Found(i), isbn, mem, bsz), BookOf(events).sections[i], isbn, mem, bsz)
  {
    RulesOfSection(events, i);
    var s := BookOf(events).sections[i];
    var hit := FirstRule(s.rules, Registrant(isbn));
    if hit.Some? && Placeable(hit.value.len, |s.prefix|, |mem|) {
      TextIsWritten(s, hit.value, isbn, mem);
      TextIsAsMeant(s, hit.value, isbn, mem);
    }
    if |s.prefix| == 4 && TextMeant(s, isbn).Some? {
      MeantIsDone(s, isbn);
    }
  }

  /** End to end, for any document and any ISBN. Without a section that governs the ISBN, or without a rule of
      that section for the registrant, ENOENT. Otherwise the ISBN is cut as the first matching rule says; its
      digits are conserved, and the text is the one meant, exactly when the registration group has one digit.
      (No section at all leaves the transducer empty.) ENOSPC comes back exactly for a buffer of less than 18 bytes. */
  lemma EndToEnd(events: seq<Event>, isbn: CString, mem: seq<Label>, bsz: nat)
    requires LiesIn(isbn, mem)
    ensures var (t, sections) := (Run(events), BookOf(events).sections);
            var r := Hyphenate(t, Lookup(t.fst, isbn, true), isbn, mem, bsz);
            && (r == NotDone(ENOSPC) <==> bsz < 18)
            && (bsz >= 18 ==>
                  && (sections == [] ==> r == Undefined)
                  && (sections != [] && (forall i: nat :: !Governs(sections, i, isbn)) ==> r == NotDone(ENOENT))
                  && (forall i: nat :: Governs(sections, i, isbn) ==> Fulfils(r, sections[i], isbn, mem, bsz)))
  {
    var t, sections := Run(events), BookOf(events).sections;
    if sections == [] {
      TableOfRun(events);
      PrefixLookupOfNothing(isbn);
      assert EntriesOf(sections) == [];
    } else {
      PrefixLookupFindsSection(events, isbn);
      forall i: nat | Governs(sections, i, isbn) && bsz >= 18
        ensures Fulfils(Hyphenate(t, Found(i), isbn, mem, bsz), sections[i], isbn, mem, bsz)
      {
        SectionFulfilled(events, i, isbn, mem, bsz);
      }
    }
  }

  /** With the packed transducer, in a block that has room for it, the result is the same for every ISBN that
      does not begin with the last prefix to have gained states. The program's own block is shorter than that by
      the header (Packing.MeasureLeavesOutHeader). */
  lemma PackedEndToEnd(events: seq<Event>, isbn: CString, mem: seq<Label>, bsz: nat)
    requires LiesIn(isbn, mem)
    ensures var (t, last) := (Run(events), LastGrowth(EntriesOf(BookOf(events).sections)));
            Hyphenate(t, PackedResult(t.fst, isbn, true), isbn, mem, bsz) ==
            if bsz >= 18 && last <= isbn then Undefined else Hyphenate(t, Lookup(t.fst, isbn, true), isbn, mem, bsz)
  {
    TableOfRun(events);
    PackedLookupAgrees(EntriesOf(BookOf(events).sections), isbn, true);
  }

  /** The registrant as the code reads it lies in a gap between the rules. */
  ghost predicate InGap(s: Section, isbn: CString)
    requires IsIsbn(isbn)
  {
    forall rule :: rule in s.rules ==> !(rule.lo <= Registrant(isbn) <= rule.hi)
  }

  /** ENOENT comes back exactly for an ISBN that no section governs, or whose section has a gap where the code
      reads the registrant. */
  lemma EnoentMeansGap(events: seq<Event>, isbn: CString, mem: seq<Label>, bsz: nat)
    requires LiesIn(isbn, mem) && BookOf(events).sections != []
    ensures var (t, sections) := (Run(events), BookOf(events).sections);
            Hyphenate(t, Lookup(t.fst, isbn, true), isbn, mem, bsz) == NotDone(ENOENT) <==>
            bsz >= 18 && forall i: nat :: Governs(sections, i, isbn) ==> InGap(sections[i], isbn)
  {
    EndToEnd(events, isbn, mem, bsz);
    var sections := BookOf(events).sections;
    forall i: nat | Governs(sections, i, isbn)
      ensures InGap(sections[i], isbn) <==> FirstRule(sections[i].rules, Registrant(isbn)).None?
    {
      FirstRuleMisses(sections[i].rules, Registrant(isbn));
    }
    if i: nat :| Governs(sections, i, isbn) {
      forall j: nat | Governs(sections, j, isbn)
        ensures j == i
      {
        OneGoverns(sections, i, j, isbn);
      }
    }
  }

  /** At most one section governs an ISBN. */
  lemma OneGoverns(sections: seq<Section>, i: nat, j: nat, isbn: CString)
    requires Governs(sections, i, isbn) && Governs(sections, j, isbn)
    ensures i == j
  {
    GoverningSettles(sections, i, isbn);
    GoverningSettles(sections, j, isbn);
    AtMostOneSettles(Dict(EntriesOf(sections)), sections[i].prefix, sections[j].prefix, isbn);
  }

  /** The rules of a section, in whatever order, tile the seven-digit numbers. */
  ghost predicate Covered(s: Section) {
    exists rules :: multiset(rules) == multiset(s.rules) && Tile(rules, 0, 9_999_999)
  }

  /** Under a covered section ENOENT never comes back. */
  lemma CoverageLeavesNoGap(events: seq<Event>, isbn: CString, mem: seq<Label>, bsz: nat, i: nat)
    requires LiesIn(isbn, mem)
    requires Governs(BookOf(events).sections, i, isbn) && Covered(BookOf(events).sections[i])
    ensures var t := Run(events); Hyphenate(t, Lookup(t.fst, isbn, true), isbn, mem, bsz) != NotDone(ENOENT)
  {
    var s := BookOf(events).sections[i];
    var rules :| multiset(rules) == multiset(s.rules) && Tile(rules, 0, 9_999_999);
    RegistrantFits(isbn);
    SearchIgnoresOrder(rules, s.rules, 0, 9_999_999, Registrant(isbn));
    EndToEnd(events, isbn, mem, bsz);
  }
}
