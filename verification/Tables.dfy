/** The prefix table, the range table and the transducer, as values
    (src/isbn-xml-to-fst/isbn-xml-to-fst.c, src/inc/isbn-info.h). */
module Tables {
  import opened CStrings
  import opened Results
  import opened Numbers
  import opened Transducers
  import opened Tries
  import opened Meaning
  import opened Texts

  datatype Range = Range(len: nat, lo: Uint32, hi: Uint32)

  /** `None` is UNDEF_INDEX, (size_t)-1. */
  datatype Slice = Slice(ruleIdx: Option<nat>, nrules: nat)

  datatype Prefix = Prefix(prefix: CString, agency: CString, rules: Slice)

  datatype TableSet = TableSet(prefixes: seq<Prefix>, ranges: seq<Range>, pending: Slice, curValue: nat, fst: Graph)

  /** A fresh isbn_info_t is zeroed, so the first pending slice starts at 0 and not at UNDEF_INDEX. */
  const START := TableSet([], [], Slice(Some(0), 0), 0, INITIAL)

  /** A slice with one more rule; an undefined slice begins with it, at position at. */
  function Counted(s: Slice, at: nat): Slice {
    if s.ruleIdx == None then Slice(Some(at), 1) else s.(nrules := s.nrules + 1)
  }

  function AddRuleTo(t: TableSet, r: Range): TableSet {
    t.(ranges := t.ranges + [r], pending := Counted(t.pending, |t.ranges|))
  }

  /** Only digits and hyphens. */
  predicate Clean(pfx: CString) {
    forall i :: 0 <= i < |pfx| ==> IsDigit(pfx[i]) || pfx[i] == HYPHEN
  }

  function DigitsOf(pfx: CString): CString {
    if pfx == [] then []
    else
      var c := pfx[|pfx| - 1];
      DigitsOf(pfx[..|pfx| - 1]) + if IsDigit(c) then [c] else []
  }

  /** The digits before the first bad character fit numeric_prefix[16] with its NUL. */
  ghost predicate FitsBuffer(pfx: CString) {
    forall i :: 0 <= i <= |pfx| && Clean(pfx[..i]) ==> |DigitsOf(pfx[..i])| <= 15
  }

  datatype Grouped = Grouped(t: TableSet, rc: Rc)

  function Record(t: TableSet, digits: CString, agency: CString): Grouped {
    var added := Add(t.fst, digits, t.curValue);
    Grouped(TableSet(t.prefixes + [Prefix(digits, agency, t.pending)], t.ranges,
                     Slice(None, 0), t.curValue + 1, added.g), added.rc)
  }

  function AddPrefixTo(t: TableSet, pfx: CString, agency: CString): Grouped {
    if Clean(pfx) then Record(t, DigitsOf(pfx), agency) else Grouped(t, REJECTED)
  }

  /** What the parser calls, in order: the rules of a group and then the group itself. */
  datatype Event = Rule(range: Range) | Group(pfx: CString, agency: CString)

  function Apply(t: TableSet, e: Event): TableSet {
    match e
    case Rule(range) => AddRuleTo(t, range)
    case Group(pfx, agency) => AddPrefixTo(t, pfx, agency).t
  }

  function Run(events: seq<Event>): (t: TableSet)
    ensures |t.fst| > 0
  {
    if events == [] then START else Apply(Run(events[..|events| - 1]), events[|events| - 1])
  }

  // ----- the document the tables flatten: a list of groups, each with its own list of rules

  datatype Section = Section(prefix: CString, agency: CString, rules: seq<Range>)

  datatype Book = Book(sections: seq<Section>, open: seq<Range>)

  /** The rules of a rejected group stay open and fall to the next group that is accepted. */
  function BookOf(events: seq<Event>): Book {
    if events == [] then Book([], [])
    else
      var b := BookOf(events[..|events| - 1]);
      match events[|events| - 1]
      case Rule(range) => b.(open := b.open + [range])
      case Group(pfx, agency) =>
        if Clean(pfx) then Book(b.sections + [Section(DigitsOf(pfx), agency, b.open)], []) else b
  }

  /** The additions made to the transducer: each prefix with its index in the prefix table. */
  function EntriesOf(sections: seq<Section>): seq<Entry> {
    seq(|sections|, i requires 0 <= i < |sections| => Entry(sections[i].prefix, i))
  }

  function Flatten(sections: seq<Section>): seq<Range> {
    if sections == [] then [] else Flatten(sections[..|sections| - 1]) + sections[|sections| - 1].rules
  }

  /** A slice of the range table that begins at the position given. */
  ghost predicate Denotes(s: Slice, ranges: seq<Range>, start: nat, rules: seq<Range>) {
    && s.nrules == |rules|
    && start + s.nrules <= |ranges| && ranges[start..start + s.nrules] == rules
    && (s.nrules > 0 ==> s.ruleIdx == Some(start))
  }

  /** The flat tables stand for the book. */
  ghost predicate Flattens(t: TableSet, b: Book) {
    && |t.prefixes| == |b.sections| == t.curValue
    && t.ranges == Flatten(b.sections) + b.open
    && t.fst == Build(EntriesOf(b.sections))
    && (forall i :: 0 <= i < |b.sections| ==> EntryFlattens(t, b, i))
    && Denotes(t.pending, t.ranges, |Flatten(b.sections)|, b.open)
    && (t.pending.ruleIdx.Some? ==> t.pending.ruleIdx.value + t.pending.nrules == |t.ranges|)
  }

  ghost predicate EntryFlattens(t: TableSet, b: Book, i: nat)
    requires i < |t.prefixes| == |b.sections|
  {
    && t.prefixes[i].prefix == b.sections[i].prefix
    && t.prefixes[i].agency == b.sections[i].agency
    && Denotes(t.prefixes[i].rules, t.ranges, |Flatten(b.sections[..i])|, b.sections[i].rules)
  }

  lemma SliceOfLonger(a: seq<Range>, b: seq<Range>, i: nat, j: nat)
    requires a <= b && i <= j <= |a|
    ensures a[i..j] == b[i..j]
  {
  }

  /** Longer tables and a longer book do not disturb an entry. */
  lemma EntryStays(t: TableSet, b: Book, t': TableSet, b': Book, i: nat)
    requires i < |t.prefixes| == |b.sections| && |t'.prefixes| == |b'.sections| && EntryFlattens(t, b, i)
    requires t.prefixes <= t'.prefixes && t.ranges <= t'.ranges && b.sections <= b'.sections
    ensures EntryFlattens(t', b', i)
  {
    var start := |Flatten(b.sections[..i])|;
    assert b'.sections[..i] == b.sections[..i];
    SliceOfLonger(t.ranges, t'.ranges, start, start + t.prefixes[i].rules.nrules);
  }

  lemma RuleKeepsFlattening(t: TableSet, b: Book, r: Range)
    requires Flattens(t, b)
    ensures Flattens(AddRuleTo(t, r), b.(open := b.open + [r]))
  {
    var t', b' := AddRuleTo(t, r), b.(open := b.open + [r]);
    var start := |Flatten(b.sections)|;
    assert t'.ranges == Flatten(b.sections) + b'.open;
    assert t'.ranges[start..start + |b'.open|] == b'.open;
    forall i | 0 <= i < |b.sections|
      ensures EntryFlattens(t', b', i)
    {
      EntryStays(t, b, t', b', i);
    }
  }

  lemma GroupKeepsFlattening(t: TableSet, b: Book, pfx: CString, agency: CString)
    requires Flattens(t, b) && Clean(pfx)
    ensures Flattens(AddPrefixTo(t, pfx, agency).t,
                     Book(b.sections + [Section(DigitsOf(pfx), agency, b.open)], []))
  {
    var t', sections' := AddPrefixTo(t, pfx, agency).t, b.sections + [Section(DigitsOf(pfx), agency, b.open)];
    var n := |b.sections|;
    assert sections'[..n] == b.sections;
    assert EntriesOf(sections')[..n] == EntriesOf(b.sections);
    forall i | 0 <= i <= n
      ensures EntryFlattens(t', Book(sections', []), i)
    {
      if i < n {
        EntryStays(t, b, t', Book(sections', []), i);
      }
    }
  }

  /** Any run of the table builder: the two flat arrays and the transducer stand for the groups of the
      document with their rules, whatever groups have no rules or are rejected. */
  lemma {:induction false} RunFlattensBook(events: seq<Event>)
    ensures Flattens(Run(events), BookOf(events))
  {
    if events != [] {
      var before := events[..|events| - 1];
      RunFlattensBook(before);
      match events[|events| - 1]
      case Rule(range) => RuleKeepsFlattening(Run(before), BookOf(before), range);
      case Group(pfx, agency) =>
        if Clean(pfx) {
          GroupKeepsFlattening(Run(before), BookOf(before), pfx, agency);
        }
    }
  }

  lemma {:induction false} FlattenGrows(sections: seq<Section>, i: nat, j: nat)
    requires i < j <= |sections|
    ensures |Flatten(sections[..i])| + |sections[i].rules| <= |Flatten(sections[..j])|
    decreases j
  {
    assert sections[..j][..j - 1] == sections[..j - 1];
    if i < j - 1 {
      FlattenGrows(sections, i, j - 1);
    }
  }

  /** Slice i of a run; index |prefixes| is the slice still being collected. */
  function SliceAt(t: TableSet, i: nat): Slice
    requires i <= |t.prefixes|
  {
    if i < |t.prefixes| then t.prefixes[i].rules else t.pending
  }

  predicate Owns(s: Slice, r: nat) {
    s.nrules > 0 && s.ruleIdx.Some? && s.ruleIdx.value <= r < s.ruleIdx.value + s.nrules
  }

  /** Where slice i begins when it has rules, and that it ends inside the table. */
  lemma SliceIsPlaced(events: seq<Event>, i: nat)
    requires i <= |Run(events).prefixes|
    ensures |Run(events).prefixes| == |BookOf(events).sections|
    ensures var (t, b) := (Run(events), BookOf(events)); var start := |Flatten(b.sections[..i])|;
            && SliceAt(t, i).nrules == (if i < |b.sections| then |b.sections[i].rules| else |b.open|)
            && start + SliceAt(t, i).nrules <= |t.ranges|
            && (SliceAt(t, i).nrules > 0 ==> SliceAt(t, i).ruleIdx == Some(start))
  {
    RunFlattensBook(events);
    var t, b := Run(events), BookOf(events);
    if i < |b.sections| {
      assert EntryFlattens(t, b, i);
    } else {
      assert b.sections[..i] == b.sections;
    }
  }

  /** Slices with rules lie in table order and do not overlap. */
  lemma SlicesInOrder(events: seq<Event>, i: nat, j: nat)
    requires i < j <= |Run(events).prefixes|
    requires SliceAt(Run(events), i).nrules > 0 && SliceAt(Run(events), j).nrules > 0
    ensures var (s, s') := (SliceAt(Run(events), i), SliceAt(Run(events), j));
            s.ruleIdx.Some? && s'.ruleIdx.Some? && s.ruleIdx.value + s.nrules <= s'.ruleIdx.value
  {
    SliceIsPlaced(events, i);
    SliceIsPlaced(events, j);
    FlattenGrows(BookOf(events).sections, i, j);
  }

  lemma {:induction false} OwnerExists(events: seq<Event>, n: nat, r: nat)
    requires n <= |Run(events).prefixes| == |BookOf(events).sections|
    requires r < |Flatten(BookOf(events).sections[..n])|
    ensures exists i :: 0 <= i < n && Owns(SliceAt(Run(events), i), r)
    decreases n
  {
    var sections := BookOf(events).sections;
    assert sections[..n][..n - 1] == sections[..n - 1];
    if r < |Flatten(sections[..n - 1])| {
      OwnerExists(events, n - 1, r);
    } else {
      SliceIsPlaced(events, n - 1);
      assert Owns(SliceAt(Run(events), n - 1), r);
    }
  }

  /** The slices cover the range table and nothing else. */
  lemma SlicesCover(events: seq<Event>, r: nat)
    ensures var t := Run(events);
            r < |t.ranges| <==> exists i :: 0 <= i <= |t.prefixes| && Owns(SliceAt(t, i), r)
  {
    var t, b := Run(events), BookOf(events);
    var n := |t.prefixes|;
    RunFlattensBook(events);
    assert b.sections[..n] == b.sections;
    if r < |Flatten(b.sections)| {
      OwnerExists(events, n, r);
    } else if r < |t.ranges| {
      SliceIsPlaced(events, n);
      assert Owns(SliceAt(t, n), r);
    }
    if i :| 0 <= i <= n && Owns(SliceAt(t, i), r) {
      SliceIsPlaced(events, i);
    }
  }

  ghost function CountRules(t: TableSet, n: nat): nat
    requires n <= |t.prefixes|
  {
    if n == 0 then 0 else CountRules(t, n - 1) + t.prefixes[n - 1].rules.nrules
  }

  lemma {:induction false} CountIsLength(t: TableSet, b: Book, n: nat)
    requires Flattens(t, b) && n <= |b.sections|
    ensures CountRules(t, n) == |Flatten(b.sections[..n])|
  {
    if n > 0 {
      CountIsLength(t, b, n - 1);
      assert b.sections[..n][..n - 1] == b.sections[..n - 1];
      assert EntryFlattens(t, b, n - 1);
    }
  }

  /** The counts of all slices add up to the number of rules. */
  lemma CountsSumToRules(events: seq<Event>)
    ensures var t := Run(events); CountRules(t, |t.prefixes|) + t.pending.nrules == |t.ranges|
  {
    RunFlattensBook(events);
    var b := BookOf(events);
    CountIsLength(Run(events), b, |b.sections|);
    assert b.sections[..|b.sections|] == b.sections;
  }

  /** Nothing recorded is ever changed or removed. */
  lemma {:induction false} RecordsAreKept(events: seq<Event>, m: nat)
    requires m <= |events|
    ensures Run(events[..m]).prefixes <= Run(events).prefixes && Run(events[..m]).ranges <= Run(events).ranges
    decreases |events|
  {
    if m < |events| {
      var before := events[..|events| - 1];
      assert before[..m] == events[..m];
      RecordsAreKept(before, m);
    } else {
      assert events[..m] == events;
    }
  }

  /** Index i is the first in the table with prefix k. */
  ghost predicate FirstWith(t: TableSet, k: CString, i: nat) {
    && i < |t.prefixes| && t.prefixes[i].prefix == k
    && forall j :: 0 <= j < i ==> t.prefixes[j].prefix != k
  }

  lemma {:induction false} SomeFirst(sections: seq<Section>, k: CString, i: nat) returns (f: nat)
    requires i < |sections| && sections[i].prefix == k
    ensures f <= i && sections[f].prefix == k && forall j :: 0 <= j < f ==> sections[j].prefix != k
  {
    f := i;
    if j: nat :| j < i && sections[j].prefix == k {
      f := SomeFirst(sections, k, j);
    }
  }

  lemma DictOfSections(sections: seq<Section>, k: CString)
    ensures var m := Dict(EntriesOf(sections));
            && (k in m <==> exists i :: 0 <= i < |sections| && sections[i].prefix == k)
            && (k in m ==> m[k] < |sections| && sections[m[k]].prefix == k
                           && forall j :: 0 <= j < m[k] ==> sections[j].prefix != k)
  {
    var entries := EntriesOf(sections);
    DictHoldsFirstAdditions(entries, k);
    if k in Dict(entries) {
      var i :| 0 <= i < |entries| && entries[i].key == k;
      var f := SomeFirst(sections, k, i);
      assert entries[f].key == k && entries[f].val == f;
      assert forall j :: 0 <= j < f ==> entries[j].key == sections[j].prefix;
    }
    if i :| 0 <= i < |sections| && sections[i].prefix == k {
      assert entries[i].key == k;
    }
  }

  /** The prefix table and the transducer of a run, in terms of the document. */
  lemma TableOfRun(events: seq<Event>)
    ensures var (t, sections) := (Run(events), BookOf(events).sections);
            && |t.prefixes| == |sections| == t.curValue
            && t.fst == Build(EntriesOf(sections))
            && forall i :: 0 <= i < |sections| ==> t.prefixes[i].prefix == sections[i].prefix
  {
    RunFlattensBook(events);
    var t, b := Run(events), BookOf(events);
    assert forall i :: 0 <= i < |b.sections| ==> EntryFlattens(t, b, i);
  }

  lemma StoredInRun(events: seq<Event>, k: CString)
    ensures var m := Dict(EntriesOf(BookOf(events).sections));
            Stored(Run(events).fst, k) == if k in m then Some(m[k]) else None
  {
    TableOfRun(events);
    BuildRefinesDict(EntriesOf(BookOf(events).sections));
  }

  /** The transducer of a run maps exactly the prefixes of the table, each to the first index that holds it. */
  lemma IndexAgreesWithTable(events: seq<Event>, k: CString)
    ensures var t := Run(events);
            && t.curValue == |t.prefixes|
            && (Stored(t.fst, k).Some? <==> exists i :: 0 <= i < |t.prefixes| && t.prefixes[i].prefix == k)
            && (Stored(t.fst, k).Some? ==> FirstWith(t, k, Stored(t.fst, k).value))
  {
    TableOfRun(events);
    StoredInRun(events, k);
    DictOfSections(BookOf(events).sections, k);
  }

  /** The numeric prefix that the builder records is the given prefix without its hyphens. */
  lemma {:induction false} NumericPrefixIsStripped(pfx: CString)
    requires Clean(pfx)
    ensures StripHyphens(pfx) == DigitsOf(pfx) && AllDigits(DigitsOf(pfx))
  {
    if pfx != [] {
      var n := |pfx| - 1;
      NumericPrefixIsStripped(pfx[..n]);
      StripOfConcat(pfx[..n], pfx[n..]);
      assert pfx == pfx[..n] + pfx[n..];
    }
  }

  /** Nothing but digits and hyphens, by their codes. */
  ghost predicate Acceptable(pfx: CString) {
    forall i :: 0 <= i < |pfx| ==> 48 <= pfx[i] <= 57 || pfx[i] == 45
  }

  /** add_prefix, after any run: a prefix with any other character than digits and hyphens is rejected and changes
      nothing. Every other prefix is recorded without its hyphens, together with the pending rules; the code is
      EEXIST exactly when the table holds it already, and 0 otherwise. */
  lemma GroupCode(events: seq<Event>, pfx: CString, agency: CString)
    ensures var (t, r) := (Run(events), AddPrefixTo(Run(events), pfx, agency)); var n := |t.prefixes|;
            if Acceptable(pfx) then
              && r.rc == (if exists i :: 0 <= i < n && t.prefixes[i].prefix == StripHyphens(pfx) then EEXIST else OK)
              && |r.t.prefixes| == n + 1 && r.t.prefixes[..n] == t.prefixes
              && r.t.prefixes[n].prefix == StripHyphens(pfx)
              && r.t.prefixes[n].agency == agency && r.t.prefixes[n].rules == t.pending
              && r.t.ranges == t.ranges && r.t.pending == Slice(None, 0)
              && (r.rc == EEXIST ==> r.t.fst == t.fst)
            else r == Grouped(t, REJECTED)
  {
    TableOfRun(events);
    if Clean(pfx) {
      NumericPrefixIsStripped(pfx);
      var sections := BookOf(events).sections;
      DictOfSections(sections, DigitsOf(pfx));
      AdditionExtendsMap(EntriesOf(sections), DigitsOf(pfx), |sections|);
    }
  }

  /** add_rule, after any run: the rule goes behind the others and into the pending slice. */
  lemma RuleIsAdded(events: seq<Event>, r: Range)
    ensures var (t, t') := (Run(events), Run(events + [Rule(r)]));
            && t'.ranges == t.ranges + [r] && t'.prefixes == t.prefixes && t'.fst == t.fst
            && t'.pending.nrules == t.pending.nrules + 1
            && t'.pending.ruleIdx == Some(if t.pending.ruleIdx.Some? then t.pending.ruleIdx.value else |t.ranges|)
  {
    assert (events + [Rule(r)])[..|events|] == events;
    RunFlattensBook(events);
  }

  lemma {:induction false} DigitsOfPrefix(pfx: CString, i: nat)
    requires i <= |pfx|
    ensures |DigitsOf(pfx[..i])| <= |DigitsOf(pfx)|
    decreases |pfx|
  {
    if i < |pfx| {
      var n := |pfx| - 1;
      assert pfx[..n][..i] == pfx[..i];
      DigitsOfPrefix(pfx[..n], i);
    } else {
      assert pfx[..i] == pfx;
    }
  }

  /** A prefix of digits and hyphens fits the buffer of the source iff it has at most 15 digits. */
  lemma FifteenDigitsFit(pfx: CString)
    requires Acceptable(pfx)
    ensures FitsBuffer(pfx) <==> |StripHyphens(pfx)| <= 15
  {
    NumericPrefixIsStripped(pfx);
    assert pfx[..|pfx|] == pfx;
    forall i | 0 <= i <= |pfx|
      ensures |DigitsOf(pfx[..i])| <= |DigitsOf(pfx)|
    {
      DigitsOfPrefix(pfx, i);
    }
  }

  // ----- reading a document

  /** A group as the range message lists it: the parser delivers its rules and then the group itself. */
  datatype Listed = Listed(prefix: CString, agency: CString, rules: seq<Range>)

  function RuleEvents(rules: seq<Range>): seq<Event> {
    seq(|rules|, i requires 0 <= i < |rules| => Rule(rules[i]))
  }

  function EventsOf(doc: seq<Listed>): seq<Event> {
    if doc == [] then []
    else
      var last := doc[|doc| - 1];
      EventsOf(doc[..|doc| - 1]) + RuleEvents(last.rules) + [Group(last.prefix, last.agency)]
  }

  lemma {:induction false} RulesStayOpen(events: seq<Event>, rules: seq<Range>)
    ensures var (b, b') := (BookOf(events), BookOf(events + RuleEvents(rules)));
            b'.sections == b.sections && b'.open == b.open + rules
  {
    if rules == [] {
      assert events + RuleEvents(rules) == events;
    } else {
      var n := |rules| - 1;
      RulesStayOpen(events, rules[..n]);
      assert (events + RuleEvents(rules))[..|events| + n] == events + RuleEvents(rules[..n]);
      assert rules == rules[..n] + [rules[n]];
    }
  }

  /** The section stands for the listed group. */
  ghost predicate StandsFor(s: Section, g: Listed) {
    s.prefix == StripHyphens(g.prefix) && s.agency == g.agency && s.rules == g.rules
  }

  lemma GroupIsRead(events: seq<Event>, g: Listed)
    requires Acceptable(g.prefix) && BookOf(events).open == []
    ensures var b := BookOf(events + RuleEvents(g.rules) + [Group(g.prefix, g.agency)]);
            && b.open == [] && |b.sections| == |BookOf(events).sections| + 1
            && b.sections[..|b.sections| - 1] == BookOf(events).sections
            && StandsFor(b.sections[|b.sections| - 1], g)
  {
    var before := events + RuleEvents(g.rules);
    RulesStayOpen(events, g.rules);
    assert (before + [Group(g.prefix, g.agency)])[..|before|] == before;
    assert Clean(g.prefix);
    NumericPrefixIsStripped(g.prefix);
  }

  lemma OneMoreStands(sections: seq<Section>, doc: seq<Listed>)
    requires |sections| == |doc| > 0 && StandsFor(sections[|doc| - 1], doc[|doc| - 1])
    requires var n := |doc| - 1; forall i :: 0 <= i < n ==> StandsFor(sections[..n][i], doc[..n][i])
    ensures forall i :: 0 <= i < |doc| ==> StandsFor(sections[i], doc[i])
  {
    var n := |doc| - 1;
    forall i | 0 <= i < n
      ensures StandsFor(sections[i], doc[i])
    {
      assert StandsFor(sections[..n][i], doc[..n][i]);
    }
  }

  /** Reading a document gives it back: one section for each group, in order, with the group's own rules and its
      prefix without the hyphens; nothing is left over. */
  lemma {:induction false} DocumentIsRead(doc: seq<Listed>)
    requires forall i :: 0 <= i < |doc| ==> Acceptable(doc[i].prefix)
    ensures var b := BookOf(EventsOf(doc));
            && b.open == [] && |b.sections| == |doc|
            && forall i :: 0 <= i < |doc| ==> StandsFor(b.sections[i], doc[i])
  {
    if doc != [] {
      var n := |doc| - 1;
      DocumentIsRead(doc[..n]);
      GroupIsRead(EventsOf(doc[..n]), doc[n]);
      OneMoreStands(BookOf(EventsOf(doc)).sections, doc);
    }
  }
}
