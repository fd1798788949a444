/** The transducer as a value: what the loops of src/libfst/libfst.c compute, state array by state array. */
module Transducers {
  import opened CStrings
  import opened Results

  /** `next` is the union next_t: one word, read as a state or, under NUL, as the stored value. */
  datatype Trans = Trans(chr: Label, next: nat)

  datatype State = State(transv: seq<Trans>)

  /** States 0 .. len, so a graph of length n has `fst->len` n - 1. */
  type Graph = seq<State>

  const EMPTY_STATE := State([])
  const INITIAL: Graph := [EMPTY_STATE]

  /** First transition labelled chr. */
  function Find(ts: seq<Trans>, chr: Label): Option<nat> {
    if ts == [] then None
    else if ts[0].chr == chr then Some(ts[0].next)
    else Find(ts[1..], chr)
  }

  function Step(g: Graph, state: nat, chr: Label): Option<nat>
    requires state < |g|
  {
    Find(g[state].transv, chr)
  }

  /** Inspects transition 0 of a state that must have one; the source masks the label with 0xFF. */
  predicate IsFinal(st: State)
    requires st.transv != []
  {
    |st.transv| <= 1 && st.transv[0].chr % 256 == 0
  }

  function AddTrans(g: Graph, state: nat, chr: Label, next: nat): Graph
    requires state < |g|
  {
    g[state := State(g[state].transv + [Trans(chr, next)])]
  }

  /** A new empty state together with the edge that leads to it. */
  function Sprout(g: Graph, state: nat, chr: Char): Graph
    requires state < |g|
  {
    AddTrans(g + [EMPTY_STATE], state, chr, |g|)
  }

  datatype Added = Added(g: Graph, rc: Rc)

  function AddFrom(g: Graph, state: nat, s: CString, k: nat, val: nat): (r: Added)
    requires k <= |s|
    ensures |g| <= |r.g|
    decreases |s| - k
  {
    if state >= |g| then Added(g, EDOM)
    else
      match Step(g, state, At(s, k))
      case None =>
        if k == |s| then Added(AddTrans(g, state, NUL, val), OK)
        else AddFrom(Sprout(g, state, s[k]), |g|, s, k + 1, val)
      case Some(next) =>
        if k == |s| then Added(g, EEXIST)
        else AddFrom(g, next, s, k + 1, val)
  }

  function Add(g: Graph, s: CString, val: nat): Added {
    AddFrom(g, 0, s, 0, val)
  }

  /** Lookup in a transducer whose `len` field is len and whose first |g| states are in memory. */
  function LookupFrom(g: Graph, len: nat, state: nat, s: CString, k: nat, pfx: bool): Outcome
    requires k <= |s|
    decreases |s| - k
  {
    if state > len then Failed(EDOM)
    else if state >= |g| then Fault
    else
      var found := Step(g, state, At(s, k));
      if k == |s| then
        if found.None? then Failed(ENOENT) else Found(found.value)
      else if pfx && g[state].transv == [] then Fault
      else if pfx && IsFinal(g[state]) then Found(g[state].transv[0].next)
      else if found.None? then Failed(ENOENT)
      else if found.value == 0 then Found(0)
      else LookupFrom(g, len, found.value, s, k + 1, pfx)
  }

  function Lookup(g: Graph, s: CString, pfx: bool): Outcome
    requires |g| > 0
  {
    LookupFrom(g, |g| - 1, 0, s, 0, pfx)
  }

  /** Transitions of states 0 .. i-1. */
  function TransitionsBefore(g: Graph, i: nat): nat
    requires i <= |g|
  {
    if i == 0 then 0 else TransitionsBefore(g, i - 1) + |g[i - 1].transv|
  }

  function Transitions(g: Graph): nat {
    TransitionsBefore(g, |g|)
  }

  lemma {:induction false} TransitionsOfPrefix(g: Graph, h: Graph, i: nat)
    requires i <= |g| && g <= h
    ensures TransitionsBefore(h, i) == TransitionsBefore(g, i)
  {
    if i > 0 {
      TransitionsOfPrefix(g, h, i - 1);
    }
  }

  lemma {:induction false} TransitionsAfterAdd(g: Graph, i: nat, c: Label, n: nat, k: nat)
    requires i < |g| && k <= |g|
    ensures TransitionsBefore(AddTrans(g, i, c, n), k) == TransitionsBefore(g, k) + if i < k then 1 else 0
  {
    if k > 0 {
      TransitionsAfterAdd(g, i, c, n, k - 1);
    }
  }

  /** A run of additions from a new transducer; codes are dropped, as parseGroup drops them. */
  datatype Entry = Entry(key: CString, val: nat)

  function Build(entries: seq<Entry>): (g: Graph)
    ensures |g| > 0
  {
    if entries == [] then INITIAL
    else
      var n := |entries| - 1;
      Add(Build(entries[..n]), entries[n].key, entries[n].val).g
  }

  /** The finite map a run stands for: the first value given to a key wins. */
  function Dict(entries: seq<Entry>): map<CString, nat> {
    if entries == [] then map[]
    else
      var n := |entries| - 1;
      var m := Dict(entries[..n]);
      if entries[n].key in m then m else m[entries[n].key := entries[n].val]
  }
}
