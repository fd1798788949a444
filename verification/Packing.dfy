/** Flattening a transducer into one block of memory, and lookups in the block (src/libfst/libfst.c).
    The block is an array of 8-byte words, the layout of an LP64 machine: the vec_t header takes 4 words
    (base, len, size, esize), a state header 2 (transv, ntrans) and a transition 2 (t_chr, t_next).
    Pointers into the block are word offsets. */
module Packing {
  import opened CStrings
  import opened Results
  import opened Vectors
  import opened Transducers
  import opened Tries
  import opened Meaning
  import opened Fst

  const HEADER_WORDS: nat := 4
  const WORD_BYTES: nat := 8

  /** Offset at which the transitions of state i begin; at i == |g| the end of the block. */
  function TransStart(g: Graph, i: nat): nat
    requires i <= |g|
  {
    HEADER_WORDS + 2 * |g| + 2 * TransitionsBefore(g, i)
  }

  /** The transitions ts lie at offset at. */
  ghost predicate BlockAt(mem: array<int>, at: nat, ts: seq<Trans>)
    reads mem
  {
    && at + 2 * |ts| <= mem.Length
    && forall j :: 0 <= j < |ts| ==> mem[at + 2 * j] == ts[j].chr && mem[at + 2 * j + 1] == ts[j].next
  }

  /** The block holds the states g of a transducer whose `len` field is |g|. */
  ghost predicate Encodes(mem: array<int>, g: Graph)
    reads mem
  {
    && TransStart(g, |g|) <= mem.Length && HEADER_WORDS + 2 * |g| <= mem.Length
    && mem[0] == HEADER_WORDS && mem[1] == |g| && mem[2] == |g| && mem[3] == SIZEOF_STATE
    && forall i :: 0 <= i < |g| ==> Placed(mem, g, i)
  }

  ghost predicate Placed(mem: array<int>, g: Graph, i: nat)
    requires i < |g| && HEADER_WORDS + 2 * |g| <= mem.Length
    reads mem
  {
    && mem[HEADER_WORDS + 2 * i] == TransStart(g, i)
    && mem[HEADER_WORDS + 2 * i + 1] == |g[i].transv|
    && BlockAt(mem, TransStart(g, i), g[i].transv)
  }

  /** Transition blocks follow one another without gap or overlap, in the order of the states. */
  lemma {:induction false} BlocksInOrder(g: Graph, i: nat, j: nat)
    requires i < j <= |g|
    ensures TransStart(g, i) + 2 * |g[i].transv| == TransStart(g, i + 1) <= TransStart(g, j)
    decreases j
  {
    if i + 1 < j {
      BlocksInOrder(g, i, j - 1);
    }
  }

  method CopyTransitions(dst: array<int>, at: nat, ts: seq<Trans>)
    requires at + 2 * |ts| <= dst.Length
    modifies dst
    ensures BlockAt(dst, at, ts)
    ensures forall x :: 0 <= x < dst.Length && !(at <= x < at + 2 * |ts|) ==> dst[x] == old(dst[x])
  {
    for j := 0 to |ts|
      invariant forall i :: 0 <= i < j ==> dst[at + 2 * i] == ts[i].chr && dst[at + 2 * i + 1] == ts[i].next
      invariant forall x :: 0 <= x < dst.Length && !(at <= x < at + 2 * j) ==> dst[x] == old(dst[x])
    {
      dst[at + 2 * j] := ts[j].chr;
      dst[at + 2 * j + 1] := ts[j].next;
    }
  }

  /** The vec_t header and the state headers. The transv words still hold addresses of the source. */
  method PackHeaders(dst: array<int>, src: Vec<State>)
    requires Ready(src) && dst.Length >= HEADER_WORDS + 2 * src.len
    modifies dst
    ensures dst[0] == HEADER_WORDS && dst[1] == src.len && dst[2] == src.len && dst[3] == src.esize
    ensures forall j :: 0 <= j < src.len ==> dst[HEADER_WORDS + 2 * j + 1] == |src.base[j].transv|
    ensures forall x :: HEADER_WORDS + 2 * src.len <= x < dst.Length ==> dst[x] == old(dst[x])
  {
    dst[0], dst[1], dst[2], dst[3] := HEADER_WORDS, src.len, src.len, src.esize;
    for i := 0 to src.len
      invariant dst[0] == HEADER_WORDS && dst[1] == src.len && dst[2] == src.len && dst[3] == src.esize
      invariant forall j :: 0 <= j < i ==> dst[HEADER_WORDS + 2 * j + 1] == |src.base[j].transv|
      invariant forall x :: HEADER_WORDS + 2 * src.len <= x < dst.Length ==> dst[x] == old(dst[x])
    {
      dst[HEADER_WORDS + 2 * i + 1] := |src.base[i].transv|;
    }
  }

  /** Lays down the transitions of one state behind those of the states before it. */
  method PackState(dst: array<int>, ghost g: Graph, state: nat, dstPtr: nat, ts: seq<Trans>)
    requires state < |g| && ts == g[state].transv && dstPtr == TransStart(g, state)
    requires TransStart(g, |g|) <= dst.Length && HEADER_WORDS + 2 * |g| <= dst.Length
    requires dst[HEADER_WORDS + 2 * state + 1] == |ts|
    requires forall j :: 0 <= j < state ==> Placed(dst, g, j)
    modifies dst
    ensures forall j :: 0 <= j <= state ==> Placed(dst, g, j)
    ensures dst[..HEADER_WORDS + 2 * state] == old(dst[..HEADER_WORDS + 2 * state])
    ensures forall x :: HEADER_WORDS + 2 * state < x < dst.Length && !(dstPtr <= x < TransStart(g, state + 1)) ==>
                          dst[x] == old(dst[x])
  {
    BlocksInOrder(g, state, |g|);
    dst[HEADER_WORDS + 2 * state] := dstPtr;
    CopyTransitions(dst, dstPtr, ts);
    forall j | 0 <= j < state
      ensures Placed(dst, g, j)
    {
      assert old(Placed(dst, g, j));
      BlocksInOrder(g, j, state);
    }
  }

  /** Copies the header, states 0 .. len-1 and their transitions, and nothing of state len. The block must have
      room for the header besides what fst_measure counts; the program's own block has not.
      The ghost result is the final position of the write cursor. */
  method FstPack(dst: array<int>, src: Vec<State>) returns (ghost cursor: nat)
    requires Ready(src) && src.esize == SIZEOF_STATE
    requires dst.Length >= TransStart(Model(src)[..src.len], src.len)
    modifies dst
    ensures Encodes(dst, Model(src)[..src.len])
    ensures cursor == TransStart(Model(src)[..src.len], src.len)
    ensures forall x :: cursor <= x < dst.Length ==> dst[x] == old(dst[x])
  {
    ghost var g := Model(src)[..src.len];
    PackHeaders(dst, src);
    assert forall j :: 0 <= j < |g| ==> dst[HEADER_WORDS + 2 * j + 1] == |g[j].transv|;
    var dstPtr := HEADER_WORDS + 2 * src.len;
    for state := 0 to src.len
      invariant dstPtr == TransStart(g, state)
      invariant dst[0] == HEADER_WORDS && dst[1] == |g| && dst[2] == |g| && dst[3] == SIZEOF_STATE
      invariant forall j :: 0 <= j < state ==> Placed(dst, g, j)
      invariant forall j :: state <= j < |g| ==> dst[HEADER_WORDS + 2 * j + 1] == |g[j].transv|
      invariant forall x :: dstPtr <= x < dst.Length ==> dst[x] == old(dst[x])
    {
      var ts := src.base[state].transv;
      BlocksInOrder(g, state, |g|);
      ghost var before := dst[..HEADER_WORDS + 2 * state];
      PackState(dst, g, state, dstPtr, ts);
      assert forall x :: 0 <= x < HEADER_WORDS ==> dst[x] == before[x];
      dstPtr := dstPtr + 2 * |ts|;
    }
    cursor := dstPtr;
  }

  lemma InBytes(n: nat, trans: nat)
    ensures WORD_BYTES * (4 + 2 * n + 2 * trans) ==
            WORD_BYTES * HEADER_WORDS + (SIZEOF_STATE * n + SIZEOF_TRANS * trans)
  {
  }

  /** The block that fst_copy_and_pack asks for has fst_measure bytes; packing fills the vec_t header besides. */
  lemma MeasureLeavesOutHeader(g: Graph)
    requires |g| > 0
    ensures var (n, bytes) := (|g| - 1, SIZEOF_STATE * (|g| - 1) + SIZEOF_TRANS * TransitionsBefore(g, |g| - 1));
            WORD_BYTES * TransStart(g[..n], n) == WORD_BYTES * HEADER_WORDS + bytes
  {
    var n := |g| - 1;
    var trans := TransitionsBefore(g, n);
    assert TransStart(g[..n], n) == 4 + 2 * n + 2 * trans by { TransitionsOfPrefix(g[..n], g, n); }
    InBytes(n, trans);
  }

  // ----- lookups in the block

  /** fst_rule_lookup for a state whose header lies in the block. */
  method PackedRuleLookup(mem: array<int>, ghost g: Graph, state: nat, chr: Label) returns (err: Rc, nxt: nat)
    requires Encodes(mem, g) && state < |g|
    ensures err == if Step(g, state, chr).Some? then OK else ENOENT
    ensures nxt == if err == OK then Step(g, state, chr).value else UNDEF_STATE
  {
    ghost var ts := g[state].transv;
    assert Placed(mem, g, state);
    var sv := mem[0] + 2 * state;
    var transv, ntrans := mem[sv], mem[sv + 1];
    var i := 0;
    while i < ntrans
      invariant 0 <= i <= ntrans == |ts|
      invariant Find(ts, chr) == Find(ts[i..], chr)
    {
      if mem[transv + 2 * i] == chr {
        return OK, mem[transv + 2 * i + 1];
      }
      assert ts[i..][1..] == ts[i + 1..];
      i := i + 1;
    }
    return ENOENT, UNDEF_STATE;
  }

  /** The same loop as Fst.FstLookup, reading the words of the block. State `len` passes the bounds test
      of fst_rule_lookup, but its header was not copied: reading it is a Fault. */
  method PackedLookup(mem: array<int>, ghost g: Graph, str: CString, pfx: bool) returns (out: Outcome)
    requires Encodes(mem, g)
    ensures out == LookupFrom(g, |g|, 0, str, 0, pfx)
  {
    var k := 0;
    var state: nat := 0;
    while true
      invariant k <= |str|
      invariant LookupFrom(g, |g|, state, str, k, pfx) == LookupFrom(g, |g|, 0, str, 0, pfx)
      decreases |str| - k
    {
      if state >= mem[1] + 1 {
        return Failed(EDOM);
      } else if state == mem[1] {
        return Fault;
      }
      assert Placed(mem, g, state);
      var chr := At(str, k);
      var err, nxt := PackedRuleLookup(mem, g, state, chr);
      var sv := mem[0] + 2 * state;
      var transv, ntrans := mem[sv], mem[sv + 1];
      if chr == NUL {
        if err == ENOENT {
          return Failed(ENOENT);
        } else {
          return Found(nxt);
        }
      } else if pfx && ntrans == 0 {
        return Fault;
      } else if pfx && ntrans <= 1 && mem[transv] % 256 == 0 {
        return Found(mem[transv + 1]);
      } else if err == ENOENT {
        return Failed(ENOENT);
      } else if nxt == 0 {
        return Found(nxt);
      }
      state := nxt;
      k := k + 1;
    }
  }

  // ----- what packing preserves

  /** Lookup in the packed form of g. */
  function PackedResult(g: Graph, s: CString, pfx: bool): Outcome
    requires |g| > 0
  {
    LookupFrom(g[..|g| - 1], |g| - 1, 0, s, 0, pfx)
  }

  /** The string of the last addition that was not a prefix of an earlier key: the path to state `len`. */
  ghost function LastGrowth(entries: seq<Entry>): CString {
    if entries == [] then []
    else
      var n := |entries| - 1;
      if BeginsKey(Dict(entries[..n]), entries[n].key) then LastGrowth(entries[..n]) else entries[n].key
  }

  /** An addition gains states exactly when no walk spelled the string before. */
  lemma GrowsIffNew(g: Graph, s: CString, val: nat)
    requires Trie(g) && Trie(Add(g, s, val).g)
    ensures |g| < |Add(g, s, val).g| <==> Walk(g, s).None?
  {
    var h := Add(g, s, val).g;
    AddFromWalks(g, 0, s, 0, val, s);
    WalkIsBounded(h, s);
    if |g| < |h| {
      LastStateEndsString(g, s, val);
      if Walk(g, s).Some? {
        WalkIsBounded(g, s);
      }
    } else {
      var t := PathTo(g, Walk(h, s).value);
      AddFromWalks(g, 0, s, 0, val, t);
      WalkIsInjective(h, s, t);
    }
  }

  lemma LastStateAfterAdd(entries: seq<Entry>, last: CString)
    requires entries != []
    requires var g := Build(entries[..|entries| - 1]); Walk(g, last) == Some(|g| - 1)
    ensures var (g, s) := (Build(entries[..|entries| - 1]), entries[|entries| - 1].key);
            Walk(Build(entries), if Walk(g, s).Some? then last else s) == Some(|Build(entries)| - 1)
  {
    var n := |entries| - 1;
    var g, s, val := Build(entries[..n]), entries[n].key, entries[n].val;
    assert Trie(g) by { BuildRefinesDict(entries[..n]); }
    assert Trie(Add(g, s, val).g) by { BuildRefinesDict(entries); }
    GrowsIffNew(g, s, val);
    if Walk(g, s).Some? {
      AddFromWalks(g, 0, s, 0, val, last);
    } else {
      LastStateEndsString(g, s, val);
    }
  }

  lemma EmptyBeginsSomeKey(entries: seq<Entry>)
    requires entries != []
    ensures BeginsKey(Dict(entries), [])
  {
    var k := entries[|entries| - 1].key;
    assert k in Dict(entries) && [] <= k;
  }

  lemma {:induction false} LastGrowthLeadsToLastState(entries: seq<Entry>)
    ensures Walk(Build(entries), LastGrowth(entries)) == Some(|Build(entries)| - 1)
  {
    if entries != [] {
      var n := |entries| - 1;
      var s := entries[n].key;
      LastGrowthLeadsToLastState(entries[..n]);
      WalksArePrefixes(entries[..n], s);
      LastStateAfterAdd(entries, LastGrowth(entries[..n]));
      if n > 0 {
        EmptyBeginsSomeKey(entries[..n]);
      }
    }
  }

  /** Along a walk, the block answers as the source does unless the walk runs into state `len`. */
  lemma {:induction false} PackedFrom(g: Graph, last: CString, state: nat, s: CString, k: nat, pfx: bool)
    requires Trie(g) && NoDeadEnds(g, 0) && Walk(g, last) == Some(|g| - 1)
    requires k <= |s| && Walk(g, s[..k]) == Some(state)
    ensures LookupFrom(g[..|g| - 1], |g| - 1, state, s, k, pfx) ==
            if last <= s then Fault else LookupFrom(g, |g| - 1, state, s, k, pfx)
    decreases |s| - k
  {
    WalkIsBounded(g, s[..k]);
    if state == |g| - 1 {
      WalkIsInjective(g, s[..k], last);
    } else {
      if last <= s {
        StillBelowLast(g, last, state, s, k);
      }
      if k < |s| && Step(g, state, s[k]).Some? {
        assert s[..k + 1] == s[..k] + [s[k]];
        WalkSnoc(g, s[..k], s[k]);
        PackedFrom(g, last, Step(g, state, s[k]).value, s, k + 1, pfx);
      }
    }
  }

  /** On the way to state `len` there is an edge to follow and no final state to stop at. */
  lemma StillBelowLast(g: Graph, last: CString, state: nat, s: CString, k: nat)
    requires Trie(g) && Walk(g, last) == Some(|g| - 1) && last <= s
    requires k <= |s| && Walk(g, s[..k]) == Some(state) && state < |g| - 1
    ensures k < |last| && Step(g, state, s[k]).Some?
    ensures g[state].transv != [] && !IsFinal(g[state])
  {
    if |last| < k {
      NothingLeavesLastState(g, last, s[..k]);
    }
    assert last == s[..|last|];
    assert k < |last|;
    WalkOfPrefix(g, last, k + 1);
    assert last[..k + 1] == s[..k] + [s[k]];
    WalkSnoc(g, s[..k], s[k]);
    EdgeMeansNotFinal(g[state], s[k]);
  }

  lemma EdgeMeansNotFinal(st: State, c: Char)
    requires Find(st.transv, c).Some?
    ensures st.transv != [] && !IsFinal(st)
  {
    FindHits(st.transv, c);
  }

  /** Packing preserves every exact and every prefix lookup, except that of a string which begins with
      the last key to have gained states: there the block has no answer, because state `len` is not in it. */
  lemma PackedLookupAgrees(entries: seq<Entry>, s: CString, pfx: bool)
    ensures PackedResult(Build(entries), s, pfx) ==
            if LastGrowth(entries) <= s then Fault else Lookup(Build(entries), s, pfx)
  {
    BuildRefinesDict(entries);
    LastGrowthLeadsToLastState(entries);
    PackedFrom(Build(entries), LastGrowth(entries), 0, s, 0, pfx);
  }

  /** The last key to have gained states is itself lost, if anything was added at all. */
  lemma LastGrowthIsKey(entries: seq<Entry>)
    requires entries != []
    ensures LastGrowth(entries) in Dict(entries)
    ensures PackedResult(Build(entries), LastGrowth(entries), false) == Fault
    ensures Lookup(Build(entries), LastGrowth(entries), false) == Found(Dict(entries)[LastGrowth(entries)])
  {
    LastGrowthAdded(entries);
    PackedLookupAgrees(entries, LastGrowth(entries), false);
    ExactLookup(entries, LastGrowth(entries));
  }

  lemma {:induction false} LastGrowthAdded(entries: seq<Entry>)
    requires entries != []
    ensures LastGrowth(entries) in Dict(entries)
  {
    var n := |entries| - 1;
    if BeginsKey(Dict(entries[..n]), entries[n].key) {
      LastGrowthAdded(entries[..n]);
    }
  }
}
