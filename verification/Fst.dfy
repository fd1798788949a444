/** The library's own procedures, updating a vector of states in place (src/libfst/libfst.c). */
module Fst {
  import opened CStrings
  import opened Results
  import opened Vectors
  import opened Transducers
  import opened Tries

  const UNDEF_STATE: nat := 0xFFFF_FFFF_FFFF_FFFF
  const SIZEOF_STATE: nat := 16
  const SIZEOF_TRANS: nat := 16

  /** `len` is the index of the last state, so there is always room for len + 1. */
  ghost predicate Ready(fst: Vec<State>)
    reads fst
  {
    fst.WellFormed() && fst.base != null && fst.len < fst.size && fst.size >= 10
  }

  ghost function Model(fst: Vec<State>): (g: Graph)
    requires Ready(fst)
    reads fst, fst.base
    ensures |g| == fst.len + 1
  {
    fst.base[..fst.len + 1]
  }

  method FstInit(vp: Vec<State>)
    requires vp.WellFormed() && (vp.base != null ==> vp.size >= 10)
    modifies vp, vp.base
    ensures Ready(vp) && Model(vp) == INITIAL
    ensures vp.base == old(vp.base) || fresh(vp.base)
  {
    vp.MakeRoom(10);
    vp.len := 0;
    vp.base[0] := EMPTY_STATE;
  }

  method FstNew() returns (fst: Vec<State>)
    ensures fresh(fst) && Ready(fst) && fresh(fst.base) && Model(fst) == INITIAL && fst.esize == SIZEOF_STATE
  {
    fst := new Vec<State>(SIZEOF_STATE);
    FstInit(fst);
  }

  method RuleLookup(fst: Vec<State>, state: nat, chr: Label) returns (err: Rc, nxt: nat)
    requires Ready(fst)
    ensures err == (if state > fst.len then EDOM else if Step(Model(fst), state, chr).Some? then OK else ENOENT)
    ensures nxt == if err == OK then Step(Model(fst), state, chr).value else UNDEF_STATE
  {
    if state >= fst.len + 1 {
      return EDOM, UNDEF_STATE;
    }
    var ts := fst.base[state].transv;
    var i := 0;
    while i < |ts|
      invariant 0 <= i <= |ts|
      invariant Find(ts, chr) == Find(ts[i..], chr)
    {
      if ts[i].chr == chr {
        return OK, ts[i].next;
      }
      assert ts[i..][1..] == ts[i + 1..];
      i := i + 1;
    }
    return ENOENT, UNDEF_STATE;
  }

  method AddTransition(fst: Vec<State>, state: nat, chr: Label, next: nat) returns (err: Rc)
    requires Ready(fst)
    modifies fst.base
    ensures Ready(fst)
    ensures err == if state > fst.len then EDOM else if chr != NUL && next <= state then ELOOP else OK
    ensures Model(fst) == if err == OK then AddTrans(old(Model(fst)), state, chr, next) else old(Model(fst))
    ensures err == OK ==> Model(fst)[state].transv == old(Model(fst)[state].transv) + [Trans(chr, next)]
  {
    if state >= fst.len + 1 {
      return EDOM;
    }
    if chr != NUL {
      if next <= state {
        return ELOOP;
      }
    }
    fst.base[state] := State(fst.base[state].transv + [Trans(chr, next)]);
    return OK;
  }

  method AddState(fst: Vec<State>) returns (newState: nat)
    requires Ready(fst)
    modifies fst, fst.base
    ensures Ready(fst) && (fst.base == old(fst.base) || fresh(fst.base))
    ensures newState == old(fst.len) + 1
    ensures Model(fst) == old(Model(fst)) + [EMPTY_STATE]
  {
    newState := fst.len + 1;
    RoomMadeExactly(fst.size, newState);
    ghost var kept := fst.base[..fst.size];
    fst.MakeRoom(newState);
    fst.len := fst.len + 1;
    fst.base[newState] := EMPTY_STATE;
    assert fst.base[..newState] == kept[..newState] == old(Model(fst));
  }

  /** A new state and the edge that leads to it. */
  method AddBranch(fst: Vec<State>, state: nat, chr: Char) returns (err: Rc, newState: nat)
    requires Ready(fst) && state <= fst.len
    modifies fst, fst.base
    ensures Ready(fst) && (fst.base == old(fst.base) || fresh(fst.base))
    ensures err == OK && newState == old(fst.len) + 1
    ensures Model(fst) == Sprout(old(Model(fst)), state, chr)
  {
    newState := AddState(fst);
    err := AddTransition(fst, state, chr, newState);
  }

  method AddString(fst: Vec<State>, str: CString, val: nat) returns (err: Rc)
    requires Ready(fst)
    modifies fst, fst.base
    ensures Ready(fst) && (fst.base == old(fst.base) || fresh(fst.base))
    ensures Added(Model(fst), err) == Add(old(Model(fst)), str, val)
  {
    var k := 0;
    var state: nat := 0;
    while true
      invariant k <= |str| && Ready(fst) && (fst.base == old(fst.base) || fresh(fst.base))
      invariant AddFrom(Model(fst), state, str, k, val) == Add(old(Model(fst)), str, val)
      decreases |str| - k
    {
      var chr := At(str, k);
      var nxt;
      err, nxt := RuleLookup(fst, state, chr);
      if err != OK && err != ENOENT {
        break;
      }
      var newState := nxt;
      if chr == NUL {
        if err == ENOENT {
          err := AddTransition(fst, state, NUL, val);
        } else {
          err := EEXIST;
        }
        break;
      } else if err == ENOENT {
        err, newState := AddBranch(fst, state, str[k]);
      }
      state := newState;
      k := k + 1;
    }
  }

  /** Exact and prefix lookup. The ghost result counts the turns of the loop; every turn but the last
      follows one edge, so Tries.WalkIsBounded limits them to `len` + 1. */
  method FstLookup(fst: Vec<State>, str: CString, pfx: bool) returns (out: Outcome, ghost turns: nat)
    requires Ready(fst)
    ensures out == Lookup(Model(fst), str, pfx)
    ensures 0 < turns <= |str| + 1 && Walk(Model(fst), str[..turns - 1]).Some?
  {
    ghost var g := Model(fst);
    var k := 0;
    var state: nat := 0;
    while true
      invariant k <= |str|
      invariant LookupFrom(g, fst.len, state, str, k, pfx) == Lookup(g, str, pfx)
      invariant Walk(g, str[..k]) == Some(state)
      decreases |str| - k
    {
      turns := k + 1;
      var chr := At(str, k);
      var err, nxt := RuleLookup(fst, state, chr);
      if err != OK && err != ENOENT {
        return Failed(err), turns;
      }
      if chr == NUL {
        if err == ENOENT {
          return Failed(ENOENT), turns;
        } else {
          return Found(nxt), turns;
        }
      } else if pfx && fst.base[state].transv == [] {
        // is_final_state reads transv[0] through a null pointer
        return Fault, turns;
      } else if pfx && IsFinal(fst.base[state]) {
        return Found(fst.base[state].transv[0].next), turns;
      } else if err == ENOENT {
        return Failed(ENOENT), turns;
      } else if nxt == 0 {
        return Found(nxt), turns;
      }
      assert str[..k + 1][..k] == str[..k];
      state := nxt;
      k := k + 1;
    }
  }

  /** Size in bytes of states 0 .. len-1 and their transitions; the header and state len are not counted. */
  method FstMeasure(fst: Vec<State>) returns (bytes: nat)
    requires Ready(fst)
    ensures bytes == SIZEOF_STATE * fst.len + SIZEOF_TRANS * TransitionsBefore(Model(fst), fst.len)
  {
    bytes := 0;
    ghost var g := Model(fst);
    for state := 0 to fst.len
      invariant bytes == SIZEOF_STATE * state + SIZEOF_TRANS * TransitionsBefore(g, state)
    {
      bytes := bytes + SIZEOF_STATE;
      bytes := bytes + |fst.base[state].transv| * SIZEOF_TRANS;
    }
  }

  /** Any sequence of additions to a new transducer. */
  method BuildFst(entries: seq<Entry>) returns (fst: Vec<State>)
    ensures Ready(fst) && Model(fst) == Build(entries)
  {
    fst := FstNew();
    for i := 0 to |entries|
      invariant fresh(fst) && Ready(fst) && fresh(fst.base) && Model(fst) == Build(entries[..i])
    {
      assert entries[..i + 1][..i] == entries[..i];
      var err := AddString(fst, entries[i].key, entries[i].val);
    }
    assert entries[..|entries|] == entries;
  }
}
