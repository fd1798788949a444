/** The invariant of the transducer: it is a trie, and every walk from state 0 spells one string. */
module Tries {
  import opened CStrings
  import opened Results
  import opened Transducers

  ghost predicate DistinctLabels(ts: seq<Trans>) {
    forall i, j :: 0 <= i < j < |ts| ==> ts[i].chr != ts[j].chr
  }

  /** Every edge leads to a later state of the graph. */
  ghost predicate EdgesGoUp(g: Graph) {
    forall i: nat, c: Char :: i < |g| && Step(g, i, c).Some? ==> i < Step(g, i, c).value < |g|
  }

  /** No state has two incoming edges. */
  ghost predicate OneWayIn(g: Graph) {
    forall i: nat, c: Char, j: nat, d: Char ::
      i < |g| && j < |g| && Step(g, i, c).Some? && Step(g, i, c) == Step(g, j, d) ==> i == j && c == d
  }

  /** Every state but the root has an incoming edge. */
  ghost predicate AllEntered(g: Graph) {
    forall n: nat :: 0 < n < |g| ==> Entered(g, n)
  }

  ghost predicate Entered(g: Graph, n: nat) {
    exists i: nat, c: Char :: i < |g| && Step(g, i, c) == Some(n)
  }

  ghost predicate Trie(g: Graph) {
    && |g| > 0
    && EdgesGoUp(g)
    && OneWayIn(g)
    && AllEntered(g)
    && forall i :: 0 <= i < |g| ==> DistinctLabels(g[i].transv)
  }

  /** Every state but the root and the state `open` has a transition. */
  ghost predicate NoDeadEnds(g: Graph, open: nat) {
    forall n :: 0 < n < |g| && n != open ==> g[n].transv != []
  }

  /** The state that s leads to from the root. */
  ghost function Walk(g: Graph, s: CString): Option<nat> {
    if s == [] then Some(0)
    else
      match Walk(g, s[..|s| - 1])
      case Some(n) => if n < |g| then Step(g, n, s[|s| - 1]) else None
      case None => None
  }

  /** The value stored for exactly s. */
  ghost function Stored(g: Graph, s: CString): Option<nat> {
    match Walk(g, s)
    case Some(n) => if n < |g| then Step(g, n, NUL) else None
    case None => None
  }

  // ----- lists of transitions

  lemma {:induction false} FindInExtended(ts: seq<Trans>, t: Trans, c: Label)
    ensures Find(ts + [t], c) ==
            if Find(ts, c).Some? then Find(ts, c) else if t.chr == c then Some(t.next) else None
  {
    if ts != [] {
      assert (ts + [t])[1..] == ts[1..] + [t];
      FindInExtended(ts[1..], t, c);
    }
  }

  lemma {:induction false} FindHits(ts: seq<Trans>, c: Label)
    ensures Find(ts, c).Some? <==> exists i :: 0 <= i < |ts| && ts[i].chr == c
    ensures DistinctLabels(ts) ==> forall i :: 0 <= i < |ts| && ts[i].chr == c ==> Find(ts, c) == Some(ts[i].next)
  {
    if ts != [] {
      FindHits(ts[1..], c);
      assert forall i :: 0 < i < |ts| ==> ts[i] == ts[1..][i - 1];
      if Find(ts[1..], c).Some? {
        var i :| 0 <= i < |ts[1..]| && ts[1..][i].chr == c;
        assert ts[i + 1].chr == c;
      }
      assert DistinctLabels(ts) ==> DistinctLabels(ts[1..]);
    }
  }

  // ----- walks

  /** A walk of n steps ends at state n or later, so no walk is longer than `len`. */
  lemma {:induction false} WalkIsBounded(g: Graph, s: CString)
    requires Trie(g) && Walk(g, s).Some?
    ensures |s| <= Walk(g, s).value < |g|
  {
    if s != [] {
      WalkIsBounded(g, s[..|s| - 1]);
    }
  }

  /** Two strings never lead to the same state. */
  lemma {:induction false} WalkIsInjective(g: Graph, s: CString, t: CString)
    requires Trie(g) && Walk(g, s).Some? && Walk(g, s) == Walk(g, t)
    ensures s == t
    decreases |s|
  {
    WalkIsBounded(g, s);
    WalkIsBounded(g, t);
    if s != [] && t != [] {
      var s', t' := s[..|s| - 1], t[..|t| - 1];
      WalkIsBounded(g, s');
      WalkIsBounded(g, t');
      assert Step(g, Walk(g, s').value, s[|s| - 1]) == Step(g, Walk(g, t').value, t[|t| - 1]);
      WalkIsInjective(g, s', t');
      assert s == s' + [s[|s| - 1]] && t == t' + [t[|t| - 1]];
    }
  }

  /** Every state is reached by some string. */
  lemma {:induction false} PathTo(g: Graph, n: nat) returns (s: CString)
    requires Trie(g) && n < |g|
    ensures Walk(g, s) == Some(n)
  {
    if n == 0 {
      s := [];
    } else {
      assert Entered(g, n);
      var i: nat, c: Char :| i < |g| && Step(g, i, c) == Some(n);
      var s' := PathTo(g, i);
      s := s' + [c];
      assert s[..|s| - 1] == s';
    }
  }

  lemma WalkSnoc(g: Graph, s: CString, c: Char)
    ensures Walk(g, s + [c]) ==
            match Walk(g, s)
            case Some(n) => if n < |g| then Step(g, n, c) else None
            case None => None
  {
    assert (s + [c])[..|s|] == s;
  }

  lemma {:induction false} WalkOfPrefix(g: Graph, s: CString, k: nat)
    requires k <= |s| && Walk(g, s).Some?
    ensures Walk(g, s[..k]).Some?
    decreases |s|
  {
    if k < |s| {
      assert s[..|s| - 1][..k] == s[..k];
      WalkOfPrefix(g, s[..|s| - 1], k);
    } else {
      assert s[..k] == s;
    }
  }

  // ----- growing the trie by one edge

  lemma StepAfterSprout(g: Graph, p: nat, c: Char, i: nat, d: Label)
    requires p < |g| && i <= |g|
    ensures |Sprout(g, p, c)| == |g| + 1
    ensures Step(Sprout(g, p, c), i, d) ==
            if i == |g| then None
            else if Step(g, i, d).Some? then Step(g, i, d)
            else if i == p && d == c then Some(|g|) else None
  {
    FindInExtended(g[p].transv, Trans(c, |g|), d);
  }

  lemma LabelsStayDistinct(ts: seq<Trans>, t: Trans)
    requires DistinctLabels(ts) && Find(ts, t.chr).None?
    ensures DistinctLabels(ts + [t])
  {
    FindHits(ts, t.chr);
  }

  lemma SproutKeepsTrie(g: Graph, p: nat, c: Char)
    requires Trie(g) && p < |g| && Step(g, p, c).None?
    ensures Trie(Sprout(g, p, c))
  {
    var h := Sprout(g, p, c);
    forall i: nat, d: Char | i < |h|
      ensures Step(h, i, d) == if i == |g| then None else if i == p && d == c then Some(|g|) else Step(g, i, d)
    {
      StepAfterSprout(g, p, c, i, d);
    }
    forall n: nat | 0 < n < |h|
      ensures Entered(h, n)
    {
      if n == |g| {
        assert Step(h, p, c) == Some(n);
      } else {
        assert Entered(g, n);
        var i: nat, d: Char :| i < |g| && Step(g, i, d) == Some(n);
        assert Step(h, i, d) == Some(n);
      }
    }
    LabelsStayDistinct(g[p].transv, Trans(c, |g|));
  }

  lemma SnocIsInjective(s: CString, c: Char, t: CString, d: Char)
    ensures s + [c] == t + [d] <==> s == t && c == d
  {
    assert s == (s + [c])[..|s|] && t == (t + [d])[..|t|];
    assert (s + [c])[|s|] == c && (t + [d])[|t|] == d;
  }

  /** One more character behind a walk. */
  lemma StepOfWalkAfterSprout(g: Graph, s: CString, p: nat, c: Char, t: CString, d: Char)
    requires Trie(g) && Walk(g, s) == Some(p) && p < |g| && Step(g, p, c).None?
    requires t != s + [c] && Walk(Sprout(g, p, c), t) == Walk(g, t)
    ensures Walk(Sprout(g, p, c), t + [d]) == if t + [d] == s + [c] then Some(|g|) else Walk(g, t + [d])
  {
    WalkSnoc(Sprout(g, p, c), t, d);
    WalkSnoc(g, t, d);
    SnocIsInjective(t, d, s, c);
    if Walk(g, t).Some? {
      WalkIsBounded(g, t);
      StepAfterSprout(g, p, c, Walk(g, t).value, d);
      if Walk(g, t).value == p {
        WalkIsInjective(g, s, t);
      }
    }
  }

  /** A new edge adds exactly one walk. */
  lemma {:induction false} WalkAfterSprout(g: Graph, s: CString, p: nat, c: Char, t: CString)
    requires Trie(g) && Walk(g, s) == Some(p) && p < |g| && Step(g, p, c).None?
    ensures Walk(Sprout(g, p, c), t) == if t == s + [c] then Some(|g|) else Walk(g, t)
    decreases |t|
  {
    if t != [] {
      var t', d := t[..|t| - 1], t[|t| - 1];
      assert t == t' + [d];
      WalkAfterSprout(g, s, p, c, t');
      if t' == s + [c] {
        NothingBehindSprout(g, s, p, c, d);
      } else {
        StepOfWalkAfterSprout(g, s, p, c, t', d);
      }
    }
  }

  lemma NothingBehindSprout(g: Graph, s: CString, p: nat, c: Char, d: Char)
    requires Walk(g, s) == Some(p) && p < |g| && Step(g, p, c).None? && Walk(Sprout(g, p, c), s + [c]) == Some(|g|)
    ensures Walk(Sprout(g, p, c), s + [c] + [d]).None? && Walk(g, s + [c] + [d]).None?
    ensures s + [c] + [d] != s + [c]
  {
    WalkSnoc(g, s, c);
    WalkSnoc(g, s + [c], d);
    WalkSnoc(Sprout(g, p, c), s + [c], d);
    StepAfterSprout(g, p, c, |g|, d);
    assert |s + [c] + [d]| > |s + [c]|;
  }

  /** The new edge stores nothing yet. */
  lemma StoredAfterSprout(g: Graph, s: CString, p: nat, c: Char, t: CString)
    requires Trie(g) && Walk(g, s) == Some(p) && p < |g| && Step(g, p, c).None?
    ensures Stored(Sprout(g, p, c), t) == Stored(g, t)
  {
    WalkAfterSprout(g, s, p, c, t);
    WalkSnoc(g, s, c);
    if t == s + [c] {
      StepAfterSprout(g, p, c, |g|, NUL);
    } else if Walk(g, t).Some? {
      WalkIsBounded(g, t);
      StepAfterSprout(g, p, c, Walk(g, t).value, NUL);
    }
  }

  // ----- storing a value under NUL

  lemma StepAfterStore(g: Graph, p: nat, val: nat, i: nat, d: Label)
    requires p < |g| && i < |g|
    ensures Step(AddTrans(g, p, NUL, val), i, d) ==
            if Step(g, i, d).Some? then Step(g, i, d)
            else if i == p && d == NUL then Some(val) else None
  {
    FindInExtended(g[p].transv, Trans(NUL, val), d);
  }

  lemma StoreKeepsTrie(g: Graph, p: nat, val: nat)
    requires Trie(g) && p < |g| && Step(g, p, NUL).None?
    ensures Trie(AddTrans(g, p, NUL, val))
  {
    var h := AddTrans(g, p, NUL, val);
    forall i: nat, d: Char | i < |h|
      ensures Step(h, i, d) == Step(g, i, d)
    {
      StepAfterStore(g, p, val, i, d);
    }
    forall n: nat | 0 < n < |h|
      ensures Entered(h, n)
    {
      assert Entered(g, n);
      var i: nat, d: Char :| i < |g| && Step(g, i, d) == Some(n);
      assert Step(h, i, d) == Some(n);
    }
    LabelsStayDistinct(g[p].transv, Trans(NUL, val));
  }

  /** Storing a value under s changes what is stored for s and for nothing else. */
  lemma {:induction false} WalkAfterStore(g: Graph, s: CString, p: nat, val: nat, t: CString)
    requires Trie(g) && Walk(g, s) == Some(p) && p < |g| && Step(g, p, NUL).None?
    ensures Walk(AddTrans(g, p, NUL, val), t) == Walk(g, t)
    ensures Stored(AddTrans(g, p, NUL, val), t) == if t == s then Some(val) else Stored(g, t)
    decreases |t|
  {
    if t != [] {
      WalkAfterStore(g, s, p, val, t[..|t| - 1]);
      if Walk(g, t[..|t| - 1]).Some? {
        WalkIsBounded(g, t[..|t| - 1]);
        StepAfterStore(g, p, val, Walk(g, t[..|t| - 1]).value, t[|t| - 1]);
      }
    }
    if Walk(g, t).Some? {
      WalkIsBounded(g, t);
      StepAfterStore(g, p, val, Walk(g, t).value, NUL);
      if Walk(g, t).value == p {
        WalkIsInjective(g, s, t);
      }
    }
  }

  // ----- adding a string

  /** One turn of the loop that finds no edge: the graph it continues with. */
  lemma SproutTurn(g: Graph, p: nat, s: CString, k: nat)
    requires k < |s| && Trie(g) && Walk(g, s[..k]) == Some(p) && p < |g| && Step(g, p, s[k]).None?
    ensures Trie(Sprout(g, p, s[k])) && Walk(Sprout(g, p, s[k]), s[..k + 1]) == Some(|g|)
    ensures |Sprout(g, p, s[k])| == |g| + 1
    ensures Walk(g, s[..k + 1]).None? && Stored(g, s).None? && Stored(Sprout(g, p, s[k]), s).None?
    ensures NoDeadEnds(g, p) ==> NoDeadEnds(Sprout(g, p, s[k]), |g|)
    ensures Transitions(Sprout(g, p, s[k])) == Transitions(g) + 1
  {
    assert s[..k + 1] == s[..k] + [s[k]];
    WalkSnoc(g, s[..k], s[k]);
    if Walk(g, s).Some? {
      WalkOfPrefix(g, s, k + 1);
    }
    SproutKeepsTrie(g, p, s[k]);
    WalkAfterSprout(g, s[..k], p, s[k], s[..k + 1]);
    StoredAfterSprout(g, s[..k], p, s[k], s);
    TransitionsAfterAdd(g + [EMPTY_STATE], p, s[k], |g|, |g| + 1);
    TransitionsOfPrefix(g, g + [EMPTY_STATE], |g|);
  }

  /** The last turn of the loop, at the terminating NUL. */
  lemma StoreTurn(g: Graph, p: nat, s: CString, val: nat)
    requires Trie(g) && Walk(g, s) == Some(p) && p < |g|
    ensures var r := AddFrom(g, p, s, |s|, val);
            && Trie(r.g) && |r.g| == |g| && (NoDeadEnds(g, p) ==> NoDeadEnds(r.g, 0))
            && r.rc == (if Stored(g, s).Some? then EEXIST else OK)
            && (r.rc == EEXIST ==> r.g == g)
            && Transitions(r.g) == Transitions(g) + if r.rc == OK then 1 else 0
  {
    FindHits(g[p].transv, NUL);
    if Step(g, p, NUL).None? {
      StoreKeepsTrie(g, p, val);
      TransitionsAfterAdd(g, p, NUL, val, |g|);
    }
  }

  /** From any turn of the loop onwards: the trie is kept, each state gained costs one transition and so does
      the value, and the addition fails exactly for a string that is stored already, changing nothing. */
  lemma {:induction false} AddFromKeeps(g: Graph, p: nat, s: CString, k: nat, val: nat)
    requires k <= |s| && Trie(g) && Walk(g, s[..k]) == Some(p) && p < |g| && NoDeadEnds(g, p)
    ensures var r := AddFrom(g, p, s, k, val);
            && Trie(r.g) && NoDeadEnds(r.g, 0)
            && r.rc == (if Stored(g, s).Some? then EEXIST else OK)
            && (r.rc == EEXIST ==> r.g == g)
            && Transitions(r.g) - |r.g| == Transitions(g) - |g| + if r.rc == OK then 1 else 0
    decreases |s| - k
  {
    if k == |s| {
      assert s[..k] == s;
      StoreTurn(g, p, s, val);
    } else if Step(g, p, s[k]).None? {
      SproutTurn(g, p, s, k);
      AddFromKeeps(Sprout(g, p, s[k]), |g|, s, k + 1, val);
    } else {
      assert s[..k + 1] == s[..k] + [s[k]];
      WalkSnoc(g, s[..k], s[k]);
      FindHits(g[p].transv, s[k]);
      AddFromKeeps(g, Step(g, p, s[k]).value, s, k + 1, val);
    }
  }

  /** From any turn of the loop onwards: what is stored changes at s alone. */
  lemma {:induction false} AddFromStores(g: Graph, p: nat, s: CString, k: nat, val: nat, t: CString)
    requires k <= |s| && Trie(g) && Walk(g, s[..k]) == Some(p) && p < |g|
    ensures Stored(AddFrom(g, p, s, k, val).g, t) == if t == s && Stored(g, s).None? then Some(val) else Stored(g, t)
    decreases |s| - k
  {
    if k == |s| {
      assert s[..k] == s;
      if Step(g, p, NUL).None? {
        WalkAfterStore(g, s, p, val, t);
      }
    } else if Step(g, p, s[k]).None? {
      SproutTurn(g, p, s, k);
      StoredAfterSprout(g, s[..k], p, s[k], t);
      AddFromStores(Sprout(g, p, s[k]), |g|, s, k + 1, val, t);
    } else {
      assert s[..k + 1] == s[..k] + [s[k]];
      WalkSnoc(g, s[..k], s[k]);
      AddFromStores(g, Step(g, p, s[k]).value, s, k + 1, val, t);
    }
  }

  /** The walks after a turn that finds no edge. */
  lemma SproutTurnWalks(g: Graph, p: nat, s: CString, k: nat, t: CString)
    requires k < |s| && Trie(g) && Walk(g, s[..k]) == Some(p) && p < |g| && Step(g, p, s[k]).None?
    ensures Walk(Sprout(g, p, s[k]), t).Some? || t <= s <==> Walk(g, t).Some? || t <= s
    ensures Walk(g, t).Some? ==> Walk(Sprout(g, p, s[k]), t) == Walk(g, t)
  {
    WalkAfterSprout(g, s[..k], p, s[k], t);
    assert s[..k] + [s[k]] == s[..k + 1] <= s;
    WalkSnoc(g, s[..k], s[k]);
  }

  /** The walks after the last turn. */
  lemma StoreTurnWalks(g: Graph, p: nat, s: CString, val: nat, t: CString)
    requires Trie(g) && Walk(g, s) == Some(p) && p < |g|
    ensures Walk(AddFrom(g, p, s, |s|, val).g, t) == Walk(g, t)
    ensures t <= s ==> Walk(g, t).Some?
  {
    if Step(g, p, NUL).None? {
      WalkAfterStore(g, s, p, val, t);
    }
    if t <= s {
      assert t == s[..|t|];
      WalkOfPrefix(g, s, |t|);
    }
  }

  /** From any turn of the loop onwards: the walks gained are those of the prefixes of s. */
  lemma {:induction false} AddFromWalks(g: Graph, p: nat, s: CString, k: nat, val: nat, t: CString)
    requires k <= |s| && Trie(g) && Walk(g, s[..k]) == Some(p) && p < |g|
    ensures Walk(AddFrom(g, p, s, k, val).g, t).Some? <==> Walk(g, t).Some? || t <= s
    ensures Walk(g, t).Some? ==> Walk(AddFrom(g, p, s, k, val).g, t) == Walk(g, t)
    decreases |s| - k
  {
    if k == |s| {
      assert s[..k] == s;
      StoreTurnWalks(g, p, s, val, t);
    } else if Step(g, p, s[k]).None? {
      SproutTurn(g, p, s, k);
      SproutTurnWalks(g, p, s, k, t);
      AddFromWalks(Sprout(g, p, s[k]), |g|, s, k + 1, val, t);
    } else {
      assert s[..k + 1] == s[..k] + [s[k]];
      WalkSnoc(g, s[..k], s[k]);
      AddFromWalks(g, Step(g, p, s[k]).value, s, k + 1, val, t);
    }
  }

  /** When states are gained, the last one is the end of s: it is new, and nothing leaves it. */
  lemma LastStateEndsString(g: Graph, s: CString, val: nat)
    requires Trie(g) && Trie(Add(g, s, val).g) && |g| < |Add(g, s, val).g|
    ensures Walk(Add(g, s, val).g, s) == Some(|Add(g, s, val).g| - 1)
  {
    var h := Add(g, s, val).g;
    var t := PathTo(h, |h| - 1);
    AddFromWalks(g, 0, s, 0, val, t);
    AddFromWalks(g, 0, s, 0, val, s);
    if Walk(g, t).Some? {
      WalkIsBounded(g, t);
    }
    assert t <= s;
    if t != s {
      NothingLeavesLastState(h, t, s);
    }
  }

  lemma NothingLeavesLastState(g: Graph, t: CString, s: CString)
    requires Trie(g) && Walk(g, t) == Some(|g| - 1) && t < s
    ensures Walk(g, s).None?
  {
    var c: Char := s[|t|];
    assert Step(g, |g| - 1, c).None?;
    WalkSnoc(g, t, c);
    assert s[..|t| + 1] == t + [c];
    if Walk(g, s).Some? {
      WalkOfPrefix(g, s, |t| + 1);
    }
  }
}
