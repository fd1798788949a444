/** What every transducer built by a run of additions means. */
module Meaning {
  import opened CStrings
  import opened Results
  import opened Transducers
  import opened Tries

  // ----- the builder refines a finite map

  ghost predicate Represents(g: Graph, m: map<CString, nat>) {
    forall s :: Stored(g, s) == if s in m then Some(m[s]) else None
  }

  /** Every run keeps the trie, leaves no dead end and stores exactly the map of first additions. */
  lemma {:induction false} BuildRefinesDict(entries: seq<Entry>)
    ensures Trie(Build(entries)) && NoDeadEnds(Build(entries), 0)
    ensures Represents(Build(entries), Dict(entries))
    ensures entries != [] ==> Build(entries)[0].transv != []
  {
    if entries == [] {
      forall s
        ensures Stored(INITIAL, s).None?
      {
        NothingStoredInitially(s);
      }
    } else {
      var n := |entries| - 1;
      BuildRefinesDict(entries[..n]);
      StoresAfterAdd(entries[..n], entries[n].key, entries[n].val);
      RootNotEmpty(Build(entries), entries[n].key);
    }
  }

  /** One more addition to a transducer that represents a map. */
  lemma StoresAfterAdd(entries: seq<Entry>, s: CString, val: nat)
    requires Trie(Build(entries)) && NoDeadEnds(Build(entries), 0) && Represents(Build(entries), Dict(entries))
    ensures var (m, r) := (Dict(entries), Add(Build(entries), s, val));
            && Trie(r.g) && NoDeadEnds(r.g, 0)
            && Represents(r.g, if s in m then m else m[s := val])
            && r.rc == (if s in m then EEXIST else OK) && (s in m ==> r.g == Build(entries))
  {
    var g := Build(entries);
    AddFromKeeps(g, 0, s, 0, val);
    forall t
      ensures Stored(Add(g, s, val).g, t) == if t == s && Stored(g, s).None? then Some(val) else Stored(g, t)
    {
      AddFromStores(g, 0, s, 0, val, t);
    }
  }

  lemma {:induction false} NothingStoredInitially(s: CString)
    ensures Walk(INITIAL, s) == if s == [] then Some(0) else None
    ensures Stored(INITIAL, s).None?
  {
    if s != [] {
      NothingStoredInitially(s[..|s| - 1]);
    }
  }

  lemma {:induction false} RootNotEmpty(g: Graph, s: CString)
    requires Trie(g) && Stored(g, s).Some?
    ensures g[0].transv != []
  {
    if s != [] {
      WalkOfPrefix(g, s, 1);
      assert s[..1][..0] == [];
    }
  }

  /** The map in words: s is a key iff it was added, and its value is that of its first addition. */
  lemma {:induction false} DictHoldsFirstAdditions(entries: seq<Entry>, s: CString)
    ensures s in Dict(entries) <==> exists i :: 0 <= i < |entries| && entries[i].key == s
    ensures forall i :: 0 <= i < |entries| && entries[i].key == s && (forall j :: 0 <= j < i ==> entries[j].key != s) ==>
                          Dict(entries)[s] == entries[i].val
  {
    if entries != [] {
      var n := |entries| - 1;
      var before := entries[..n];
      DictHoldsFirstAdditions(before, s);
      assert forall i :: 0 <= i < n ==> before[i] == entries[i];
      if s in Dict(before) {
        var i :| 0 <= i < n && before[i].key == s;
        assert entries[i].key == s;
      }
    }
  }

  /** fst_add_string fails iff the string is a key already, and then changes nothing;
      otherwise the map gains exactly that entry. EDOM and ELOOP never come back. */
  lemma AdditionExtendsMap(entries: seq<Entry>, s: CString, val: nat)
    ensures var (g, m) := (Build(entries), Dict(entries)); var r := Add(g, s, val);
            && r.rc == (if s in m then EEXIST else OK)
            && (s in m ==> r.g == g)
            && (s !in m ==> Represents(r.g, m[s := val]))
  {
    BuildRefinesDict(entries);
    StoresAfterAdd(entries, s, val);
  }

  lemma {:induction false} ExactFrom(g: Graph, state: nat, s: CString, k: nat)
    requires Trie(g) && k <= |s| && Walk(g, s[..k]) == Some(state)
    ensures LookupFrom(g, |g| - 1, state, s, k, false) ==
            if Stored(g, s).Some? then Found(Stored(g, s).value) else Failed(ENOENT)
    decreases |s| - k
  {
    WalkIsBounded(g, s[..k]);
    if k == |s| {
      assert s[..k] == s;
    } else {
      assert s[..k + 1] == s[..k] + [s[k]];
      WalkSnoc(g, s[..k], s[k]);
      if Step(g, state, s[k]).Some? {
        ExactFrom(g, Step(g, state, s[k]).value, s, k + 1);
      } else if Walk(g, s).Some? {
        WalkOfPrefix(g, s, k + 1);
      }
    }
  }

  /** fst_lookup_string is lookup in the map. */
  lemma ExactLookup(entries: seq<Entry>, s: CString)
    ensures Lookup(Build(entries), s, false) ==
            if s in Dict(entries) then Found(Dict(entries)[s]) else Failed(ENOENT)
  {
    BuildRefinesDict(entries);
    ExactFrom(Build(entries), 0, s, 0);
  }

  // ----- what a prefix lookup returns

  ghost predicate Extended(g: Graph, k: CString) {
    exists t :: k < t && Stored(g, t).Some?
  }

  /** k decides a prefix lookup of s: it is s, or a proper prefix of s that no other key extends. */
  ghost predicate Decides(g: Graph, k: CString, s: CString) {
    Stored(g, k).Some? && (k == s || (k < s && !Extended(g, k)))
  }

  /** Below every state there is a key. */
  lemma {:induction false} KeyBelow(g: Graph, n: nat, k: CString) returns (t: CString)
    requires Trie(g) && NoDeadEnds(g, 0) && Walk(g, k) == Some(n) && n < |g| && g[n].transv != []
    ensures k <= t && Stored(g, t).Some?
    decreases |g| - n
  {
    FindHits(g[n].transv, g[n].transv[0].chr);
    if g[n].transv[0].chr == NUL {
      t := k;
    } else {
      var c: Char := g[n].transv[0].chr;
      WalkSnoc(g, k, c);
      t := KeyBelow(g, Step(g, n, c).value, k + [c]);
    }
  }

  lemma FinalIsUnextended(g: Graph, n: nat, k: CString)
    requires Trie(g) && Walk(g, k) == Some(n) && n < |g| && g[n].transv != [] && IsFinal(g[n])
    ensures !Extended(g, k)
    ensures Stored(g, k) == Some(g[n].transv[0].next)
  {
    forall t | k < t
      ensures Stored(g, t).None?
    {
      var c: Char := t[|k|];
      FindHits(g[n].transv, c);
      WalkSnoc(g, k, c);
      assert t[..|k| + 1] == k + [c];
      if Walk(g, t).Some? {
        WalkOfPrefix(g, t, |k| + 1);
      }
    }
  }

  /** A list that holds NUL and yet is not final has a second label. */
  lemma SecondLabel(ts: seq<Trans>) returns (c: Char)
    requires ts != [] && DistinctLabels(ts) && Find(ts, NUL).Some? && !IsFinal(State(ts))
    ensures Find(ts, c).Some?
  {
    FindHits(ts, NUL);
    assert |ts| > 1;
    assert ts[0].chr != ts[1].chr;
    c := if ts[0].chr == NUL then ts[1].chr else ts[0].chr;
    FindHits(ts, c);
  }

  lemma KeyNotFinalIsExtended(g: Graph, n: nat, k: CString)
    requires Trie(g) && NoDeadEnds(g, 0) && Walk(g, k) == Some(n) && n < |g| && g[n].transv != [] && !IsFinal(g[n])
    requires Stored(g, k).Some?
    ensures Extended(g, k)
  {
    var c := SecondLabel(g[n].transv);
    WalkSnoc(g, k, c);
    var next := Step(g, n, c).value;
    assert n < next < |g|;
    var t := KeyBelow(g, next, k + [c]);
    assert k < t;
  }

  /** is_final_state recognises exactly the keys that no other key extends. */
  lemma FinalMeansUnextended(g: Graph, n: nat, k: CString)
    requires Trie(g) && NoDeadEnds(g, 0) && Walk(g, k) == Some(n) && n < |g| && g[n].transv != []
    ensures IsFinal(g[n]) <==> Stored(g, k).Some? && !Extended(g, k)
    ensures IsFinal(g[n]) ==> Stored(g, k) == Some(g[n].transv[0].next)
  {
    if IsFinal(g[n]) {
      FinalIsUnextended(g, n, k);
    } else if Stored(g, k).Some? {
      KeyNotFinalIsExtended(g, n, k);
    }
  }

  /** What the recursion of a prefix lookup at offset k promises. */
  ghost predicate Answers(g: Graph, s: CString, k: nat, r: Outcome) {
    && (forall q :: |q| >= k && Decides(g, q, s) ==> r == Found(Stored(g, q).value))
    && ((forall q :: |q| >= k ==> !Decides(g, q, s)) ==> r == Failed(ENOENT))
  }

  lemma StopAtFinal(g: Graph, s: CString, k: nat, v: nat)
    requires k < |s| && Stored(g, s[..k]) == Some(v) && !Extended(g, s[..k])
    ensures Answers(g, s, k, Found(v))
  {
    assert Decides(g, s[..k], s);
    forall q | |q| >= k && q <= s
      ensures q == s[..k] || s[..k] < q
    {
      assert q == s[..|q|];
    }
  }

  lemma StopWithoutEdge(g: Graph, s: CString, k: nat)
    requires k < |s| && Walk(g, s[..k + 1]).None? && !Decides(g, s[..k], s)
    ensures Answers(g, s, k, Failed(ENOENT))
  {
    forall q | |q| >= k && q <= s
      ensures !Decides(g, q, s)
    {
      assert q == s[..|q|];
      assert |q| > k ==> q[..k + 1] == s[..k + 1];
      if |q| > k && Walk(g, q).Some? {
        WalkOfPrefix(g, q, k + 1);
      }
    }
  }

  lemma MoveOn(g: Graph, s: CString, k: nat, r: Outcome)
    requires k < |s| && !Decides(g, s[..k], s) && Answers(g, s, k + 1, r)
    ensures Answers(g, s, k, r)
  {
    forall q | |q| >= k && Decides(g, q, s)
      ensures |q| >= k + 1
    {
      assert q == s[..|q|];
    }
  }

  lemma {:induction false} PrefixFrom(g: Graph, state: nat, s: CString, k: nat)
    requires Trie(g) && NoDeadEnds(g, 0) && g[0].transv != []
    requires k <= |s| && Walk(g, s[..k]) == Some(state)
    ensures Answers(g, s, k, LookupFrom(g, |g| - 1, state, s, k, true))
    decreases |s| - k
  {
    WalkIsBounded(g, s[..k]);
    if k == |s| {
      assert s[..k] == s;
      assert forall q :: |q| >= k && Decides(g, q, s) ==> q == s;
      assert Decides(g, s, s) <==> Stored(g, s).Some?;
    } else {
      FinalMeansUnextended(g, state, s[..k]);
      assert s[..k + 1] == s[..k] + [s[k]];
      WalkSnoc(g, s[..k], s[k]);
      if IsFinal(g[state]) {
        StopAtFinal(g, s, k, g[state].transv[0].next);
      } else if Step(g, state, s[k]).None? {
        StopWithoutEdge(g, s, k);
      } else {
        PrefixFrom(g, Step(g, state, s[k]).value, s, k + 1);
        MoveOn(g, s, k, LookupFrom(g, |g| - 1, Step(g, state, s[k]).value, s, k + 1, true));
      }
    }
  }

  /** The same condition in terms of the map alone. */
  ghost predicate Settles(m: map<CString, nat>, k: CString, s: CString) {
    k in m && (k == s || (k < s && Unextended(m, k)))
  }

  ghost predicate Unextended(m: map<CString, nat>, k: CString) {
    forall t :: t in m ==> !(k < t)
  }

  lemma AtMostOneSettles(m: map<CString, nat>, j: CString, k: CString, s: CString)
    requires Settles(m, j, s) && Settles(m, k, s)
    ensures j == k
  {
    assert j == s[..|j|] && k == s[..|k|];
    assert |j| < |k| ==> j < k;
    assert |k| < |j| ==> k < j;
  }

  lemma DecidesIsSettles(g: Graph, m: map<CString, nat>, k: CString, s: CString)
    requires Represents(g, m)
    ensures Decides(g, k, s) <==> Settles(m, k, s)
  {
    if k in m && k < s {
      if Extended(g, k) {
        var t :| k < t && Stored(g, t).Some?;
        assert t in m;
      } else {
        assert forall t :: t in m ==> Stored(g, t).Some?;
      }
    }
  }

  lemma AnswersInTermsOfMap(g: Graph, m: map<CString, nat>, s: CString, r: Outcome)
    requires Represents(g, m) && Answers(g, s, 0, r)
    ensures forall k :: Settles(m, k, s) ==> r == Found(m[k])
    ensures (forall k :: !Settles(m, k, s)) ==> r == Failed(ENOENT)
  {
    forall k
      ensures Decides(g, k, s) <==> Settles(m, k, s)
      ensures Settles(m, k, s) ==> r == Found(m[k])
    {
      DecidesIsSettles(g, m, k, s);
      assert Decides(g, k, s) ==> |k| >= 0 && r == Found(Stored(g, k).value);
    }
  }

  lemma SettledLookup(entries: seq<Entry>, s: CString)
    requires entries != []
    ensures var (r, m) := (Lookup(Build(entries), s, true), Dict(entries));
            && (forall k :: Settles(m, k, s) ==> r == Found(m[k]))
            && ((forall k :: !Settles(m, k, s)) ==> r == Failed(ENOENT))
  {
    var g, m, r := Build(entries), Dict(entries), Lookup(Build(entries), s, true);
    assert Represents(g, m) && Answers(g, s, 0, r) by {
      BuildRefinesDict(entries);
      PrefixFrom(g, 0, s, 0);
    }
    AnswersInTermsOfMap(g, m, s, r);
  }

  /** The exact meaning of fst_lookup_prefix in every transducer that has had a string added. */
  lemma PrefixLookup(entries: seq<Entry>, s: CString)
    requires entries != []
    ensures var (r, m) := (Lookup(Build(entries), s, true), Dict(entries));
            && (forall v :: r == Found(v) <==> exists k :: Settles(m, k, s) && m[k] == v)
            && (r == Failed(ENOENT) <==> forall k :: !Settles(m, k, s))
            && (r.Found? || r == Failed(ENOENT))
  {
    SettledLookup(entries, s);
  }

  /** Before the first addition a prefix lookup of a non-empty string reads transition 0 of a state without any. */
  lemma PrefixLookupOfNothing(s: CString)
    ensures Lookup(Build([]), s, true) == if s == [] then Failed(ENOENT) else Fault
    ensures Lookup(Build([]), s, false) == Failed(ENOENT)
  {
    ExactLookup([], s);
  }

  // ----- the longest-prefix scan it replaces

  /** Scan a list of keys for the first that is a prefix of s. */
  function Scan(keys: seq<CString>, s: CString): (hit: Option<CString>)
    ensures hit.Some? ==> hit.value in keys && hit.value <= s
  {
    if keys == [] then None
    else if keys[0] <= s then Some(keys[0])
    else Scan(keys[1..], s)
  }

  ghost predicate LongestFirst(keys: seq<CString>) {
    forall i, j :: 0 <= i < j < |keys| ==> |keys[i]| >= |keys[j]|
  }

  lemma {:induction false} ScanFindsLongest(keys: seq<CString>, s: CString)
    requires LongestFirst(keys)
    ensures Scan(keys, s).None? ==> forall k :: k in keys ==> !(k <= s)
    ensures Scan(keys, s).Some? ==>
              forall k :: k in keys && k <= s ==> k <= Scan(keys, s).value
  {
    if keys != [] {
      if keys[0] <= s {
        forall k | k in keys && k <= s
          ensures k <= keys[0]
        {
          assert |k| <= |keys[0]|;
          assert k == s[..|k|] == keys[0][..|k|];
        }
      } else {
        ScanFindsLongest(keys[1..], s);
        assert forall k :: k in keys <==> k == keys[0] || k in keys[1..];
      }
    }
  }

  lemma SettlingIsLongest(m: map<CString, nat>, k: CString, hit: CString, s: CString)
    requires Settles(m, k, s) && hit in m && k <= hit && hit <= s
    ensures hit == k
  {
    assert |k| == |hit| ==> k == hit[..|k|];
    assert |k| < |hit| ==> k < hit;
  }

  /** The transducer gives the answer of the scan exactly when the longest matching key is all of s
      or no key extends it; otherwise it answers ENOENT, never another value. */
  lemma TransducerRefinesScan(entries: seq<Entry>, keys: seq<CString>, s: CString)
    requires entries != []
    requires LongestFirst(keys) && forall k :: k in keys <==> k in Dict(entries)
    ensures var (r, hit, m) := (Lookup(Build(entries), s, true), Scan(keys, s), Dict(entries));
            && (r == Failed(ENOENT) || (hit.Some? && r == Found(m[hit.value])))
            && (r == (if hit.Some? then Found(m[hit.value]) else Failed(ENOENT)) <==>
                hit.None? || hit.value == s || Unextended(m, hit.value))
  {
    var m := Dict(entries);
    PrefixLookup(entries, s);
    ScanFindsLongest(keys, s);
    var hit := Scan(keys, s);
    forall k | Settles(m, k, s)
      ensures hit == Some(k)
    {
      assert k in keys && k <= s;
      assert hit.value in keys;
      SettlingIsLongest(m, k, hit.value, s);
    }
  }

  ghost predicate PrefixFree(m: map<CString, nat>) {
    forall k :: k in m ==> Unextended(m, k)
  }

  /** For a prefix-free set of keys, as ISBN prefixes are meant to be, the two agree on every input. */
  lemma PrefixFreeScan(entries: seq<Entry>, keys: seq<CString>, s: CString)
    requires entries != [] && PrefixFree(Dict(entries))
    requires LongestFirst(keys) && forall k :: k in keys <==> k in Dict(entries)
    ensures Lookup(Build(entries), s, true) ==
            if Scan(keys, s).Some? then Found(Dict(entries)[Scan(keys, s).value]) else Failed(ENOENT)
  {
    TransducerRefinesScan(entries, keys, s);
    ScanFindsLongest(keys, s);
  }

  /** Keys 97 and 978 part the two on input 979. */
  lemma ScanAndTransducerDiffer()
    ensures var entries := [Entry([57, 55], 0), Entry([57, 55, 56], 1)];
            && Lookup(Build(entries), [57, 55, 57], true) == Failed(ENOENT)
            && Scan([[57, 55, 56], [57, 55]], [57, 55, 57]) == Some([57, 55])
            && Dict(entries) == map[[57, 55] := 0, [57, 55, 56] := 1]
  {
    var a: CString, b: CString, s: CString := [57, 55], [57, 55, 56], [57, 55, 57];
    var entries := [Entry(a, 0), Entry(b, 1)];
    assert entries[..1] == [Entry(a, 0)] && entries[..1][..0] == [];
    assert Dict([]) == map[];
    assert Dict(entries[..1]) == map[a := 0];
    assert b != a;
    assert Dict(entries) == map[a := 0, b := 1];
    PrefixLookup(entries, s);
    assert a < b && s[2] != b[2];
    forall k
      ensures !Settles(Dict(entries), k, s)
    {
      assert b in Dict(entries);
      assert k in Dict(entries) <==> k == a || k == b;
    }
  }

  // ----- one path to every state

  /** Every state of a run is reached from state 0 by exactly one string. */
  lemma OnePathPerState(entries: seq<Entry>, n: nat) returns (s: CString)
    requires n < |Build(entries)|
    ensures forall t :: Walk(Build(entries), t) == Some(n) <==> t == s
  {
    BuildRefinesDict(entries);
    s := PathTo(Build(entries), n);
    forall t | Walk(Build(entries), t) == Some(n)
      ensures t == s
    {
      WalkIsInjective(Build(entries), t, s);
    }
  }

  /** However long the string, a lookup that has followed one edge a turn makes at most `len` + 1 turns. */
  lemma TurnsAreBounded(entries: seq<Entry>, s: CString, turns: nat)
    requires 0 < turns <= |s| + 1 && Walk(Build(entries), s[..turns - 1]).Some?
    ensures turns <= |Build(entries)| && turns <= |s| + 1
  {
    BuildRefinesDict(entries);
    WalkIsBounded(Build(entries), s[..turns - 1]);
  }

  /** No edge under a character leads back to state 0, so a lookup never stops at one. */
  lemma NoEdgeToRoot(entries: seq<Entry>, i: nat, c: Char)
    requires i < |Build(entries)|
    ensures Step(Build(entries), i, c) != Some(0)
  {
    BuildRefinesDict(entries);
  }

  // ----- conservation

  ghost function NonEmptyPrefixes(m: map<CString, nat>): set<CString> {
    set k, i | k in m.Keys && 0 < i <= |k| :: k[..i]
  }

  ghost predicate BeginsKey(m: map<CString, nat>, t: CString) {
    exists k :: k in m && t <= k
  }

  lemma BeginsKeyGrows(entries: seq<Entry>, t: CString)
    requires entries != []
    ensures var n := |entries| - 1;
            BeginsKey(Dict(entries), t) <==> BeginsKey(Dict(entries[..n]), t) || t <= entries[n].key
  {
    var n := |entries| - 1;
    var m, m' := Dict(entries[..n]), Dict(entries);
    assert forall k :: k in m' <==> k in m || k == entries[n].key;
    assert entries[n].key in m';
  }

  lemma {:induction false} WalksArePrefixes(entries: seq<Entry>, t: CString)
    ensures Walk(Build(entries), t).Some? <==> t == [] || BeginsKey(Dict(entries), t)
  {
    if entries == [] {
      NothingStoredInitially(t);
    } else {
      var n := |entries| - 1;
      WalksArePrefixes(entries[..n], t);
      BuildRefinesDict(entries[..n]);
      AddFromWalks(Build(entries[..n]), 0, entries[n].key, 0, entries[n].val, t);
      BeginsKeyGrows(entries, t);
    }
  }

  lemma NonEmptyPrefixesBeginKeys(m: map<CString, nat>, t: CString)
    ensures t in NonEmptyPrefixes(m) <==> t != [] && BeginsKey(m, t)
  {
    if t != [] && BeginsKey(m, t) {
      var k :| k in m && t <= k;
      assert t == k[..|t|];
    }
    if t in NonEmptyPrefixes(m) {
      var k, i :| k in m.Keys && 0 < i <= |k| && t == k[..i];
      assert t <= k;
    }
  }

  /** The strings that lead to the first n states are n in number. */
  lemma {:induction false} PathsOfStates(g: Graph, n: nat) returns (paths: set<CString>)
    requires Trie(g) && n <= |g|
    ensures |paths| == n
    ensures forall s :: s in paths <==> Walk(g, s).Some? && Walk(g, s).value < n
  {
    if n == 0 {
      paths := {};
    } else {
      var before := PathsOfStates(g, n - 1);
      var s := PathTo(g, n - 1);
      paths := before + {s};
      forall t
        ensures t in paths <==> Walk(g, t).Some? && Walk(g, t).value < n
      {
        if Walk(g, t) == Some(n - 1) {
          WalkIsInjective(g, s, t);
        }
      }
    }
  }

  lemma PathsArePrefixes(entries: seq<Entry>, paths: set<CString>)
    requires forall s :: s in paths <==> Walk(Build(entries), s).Some?
    ensures paths == {[]} + NonEmptyPrefixes(Dict(entries))
  {
    forall t
      ensures t in paths <==> t == [] || t in NonEmptyPrefixes(Dict(entries))
    {
      WalksArePrefixes(entries, t);
      NonEmptyPrefixesBeginKeys(Dict(entries), t);
    }
  }

  /** `len` counts the distinct non-empty prefixes of the keys; the transitions count them and the keys. */
  lemma Conservation(entries: seq<Entry>)
    ensures |Build(entries)| - 1 == |NonEmptyPrefixes(Dict(entries))|
    ensures Transitions(Build(entries)) == |Build(entries)| - 1 + |Dict(entries)|
  {
    var g := Build(entries);
    assert Trie(g) by { BuildRefinesDict(entries); }
    var paths := PathsOfStates(g, |g|);
    forall t | Walk(g, t).Some?
      ensures Walk(g, t).value < |g|
    {
      WalkIsBounded(g, t);
    }
    PathsArePrefixes(entries, paths);
    assert [] !in NonEmptyPrefixes(Dict(entries));
    TransitionsOfRun(entries);
  }

  lemma {:induction false} TransitionsOfRun(entries: seq<Entry>)
    ensures Transitions(Build(entries)) == |Build(entries)| - 1 + |Dict(entries)|
  {
    if entries == [] {
      assert TransitionsBefore(INITIAL, 0) == 0;
    } else {
      var n := |entries| - 1;
      TransitionsOfRun(entries[..n]);
      BuildRefinesDict(entries[..n]);
      AddFromKeeps(Build(entries[..n]), 0, entries[n].key, 0, entries[n].val);
      AdditionExtendsMap(entries[..n], entries[n].key, entries[n].val);
    }
  }
}
