/** The general purpose growable vector (src/libfst/vec.c). */
module Vectors {

  /** Capacity that vec_grow chooses for index idx. */
  function GrownSize(size: nat, idx: nat): nat {
    var newSize := size * 16 / 10;
    if idx > newSize then idx * 16 / 10 else newSize
  }

  /** Capacity after vec_make_room, given whether the vector had storage. */
  function RoomSize(hasStorage: bool, size: nat, idx: nat): nat {
    if !hasStorage then 10
    else if idx >= size then GrownSize(size, idx)
    else size
  }

  /** vec_grow never shrinks, so a reallocation keeps every element. */
  lemma GrowNeverShrinks(size: nat, idx: nat)
    ensures size <= GrownSize(size, idx)
  {
    assert size * 16 / 10 >= size;
  }

  /** Room is made for the index asked for, except for one index: the grown size itself. A vector that grows does so
      to 1.6 times the larger of its size and, when that does not reach it, the index, rounded down. */
  lemma RoomMadeExactly(size: nat, idx: nat)
    requires size >= 10
    ensures idx < RoomSize(true, size, idx) <==> idx != size * 16 / 10
    ensures idx >= size ==>
              var (r, m) := (RoomSize(true, size, idx), if 10 * idx > 16 * size then idx else size);
              10 * r <= 16 * m < 10 * r + 10
  {
    assert size < size * 16 / 10;
    if idx > size * 16 / 10 {
      assert idx < idx * 16 / 10;
    }
  }

  /** Capacity and elements moved by reallocation after n appends at indices 0 .. n-1. */
  datatype Growth = Growth(size: nat, moved: nat)

  /** One append at index idx. */
  function AfterAppend(before: Growth, hasStorage: bool, idx: nat): Growth {
    Growth(RoomSize(hasStorage, before.size, idx),
           before.moved + if hasStorage && idx >= before.size then before.size else 0)
  }

  function Appends(n: nat): Growth {
    if n == 0 then Growth(0, 0) else AfterAppend(Appends(n - 1), n > 1, n - 1)
  }

  /** Every append lands inside the vector; the elements ever moved are at most twice the capacity
      and the capacity is at most 1.6 times the appends, so an append moves a constant number on average. */
  lemma {:induction false} AppendsAreAmortised(n: nat)
    requires n > 0
    ensures n <= Appends(n).size && 10 <= Appends(n).size
    ensures Appends(n).moved <= 2 * Appends(n).size
    ensures Appends(n) == Growth(10, 0) || 10 * Appends(n).size <= 16 * (n - 1)
    ensures 10 * Appends(n).moved <= 32 * n
  {
    if n > 1 {
      AppendsAreAmortised(n - 1);
      var s := Appends(n - 1).size;
      assert s * 16 / 10 * 2 >= 3 * s;
    }
  }

  class Vec<T(0)> {
    var base: array?<T>
    var len: nat
    var size: nat
    const esize: nat
    /** Elements moved by reallocations so far. */
    ghost var moved: nat

    ghost predicate WellFormed()
      reads this
    {
      if base == null then size == 0 else base.Length == size
    }

    constructor (esize: nat)
      ensures WellFormed() && base == null && len == 0 && moved == 0 && this.esize == esize
    {
      this.base := null;
      this.len := 0;
      this.size := 0;
      this.moved := 0;
      this.esize := esize;
    }

    method Alloc(nelem: nat)
      requires base == null && size == 0
      modifies this
      ensures WellFormed() && base != null && fresh(base) && size == nelem
      ensures len == old(len) && moved == old(moved)
    {
      base := new T[nelem];
      size := nelem;
    }

    method Grow(idx: nat)
      requires WellFormed() && base != null
      modifies this
      ensures WellFormed() && base != null && fresh(base) && len == old(len)
      ensures old(size) <= size == GrownSize(old(size), idx)
      ensures base[..old(size)] == old(base[..size]) && moved == old(moved) + old(size)
    {
      var newSize := size * 16 / 10;
      if idx > newSize {
        newSize := idx * 16 / 10;
      }
      GrowNeverShrinks(size, idx);
      var newBase := new T[newSize];
      forall i | 0 <= i < size {
        newBase[i] := base[i];
      }
      moved := moved + size;
      base := newBase;
      size := newSize;
      assert base[..old(size)] == old(base[..size]);
    }

    method MakeRoom(idx: nat)
      requires WellFormed()
      modifies this
      ensures WellFormed() && base != null && len == old(len)
      ensures base == old(base) || fresh(base)
      ensures old(size) <= size == RoomSize(old(base) != null, old(size), idx)
      ensures old(base) != null ==> base[..old(size)] == old(base[..size])
      ensures moved == old(moved) + if old(base) != null && idx >= old(size) then old(size) else 0
    {
      if base == null {
        Alloc(10);
      } else if idx >= size {
        Grow(idx);
      }
    }
  }

  /** Elements at the indices below `len`, and room enough for vec_make_room to keep its promise. */
  ghost predicate Holds<T(0)>(v: Vec<T>)
    reads v
  {
    v.WellFormed() && v.len <= v.size && (v.base != null ==> v.size >= 10)
  }

  ghost function Contents<T(0)>(v: Vec<T>): (s: seq<T>)
    requires Holds(v)
    reads v, v.base
    ensures |s| == v.len
  {
    if v.base == null then [] else v.base[..v.len]
  }

  /** vec_make_room for the next index. */
  method MakeRoomForNext<T(0)>(v: Vec<T>)
    requires Holds(v)
    modifies v
    ensures Holds(v) && v.base != null && v.len == old(v.len) < v.size
    ensures v.base == old(v.base) || fresh(v.base)
    ensures Contents(v) == old(Contents(v))
    ensures v.size == RoomSize(old(v.base) != null, old(v.size), v.len)
    ensures v.moved == old(v.moved) + if old(v.base) != null && v.len >= old(v.size) then old(v.size) else 0
  {
    if v.base != null {
      RoomMadeExactly(v.size, v.len);
    }
    ghost var before := Contents(v);
    v.MakeRoom(v.len);
    assert v.base[..v.len] == before;
  }

  /** Writes the element after the last, for which there is room. */
  method StoreNext<T(0)>(v: Vec<T>, x: T)
    requires Holds(v) && v.base != null && v.len < v.size
    modifies v`len, v.base
    ensures Holds(v) && Contents(v) == old(Contents(v)) + [x]
  {
    v.base[v.len] := x;
    v.len := v.len + 1;
  }

  /** vec_make_room for the next index, and the element. */
  method AppendNext<T(0)>(v: Vec<T>, x: T)
    requires Holds(v)
    modifies v, v.base
    ensures Holds(v) && Contents(v) == old(Contents(v)) + [x]
    ensures v.base != null && (v.base == old(v.base) || fresh(v.base))
    ensures Growth(v.size, v.moved) == AfterAppend(old(Growth(v.size, v.moved)), old(v.base) != null, old(v.len))
  {
    MakeRoomForNext(v);
    StoreNext(v, x);
  }

  lemma TakeOneMore<T>(xs: seq<T>, i: nat)
    requires i < |xs|
    ensures xs[..i + 1] == xs[..i] + [xs[i]]
  {
  }

  /** A run of appends to a new vector. The class does what Appends counts, so AppendsAreAmortised bounds its
      capacity and the elements it moves. */
  method AppendAll<T(0)>(xs: seq<T>, esize: nat) returns (v: Vec<T>)
    ensures Holds(v) && Contents(v) == xs
    ensures Growth(v.size, v.moved) == Appends(|xs|)
    ensures v.moved <= 2 * v.size && 10 * v.moved <= 32 * |xs|
  {
    v := new Vec<T>(esize);
    for i := 0 to |xs|
      invariant fresh(v) && (v.base == null || fresh(v.base)) && (v.base == null <==> i == 0)
      invariant Holds(v) && Contents(v) == xs[..i]
      invariant Growth(v.size, v.moved) == Appends(i)
    {
      TakeOneMore(xs, i);
      AppendNext(v, xs[i]);
    }
    if xs != [] {
      AppendsAreAmortised(|xs|);
    }
    assert xs[..|xs|] == xs;
  }
}
