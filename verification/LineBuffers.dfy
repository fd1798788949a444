/** Reading a line into a linked list of page slots and joining the pages (src/libcscript/sgl-getline.c). */
module LineBuffers {
  import opened CStrings
  import opened Results
  import opened Lines

  /** `sbuf` is None for NULL; a page holds SGL_PAGESIZE bytes, of which slen are in use. */
  datatype Segment = Segment(sbuf: Option<Page>, slen: nat)

  const FREE := Segment(None, 0)

  /** The slots in use come first. */
  function Used(segv: seq<Segment>): (n: nat)
    ensures n <= |segv|
    ensures forall i :: 0 <= i < n ==> segv[i].sbuf.Some?
    ensures n < |segv| ==> segv[n].sbuf.None?
  {
    if segv == [] || segv[0].sbuf.None? then 0 else 1 + Used(segv[1..])
  }

  lemma {:induction false} UsedIs(segv: seq<Segment>, n: nat)
    requires n <= |segv| && (forall i :: 0 <= i < n ==> segv[i].sbuf.Some?) && (n < |segv| ==> segv[n].sbuf.None?)
    ensures Used(segv) == n
  {
    if n > 0 {
      UsedIs(segv[1..], n - 1);
    }
  }

  ghost predicate WellUsed(segv: seq<Segment>) {
    && |segv| == SGL_SEGSIZE
    && (forall i :: 0 <= i < Used(segv) ==> |segv[i].sbuf.value| == SGL_PAGESIZE && segv[i].slen < SGL_PAGESIZE)
    && (forall i :: Used(segv) <= i < SGL_SEGSIZE ==> segv[i] == FREE)
  }

  function Content(s: Segment): Page {
    if s.sbuf.Some? && s.slen <= |s.sbuf.value| then s.sbuf.value[..s.slen] else []
  }

  function PagesOf(segv: seq<Segment>): (pages: seq<Page>)
    ensures |pages| == Used(segv)
  {
    seq(Used(segv), i requires 0 <= i < Used(segv) => Content(segv[i]))
  }

  class Sgl {
    var next: Sgl?
    var segv: seq<Segment>
    /** The place of the node in its list, which sets it apart from the others. */
    ghost const place: nat

    constructor (ghost place: nat)
      ensures next == null && WellUsed(segv) && PagesOf(segv) == [] && this.place == place
    {
      this.place := place;
      next := null;
      segv := seq(SGL_SEGSIZE, _ => FREE);
    }
  }

  /** The nodes of a list, from its first to its last. */
  ghost predicate Chain(spine: seq<Sgl>)
    reads set i | 0 <= i < |spine| :: spine[i]`next
  {
    && |spine| > 0
    && (forall i :: 0 <= i < |spine| - 1 ==> spine[i].next == spine[i + 1])
    && spine[|spine| - 1].next == null
    && (forall i :: 0 <= i < |spine| ==> spine[i].place == i)
  }

  /** The slots in use of a node hold the pages. */
  ghost predicate Carries(node: Sgl, pages: seq<Page>)
    reads node`segv
  {
    WellUsed(node.segv) && PagesOf(node.segv) == pages
  }

  ghost predicate Holds(spine: seq<Sgl>, nodes: Nodes)
    reads spine
  {
    Chain(spine) && |nodes| == |spine| && forall i :: 0 <= i < |spine| ==> Carries(spine[i], nodes[i])
  }

  /** Slot i of node is the one that sgl_append has handed out for the page after those of nodes. */
  ghost predicate HandedOut(spine: seq<Sgl>, nodes: Nodes, node: Sgl, i: nat)
    reads spine
  {
    && nodes != [] && |nodes| <= |spine| && node == spine[|nodes| - 1]
    && i == NextSlot(nodes) < Used(node.segv)
    && Holds(spine, Store(nodes, Content(node.segv[i])))
  }

  lemma UseNext(segv: seq<Segment>, seg: Segment)
    requires WellUsed(segv) && Used(segv) < SGL_SEGSIZE
    requires seg.sbuf.Some? && |seg.sbuf.value| == SGL_PAGESIZE && seg.slen < SGL_PAGESIZE
    ensures var r := segv[Used(segv) := seg];
            WellUsed(r) && Used(r) == Used(segv) + 1 && PagesOf(r) == PagesOf(segv) + [Content(seg)]
  {
    UsedIs(segv[Used(segv) := seg], Used(segv) + 1);
  }

  lemma UseAgain(segv: seq<Segment>, i: nat, seg: Segment)
    requires WellUsed(segv) && i < Used(segv)
    requires seg.sbuf.Some? && |seg.sbuf.value| == SGL_PAGESIZE && seg.slen < SGL_PAGESIZE
    ensures var r := segv[i := seg];
            WellUsed(r) && Used(r) == Used(segv) && PagesOf(r) == PagesOf(segv)[i := Content(seg)]
  {
    UsedIs(segv[i := seg], Used(segv));
  }

  lemma ContentLength(segv: seq<Segment>, page: Page)
    requires WellUsed(segv) && Used(segv) > 0 && |page| == SGL_PAGESIZE
    ensures |PagesOf(segv)[0]| == |Content(segv[0].(sbuf := Some(page)))|
  {
    assert PagesOf(segv)[0] == Content(segv[0]);
  }

  /** malloc: a page of indeterminate contents. */
  method NewPage() returns (page: Page)
    ensures |page| == SGL_PAGESIZE
  {
    var memory := new Label[SGL_PAGESIZE];
    page := memory[..];
  }

  method LastNode(first: Sgl, ghost spine: seq<Sgl>) returns (node: Sgl)
    requires Chain(spine) && first == spine[0]
    ensures node == spine[|spine| - 1]
  {
    node := first;
    ghost var k := 0;
    while node.next != null
      invariant 0 <= k < |spine| && node == spine[k]
      invariant k < |spine| - 1 ==> node.next == spine[k + 1]
      decreases |spine| - k
    {
      node := node.next;
      k := k + 1;
    }
  }

  method FirstFree(segv: seq<Segment>) returns (i: nat)
    requires WellUsed(segv)
    ensures i == Used(segv)
  {
    i := 0;
    while i < SGL_SEGSIZE && segv[i].sbuf != None
      invariant 0 <= i <= Used(segv)
    {
      i := i + 1;
    }
  }

  /** Changes the slots of one node. */
  method SetSlots(node: Sgl, segv: seq<Segment>, ghost spine: seq<Sgl>, ghost nodes: Nodes, ghost k: nat)
    requires Holds(spine, nodes) && k < |spine| && node == spine[k] && WellUsed(segv)
    modifies node`segv
    ensures Holds(spine, nodes[k := PagesOf(segv)]) && node.segv == segv
  {
    node.segv := segv;
    assert forall i :: 0 <= i < |spine| && i != k ==> spine[i].place != node.place && Carries(spine[i], nodes[i]);
  }

  /** The last node has a free slot. */
  method UseFreeSlot(node: Sgl, i: nat, ghost spine: seq<Sgl>, ghost nodes: Nodes)
    requires Holds(spine, nodes) && node == spine[|spine| - 1] && i == Used(node.segv) < SGL_SEGSIZE
    modifies node`segv
    ensures HandedOut(spine, nodes, node, i) && Content(node.segv[i]) == []
  {
    var page := NewPage();
    var seg := node.segv[i].(sbuf := Some(page));
    assert Carries(node, nodes[|spine| - 1]) && node.segv[i] == FREE && Content(seg) == [];
    UseNext(node.segv, seg);
    SetSlots(node, node.segv[i := seg], spine, nodes, |spine| - 1);
    assert Store(nodes, []) == nodes[|spine| - 1 := nodes[|spine| - 1] + [[]]];
  }

  /** Writes a slot in use. */
  method Rewrite(node: Sgl, i: nat, seg: Segment, ghost spine: seq<Sgl>, ghost nodes: Nodes, ghost k: nat)
    requires Holds(spine, nodes) && k < |spine| && node == spine[k] && i < Used(node.segv)
    requires seg.sbuf.Some? && |seg.sbuf.value| == SGL_PAGESIZE && seg.slen < SGL_PAGESIZE
    modifies node`segv
    ensures Holds(spine, nodes[k := nodes[k][i := Content(seg)]]) && node.segv == old(node.segv)[i := seg]
  {
    assert Carries(node, nodes[k]);
    UseAgain(node.segv, i, seg);
    SetSlots(node, node.segv[i := seg], spine, nodes, k);
  }

  /** A node whose `next` is null, behind a list whose last `next` is that node. */
  lemma ChainGrows(spine: seq<Sgl>, added: Sgl)
    requires spine != [] && spine[|spine| - 1].next == added && added.next == null && added.place == |spine|
    requires forall i :: 0 <= i < |spine| - 1 ==> spine[i].next == spine[i + 1]
    requires forall i :: 0 <= i < |spine| ==> spine[i].place == i
    ensures Chain(spine + [added])
  {
  }

  /** Links an empty node behind the last. */
  method Link(node: Sgl, ghost spine: seq<Sgl>, ghost nodes: Nodes) returns (ghost spine': seq<Sgl>)
    requires Holds(spine, nodes) && node == spine[|spine| - 1]
    modifies node`next
    ensures Holds(spine', nodes + [[]])
    ensures |spine'| == |spine| + 1 && spine == spine'[..|spine|] && fresh(spine'[|spine|])
  {
    var added := new Sgl(|spine|);
    node.next := added;
    spine' := spine + [added];
    ChainGrows(spine, added);
    assert forall i :: 0 <= i < |spine| ==> Carries(spine[i], nodes[i]) && spine'[i] == spine[i];
    assert Carries(added, []);
  }

  /** The last node is full: an empty node is linked behind it, and its slot 0 gets a fresh page. */
  method LinkNode(node: Sgl, ghost spine: seq<Sgl>, ghost nodes: Nodes) returns (ghost spine': seq<Sgl>)
    requires Holds(spine, nodes) && node == spine[|spine| - 1] && Used(node.segv) == SGL_SEGSIZE
    modifies node
    ensures HandedOut(spine', nodes, node, 0) && |Content(node.segv[0])| == |nodes[|nodes| - 1][0]|
    ensures |spine'| == |spine| + 1 && spine == spine'[..|spine|] && fresh(spine'[|spine|])
  {
    spine' := Link(node, spine, nodes);
    var page := NewPage();
    var seg := node.segv[0].(sbuf := Some(page));
    ContentLength(node.segv, page);
    StoreInFull(nodes, Content(seg));
    Rewrite(node, 0, seg, spine', nodes + [[]], |spine| - 1);
    assert node.segv[0] == seg;
  }

  /** Hands out a slot with a fresh page: the first free slot of the last node or, when that node is full,
      slot 0 of the same node again, behind which an empty node has been linked. */
  method SglAppend(first: Sgl, ghost spine: seq<Sgl>, ghost nodes: Nodes)
    returns (node: Sgl, i: nat, ghost spine': seq<Sgl>)
    requires Holds(spine, nodes) && first == spine[0]
    modifies spine[|spine| - 1]
    ensures HandedOut(spine', nodes, node, i) && Unfilled(nodes, Content(node.segv[i]))
    ensures spine <= spine' && node == spine[|spine| - 1] && forall j :: |spine| <= j < |spine'| ==> fresh(spine'[j])
  {
    node := LastNode(first, spine);
    i := FirstFree(node.segv);
    spine' := spine;
    if i < SGL_SEGSIZE {
      UseFreeSlot(node, i, spine, nodes);
    } else {
      i := 0;
      spine' := LinkNode(node, spine, nodes);
    }
  }

  /** Writes the slot handed out. */
  method WriteSlot(node: Sgl, i: nat, seg: Segment, ghost spine: seq<Sgl>, ghost nodes: Nodes)
    requires HandedOut(spine, nodes, node, i)
    requires seg.sbuf.Some? && |seg.sbuf.value| == SGL_PAGESIZE && seg.slen < SGL_PAGESIZE
    modifies node`segv
    ensures Holds(spine, Store(nodes, Content(seg)))
  {
    StoreRewrites(nodes, Content(node.segv[i]), Content(seg));
    Rewrite(node, i, seg, spine, Store(nodes, Content(node.segv[i])), |nodes| - 1);
  }

  /** Appends the pages of one node; an overrun of the buffer would abort. */
  method JoinNode(rbuf: array<Label>, sz: nat, start: nat, segv: seq<Segment>) returns (rlen: nat)
    requires WellUsed(segv) && start + |Concat(PagesOf(segv))| < sz <= rbuf.Length
    modifies rbuf
    ensures rlen == start + |Concat(PagesOf(segv))|
    ensures rbuf[..rlen] == old(rbuf[..start]) + Concat(PagesOf(segv))
  {
    ghost var pages := PagesOf(segv);
    rlen := start;
    var i := 0;
    while i < SGL_SEGSIZE && segv[i].sbuf != None
      invariant 0 <= i <= |pages|
      invariant rlen == start + |Concat(pages[..i])| < sz
      invariant rbuf[..rlen] == old(rbuf[..start]) + Concat(pages[..i])
    {
      ConcatStepBehind(old(rbuf[..start]), pages, i);
      ConcatStep(pages, i);
      ConcatIsMonotone(pages, i + 1);
      assert pages[i] == segv[i].sbuf.value[..segv[i].slen];
      if rlen + segv[i].slen > sz {
        assert false;
      }
      CopyIn(rbuf, rlen, segv[i].sbuf.value[..segv[i].slen]);
      rlen := rlen + segv[i].slen;
      i := i + 1;
    }
    assert pages[..i] == pages;
  }

  /** Joins the pages of all nodes and ends them with a NUL. */
  method SglStrBuild(rbuf: array<Label>, sz: nat, first: Sgl, ghost spine: seq<Sgl>, ghost nodes: Nodes)
    requires Holds(spine, nodes) && first == spine[0]
    requires |Text(nodes)| < sz <= rbuf.Length
    modifies rbuf
    ensures rbuf[..|Text(nodes)|] == Text(nodes) && rbuf[|Text(nodes)|] == NUL
  {
    var rlen := 0;
    var sglp: Sgl? := first;
    ghost var k := 0;
    while sglp != null
      invariant 0 <= k <= |spine| && (if k < |spine| then sglp == spine[k] else sglp == null)
      invariant rlen == |Text(nodes[..k])| < sz && rbuf[..rlen] == Text(nodes[..k])
      decreases |spine| - k
    {
      TextStep(nodes, k);
      TextIsMonotone(nodes, k + 1);
      rlen := JoinNode(rbuf, sz, rlen, sglp.segv);
      sglp := sglp.next;
      k := k + 1;
    }
    assert nodes[..k] == nodes;
    rbuf[rlen] := NUL;
  }

  method CopyIn(buf: array<Label>, at: nat, src: Page)
    requires at + |src| <= buf.Length
    modifies buf
    ensures buf[..at + |src|] == old(buf[..at]) + src
  {
    for i := 0 to |src|
      invariant forall j :: 0 <= j < i ==> buf[at + j] == src[j]
      invariant buf[..at] == old(buf[..at])
    {
      buf[at + i] := src[i];
    }
  }

  method NodeLength(segv: seq<Segment>) returns (llen: nat)
    requires WellUsed(segv)
    ensures llen == |Concat(PagesOf(segv))|
  {
    ghost var pages := PagesOf(segv);
    llen := 0;
    var i := 0;
    while i < SGL_SEGSIZE && segv[i].sbuf != None
      invariant 0 <= i <= |pages| && llen == |Concat(pages[..i])|
    {
      ConcatStep(pages, i);
      llen := llen + segv[i].slen;
      i := i + 1;
    }
    assert pages[..i] == pages;
  }

  method SglStrlen(first: Sgl, ghost spine: seq<Sgl>, ghost nodes: Nodes) returns (llen: nat)
    requires Holds(spine, nodes) && first == spine[0]
    ensures llen == |Text(nodes)|
  {
    llen := 0;
    var sglp: Sgl? := first;
    ghost var k := 0;
    while sglp != null
      invariant 0 <= k <= |spine| && (if k < |spine| then sglp == spine[k] else sglp == null)
      invariant llen == |Text(nodes[..k])|
      decreases |spine| - k
    {
      TextStep(nodes, k);
      var n := NodeLength(sglp.segv);
      llen := llen + n;
      sglp := sglp.next;
      k := k + 1;
    }
    assert nodes[..k] == nodes;
  }

  class Stream {
    const data: CString
    var pos: nat

    ghost predicate Valid()
      reads this
    {
      pos <= |data|
    }

    constructor (data: CString)
      ensures Valid() && this.data == data && pos == 0
    {
      this.data := data;
      pos := 0;
    }

    /** fgets with a page-sized buffer: the characters read, or None at the end of the data. */
    method Fgets() returns (chars: Option<CString>)
      requires Valid()
      modifies this
      ensures Valid()
      ensures old(data[pos..]) == [] ==> chars == None && pos == old(pos)
      ensures old(data[pos..]) != [] ==> chars == Some(Chunk(old(data[pos..]))) && pos == old(pos) + |chars.value|
    {
      if pos == |data| {
        return None;
      }
      chars := Some(Chunk(data[pos..]));
      pos := pos + |chars.value|;
    }
  }

  /** The page after fgets has stored chars in it; a final newline is overwritten. */
  method Receive(page: Page, chars: CString) returns (mem: Page, slen: nat, done: bool)
    requires |page| == SGL_PAGESIZE && 0 < |chars| < SGL_PAGESIZE
    ensures done == (chars[|chars| - 1] == NEWLINE)
    ensures |mem| == SGL_PAGESIZE && slen < SGL_PAGESIZE && mem[..slen] == Taken(chars)
  {
    var behind := page[|chars| + 1..];
    mem := chars + [NUL] + behind;
    CStrOfTerminated(chars, behind);
    slen := |CStr(mem)|;
    assert mem[..slen] == chars;
    assert mem[slen - 1] == chars[slen - 1];
    done := slen > 0 && mem[slen - 1] == NEWLINE;
    if done {
      slen := slen - 1;
      mem := mem[slen := NUL];
      assert mem[..slen] == chars[..slen];
    }
  }

  /** Writes what fgets stored into the slot handed out and records the length. */
  method TakeIn(node: Sgl, i: nat, chars: CString, ghost spine: seq<Sgl>, ghost nodes: Nodes)
    returns (slen: nat, done: bool)
    requires HandedOut(spine, nodes, node, i) && 0 < |chars| < SGL_PAGESIZE
    modifies node`segv
    ensures done == (chars[|chars| - 1] == NEWLINE)
    ensures slen == |Taken(chars)| && Holds(spine, Store(nodes, Taken(chars)))
  {
    var mem;
    mem, slen, done := Receive(node.segv[i].sbuf.value, chars);
    WriteSlot(node, i, Segment(Some(mem), slen), spine, nodes);
  }

  /** fgets into the slot handed out; at the end of the data the slot stays as it is. */
  method ReadInto(f: Stream, node: Sgl, i: nat, ghost rest: CString, ghost spine: seq<Sgl>, ghost nodes: Nodes)
    returns (slen: nat, end: bool, done: bool, ghost page: Page)
    requires f.Valid() && rest == f.data[f.pos..]
    requires HandedOut(spine, nodes, node, i) && Unfilled(nodes, Content(node.segv[i]))
    modifies f, node`segv
    ensures f.Valid() && Holds(spine, Store(nodes, page))
    ensures PageRead(rest, nodes, end, done, page)
    ensures end ==> f.pos == old(f.pos)
    ensures !end ==> slen == |page| && f.pos == old(f.pos) + slen + if done then 1 else 0
  {
    page := Content(node.segv[i]);
    var chars := f.Fgets();
    slen, end, done := 0, chars == None, true;
    if chars.Some? {
      slen, done := TakeIn(node, i, chars.value, spine, nodes);
      page := Taken(chars.value);
    }
  }

  /** One turn of the loop that reads a line. */
  method NextPage(f: Stream, first: Sgl, ghost rest: CString, ghost spine: seq<Sgl>, ghost nodes: Nodes)
    returns (slen: nat, end: bool, done: bool, ghost spine': seq<Sgl>, ghost page: Page)
    requires f.Valid() && rest == f.data[f.pos..] && Holds(spine, nodes) && first == spine[0]
    modifies f, spine[|spine| - 1]
    ensures f.Valid() && Holds(spine', Store(nodes, page))
    ensures spine <= spine' && forall j :: |spine| <= j < |spine'| ==> fresh(spine'[j])
    ensures PageRead(rest, nodes, end, done, page)
    ensures end ==> f.pos == old(f.pos)
    ensures !end ==> slen == |page| && f.pos == old(f.pos) + slen + if done then 1 else 0
  {
    var node, i;
    node, i, spine' := SglAppend(first, spine, nodes);
    slen, end, done, page := ReadInto(f, node, i, rest, spine', nodes);
  }

  method NewList() returns (first: Sgl, ghost spine: seq<Sgl>)
    ensures spine == [first] && fresh(first) && Holds(spine, [[]])
  {
    first := new Sgl(0);
    spine := [first];
  }

  lemma StretchBehind(data: CString, i: nat, j: nat)
    requires i <= j <= |data|
    ensures data[j..] == data[i..][j - i..]
  {
  }

  /** One turn of the loop and what it means for the line. */
  method Turn(f: Stream, first: Sgl, llen: nat, ghost start: CString, ghost pages: seq<Page>, ghost rest: CString,
              ghost spine: seq<Sgl>, ghost nodes: Nodes)
    returns (llen': nat, atEnd: bool, done: bool, ghost pages': seq<Page>, ghost rest': CString,
             ghost spine': seq<Sgl>, ghost nodes': Nodes)
    requires f.Valid() && rest == f.data[f.pos..] && Holds(spine, nodes) && first == spine[0]
    requires Reading(start, pages, nodes, rest, llen)
    modifies f, spine[|spine| - 1]
    ensures f.Valid() && rest' == f.data[f.pos..] && Holds(spine', nodes') && first == spine'[0]
    ensures spine'[|spine'| - 1] == spine[|spine| - 1] || fresh(spine'[|spine'| - 1])
    ensures f.pos == old(f.pos) + (llen' - llen) + if !atEnd && done then 1 else 0
    ensures if atEnd || done then Finished(start, nodes', llen', atEnd)
            else Reading(start, pages', nodes', rest', llen') && f.pos > old(f.pos)
  {
    var slen;
    ghost var page;
    slen, atEnd, done, spine', page := NextPage(f, first, rest, spine, nodes);
    llen' := if atEnd then llen else llen + slen;
    nodes', pages', rest' := Store(nodes, page), pages + [page], f.data[f.pos..];
    StretchBehind(f.data, old(f.pos), f.pos);
    TurnMeans(start, pages, nodes, rest, llen, atEnd, done, page, rest');
  }

  /** Reads pages up to a newline or the end of the data. */
  method ReadPages(f: Stream, ghost start: CString)
    returns (first: Sgl, llen: nat, atEnd: bool, ghost spine: seq<Sgl>, ghost nodes: Nodes)
    requires f.Valid() && start == f.data[f.pos..]
    modifies f
    ensures f.Valid() && Holds(spine, nodes) && first == spine[0]
    ensures Finished(start, nodes, llen, atEnd)
    ensures f.pos == old(f.pos) + llen + (if atEnd then 0 else 1)
  {
    first, spine := NewList();
    nodes, llen := [[]], 0;
    ghost var rest, pages: seq<Page> := start, [];
    ReadingBegins(start);
    while true
      invariant f.Valid() && Holds(spine, nodes) && first == spine[0]
      invariant fresh(spine[|spine| - 1])
      invariant rest == f.data[f.pos..] && Reading(start, pages, nodes, rest, llen) && f.pos == old(f.pos) + llen
      decreases |f.data| - f.pos
    {
      var done;
      llen, atEnd, done, pages, rest, spine, nodes := Turn(f, first, llen, start, pages, rest, spine, nodes);
      if atEnd || done {
        break;
      }
    }
  }

  /** The line buffer: exactly the length read and a NUL. */
  method JoinPages(first: Sgl, llen: nat, ghost spine: seq<Sgl>, ghost nodes: Nodes) returns (rbuf: array<Label>)
    requires Holds(spine, nodes) && first == spine[0] && |Text(nodes)| <= llen
    ensures fresh(rbuf) && rbuf.Length == llen + 1
    ensures rbuf[..|Text(nodes)|] == Text(nodes) && rbuf[|Text(nodes)|] == NUL
  {
    rbuf := new Label[llen + 1];
    SglStrBuild(rbuf, llen + 1, first, spine, nodes);
  }

  /** Reads one line and joins its pages. */
  method ReadLine(f: Stream, ghost start: CString)
    returns (first: Sgl, rbuf: array<Label>, llen: nat, atEnd: bool,
             ghost spine: seq<Sgl>, ghost nodes: Nodes, ghost text: seq<Label>)
    requires f.Valid() && start == f.data[f.pos..]
    modifies f
    ensures f.Valid() && Delivered(start, text, llen) && atEnd == !HasNewline(start)
    ensures Holds(spine, nodes) && first == spine[0] && text == Text(nodes)
    ensures fresh(rbuf) && rbuf.Length == llen + 1 && rbuf[..|text|] == text && rbuf[|text|] == NUL
    ensures f.pos == old(f.pos) + llen + (if atEnd then 0 else 1)
  {
    first, llen, atEnd, spine, nodes := ReadPages(f, start);
    FinishedDelivers(start, nodes, llen, atEnd);
    text := Text(nodes);
    rbuf := JoinPages(first, llen, spine, nodes);
  }

  class Linebuf {
    const f: Stream
    var buf: array?<Label>
    var sgl: Sgl?
    var len: nat
    var eof: bool

    constructor (f: Stream)
      ensures this.f == f && buf == null && sgl == null && len == 0 && !eof
    {
      this.f := f;
      buf, sgl, len, eof := null, null, 0, false;
    }

    /** One line, of which start is the rest of the data. The ghost results are the nodes left in sgl, their pages
        and the joined text, so SglStrlen(sgl) is |text|. */
    method SglFgetline(ghost start: CString)
      returns (ghost spine: seq<Sgl>, ghost nodes: Nodes, ghost text: seq<Label>)
      requires f.Valid() && start == f.data[f.pos..]
      modifies this, f
      ensures f.Valid() && Delivered(start, text, len)
      ensures Holds(spine, nodes) && sgl == spine[0] && text == Text(nodes)
      ensures buf != null && buf.Length == len + 1 && buf[..|text|] == text && buf[|text|] == NUL
      ensures f.pos == old(f.pos) + len + (if 10 in start then 1 else 0)
      ensures eof == (old(eof) || 10 !in start)
    {
      NewlineEndsLine(start);
      var first, rbuf, llen, atEnd;
      first, rbuf, llen, atEnd, spine, nodes, text := ReadLine(f, start);
      Keep(first, rbuf, llen, atEnd);
    }

    /** The fields that describe the line. */
    method Keep(first: Sgl, rbuf: array<Label>, llen: nat, atEnd: bool)
      modifies this
      ensures sgl == first && buf == rbuf && len == llen && eof == (old(eof) || atEnd)
    {
      sgl, buf, len := first, rbuf, llen;
      eof := eof || atEnd;
    }
  }
}
