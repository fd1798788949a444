/** What a line becomes when it is read page by page into a scatter/gather list, as values
    (src/libcscript/sgl-getline.c). */
module Lines {
  import opened CStrings

  const SGL_SEGSIZE: nat := 64
  const SGL_PAGESIZE: nat := 1024
  const NEWLINE: Char := 10

  /** Characters that the pages of one node hold. */
  const NODE_ROOM := SGL_SEGSIZE * (SGL_PAGESIZE - 1)

  type Page = seq<Label>

  /** The pages of each node of the list. */
  type Nodes = seq<seq<Page>>

  /** The line itself: everything before the first newline. */
  function LineOf(rest: CString): (line: CString)
    ensures line <= rest && NEWLINE !in line
    ensures line == rest || rest[|line|] == NEWLINE
  {
    if rest == [] || rest[0] == NEWLINE then [] else [rest[0]] + LineOf(rest[1..])
  }

  /** The line ends with a newline and not with the data. */
  predicate HasNewline(rest: CString) {
    |LineOf(rest)| < |rest|
  }

  lemma NewlineEndsLine(rest: CString)
    ensures HasNewline(rest) <==> 10 in rest
  {
    if HasNewline(rest) {
      assert rest[|LineOf(rest)|] == 10;
    }
  }

  /** What one call of fgets reads: at most SGL_PAGESIZE - 1 characters, and nothing behind a newline. */
  function Chunk(rest: CString): (c: CString)
    requires rest != []
    ensures 0 < |c| < SGL_PAGESIZE && c <= rest
  {
    var line := LineOf(rest);
    if |line| >= SGL_PAGESIZE - 1 then rest[..SGL_PAGESIZE - 1]
    else if line == rest then rest
    else rest[..|line| + 1]
  }

  /** The page that a chunk leaves in the list: a final newline is dropped. */
  function Taken(c: CString): Page
    requires c != []
  {
    if c[|c| - 1] == NEWLINE then c[..|c| - 1] else c
  }

  /** The pages that reading one line fills, its newline dropped. */
  function LinePages(rest: CString): seq<Page>
    decreases |rest|
  {
    if rest == [] then []
    else
      var c := Chunk(rest);
      [Taken(c)] + if c[|c| - 1] == NEWLINE then [] else LinePages(rest[|c|..])
  }

  function Concat(pages: seq<Page>): seq<Label> {
    if pages == [] then [] else Concat(pages[..|pages| - 1]) + pages[|pages| - 1]
  }

  function Text(nodes: Nodes): seq<Label> {
    if nodes == [] then [] else Text(nodes[..|nodes| - 1]) + Concat(nodes[|nodes| - 1])
  }

  /** Filling the next page. When the last node is full a new node is linked, but the page goes to slot 0 of
      the full one. */
  function Store(nodes: Nodes, page: Page): (r: Nodes)
    requires nodes != []
    ensures r != []
  {
    var n := |nodes| - 1;
    if |nodes[n]| < SGL_SEGSIZE then nodes[n := nodes[n] + [page]]
    else nodes[n := nodes[n][0 := page]] + [[]]
  }

  function Fill(pages: seq<Page>): (nodes: Nodes)
    ensures nodes != []
  {
    if pages == [] then [[]] else Store(Fill(pages[..|pages| - 1]), pages[|pages| - 1])
  }

  // ----- the pages of a line make up the line

  lemma LongerHasNewline(rest: CString, a: CString, b: CString)
    requires b <= rest && |a| < |b| && rest[|a|] == NEWLINE
    ensures NEWLINE in b
  {
    assert b[|a|] == rest[|a|];
  }

  lemma LineOfIsUnique(rest: CString, line: CString)
    requires line <= rest && NEWLINE !in line && (line == rest || rest[|line|] == NEWLINE)
    ensures line == LineOf(rest)
  {
    var l := LineOf(rest);
    if |line| < |l| {
      LongerHasNewline(rest, line, l);
    } else if |l| < |line| {
      LongerHasNewline(rest, l, line);
    }
    assert line == rest[..|line|] && l == rest[..|l|];
  }

  lemma {:induction false} ConcatFront(page: Page, pages: seq<Page>)
    ensures Concat([page] + pages) == page + Concat(pages)
  {
    if pages == [] {
      assert [page] + pages == [page];
      assert [page][..0] == [];
    } else {
      var n := |pages| - 1;
      assert ([page] + pages)[..n + 1] == [page] + pages[..n];
      ConcatFront(page, pages[..n]);
    }
  }

  /** A chunk is the rest of the line, or a full page of it. */
  lemma ChunkOfLine(rest: CString)
    requires rest != []
    ensures var c := Chunk(rest);
            if c[|c| - 1] == NEWLINE then LineOf(rest) == c[..|c| - 1]
            else
              && LineOf(rest) == c + LineOf(rest[|c|..])
              && (HasNewline(rest) ==> |c| == SGL_PAGESIZE - 1)
              && (HasNewline(rest) <==> HasNewline(rest[|c|..]))
  {
    var c, line := Chunk(rest), LineOf(rest);
    if |c| <= |line| {
      var tail := rest[|c|..];
      assert rest == c + tail;
      assert c == line[..|c|];
      assert forall i :: 0 <= i < |c| ==> c[i] == line[i];
      LineOfIsUnique(rest, c + LineOf(tail));
    }
  }

  lemma {:induction false} PagesMakeLine(rest: CString)
    ensures Concat(LinePages(rest)) == LineOf(rest)
    decreases |rest|
  {
    if rest != [] {
      var c := Chunk(rest);
      ChunkOfLine(rest);
      if c[|c| - 1] == NEWLINE {
        ConcatFront(Taken(c), []);
        assert [Taken(c)] + [] == [Taken(c)];
      } else {
        PagesMakeLine(rest[|c|..]);
        ConcatFront(c, LinePages(rest[|c|..]));
      }
    }
  }

  lemma ChunkLength(rest: CString)
    requires HasNewline(rest)
    ensures var c := Chunk(rest);
            if c[|c| - 1] == NEWLINE then |LineOf(rest)| == |c| - 1
            else
              && |c| == SGL_PAGESIZE - 1 && HasNewline(rest[|c|..])
              && |LineOf(rest)| == |c| + |LineOf(rest[|c|..])|
  {
    ChunkOfLine(rest);
  }

  /** A line of n characters and its newline fill the pages of SGL_PAGESIZE - 1 characters that hold n + 1. */
  lemma {:induction false} PageCount(rest: CString)
    requires HasNewline(rest)
    ensures var m := |LinePages(rest)|;
            0 < m && 1023 * (m - 1) < |LineOf(rest)| + 1 <= 1023 * m
    ensures |LinePages(rest)| > 1 ==> |LinePages(rest)[0]| == SGL_PAGESIZE - 1
    decreases |rest|
  {
    var c := Chunk(rest);
    ChunkLength(rest);
    if c[|c| - 1] != NEWLINE {
      PageCount(rest[|c|..]);
    }
  }

  lemma ConcatStep(pages: seq<Page>, i: nat)
    requires i < |pages|
    ensures Concat(pages[..i + 1]) == Concat(pages[..i]) + pages[i]
  {
    assert pages[..i + 1][..i] == pages[..i];
  }

  lemma ConcatStepBehind(before: seq<Label>, pages: seq<Page>, i: nat)
    requires i < |pages|
    ensures before + Concat(pages[..i]) + pages[i] == before + Concat(pages[..i + 1])
  {
    ConcatStep(pages, i);
  }

  lemma TextStep(nodes: Nodes, k: nat)
    requires k < |nodes|
    ensures Text(nodes[..k + 1]) == Text(nodes[..k]) + Concat(nodes[k])
  {
    assert nodes[..k + 1][..k] == nodes[..k];
  }

  lemma {:induction false} ConcatIsMonotone(pages: seq<Page>, i: nat)
    requires i <= |pages|
    ensures |Concat(pages[..i])| <= |Concat(pages)|
    decreases |pages| - i
  {
    if i < |pages| {
      ConcatStep(pages, i);
      ConcatIsMonotone(pages, i + 1);
    } else {
      assert pages[..i] == pages;
    }
  }

  lemma {:induction false} TextIsMonotone(nodes: Nodes, k: nat)
    requires k <= |nodes|
    ensures |Text(nodes[..k])| <= |Text(nodes)|
    decreases |nodes| - k
  {
    if k < |nodes| {
      TextStep(nodes, k);
      TextIsMonotone(nodes, k + 1);
    } else {
      assert nodes[..k] == nodes;
    }
  }

  // ----- up to one node of pages the list holds the line; beyond it loses the first page

  lemma {:induction false} FillOneNode(pages: seq<Page>)
    requires |pages| <= SGL_SEGSIZE
    ensures Fill(pages) == [pages]
  {
    if pages != [] {
      var n := |pages| - 1;
      FillOneNode(pages[..n]);
      assert pages[..n] + [pages[n]] == pages;
    }
  }

  lemma {:induction false} ConcatLengthAfter(pages: seq<Page>, i: nat, page: Page)
    requires i < |pages|
    ensures |Concat(pages[i := page])| == |Concat(pages)| - |pages[i]| + |page|
  {
    var n := |pages| - 1;
    if i < n {
      assert pages[i := page][..n] == pages[..n][i := page];
      ConcatLengthAfter(pages[..n], i, page);
    } else {
      assert pages[i := page][..n] == pages[..n];
    }
  }

  lemma TextAfterStore(nodes: Nodes, page: Page)
    requires nodes != []
    ensures var last := nodes[|nodes| - 1];
            |Text(Store(nodes, page))| ==
            |Text(nodes)| + |page| - (if |last| < SGL_SEGSIZE then 0 else |last[0]|)
  {
    var n := |nodes| - 1;
    var last := nodes[n];
    var r := Store(nodes, page);
    assert r[..n] == nodes[..n];
    if |last| < SGL_SEGSIZE {
      assert (last + [page])[..|last|] == last;
    } else {
      var changed := nodes[n := last[0 := page]];
      assert r[..n + 1] == changed;
      assert changed[..n] == nodes[..n];
      ConcatLengthAfter(last, 0, page);
    }
  }

  lemma {:induction false} FillLosesPages(pages: seq<Page>)
    ensures |Text(Fill(pages))| <= |Concat(pages)|
    ensures |pages| > SGL_SEGSIZE && |pages[0]| > 0 ==> |Text(Fill(pages))| < |Concat(pages)|
  {
    if pages == [] {
      var none: Nodes := [[]];
      assert none[..0] == [];
    } else {
      var n := |pages| - 1;
      FillLosesPages(pages[..n]);
      TextAfterStore(Fill(pages[..n]), pages[n]);
      if n == SGL_SEGSIZE {
        FillOneNode(pages[..n]);
      }
    }
  }

  /** For every newline-terminated line: the list holds the line exactly when the line, with its newline, has
      at most NODE_ROOM characters; in any case it holds no more than the line has. */
  lemma ListHoldsRest(rest: CString)
    requires HasNewline(rest)
    ensures Text(Fill(LinePages(rest))) == LineOf(rest) <==>
            |LineOf(rest)| + 1 <= NODE_ROOM
    ensures |Text(Fill(LinePages(rest)))| <= |LineOf(rest)|
    ensures |Text(Fill(LinePages(rest)))| == |LineOf(rest)| <==> |LineOf(rest)| + 1 <= NODE_ROOM
  {
    var pages := LinePages(rest);
    PageCount(rest);
    PagesMakeLine(rest);
    FillLosesPages(pages);
    if |pages| <= SGL_SEGSIZE {
      FillOneNode(pages);
      var one: Nodes := [pages];
      assert one[..0] == [];
    }
  }

  /** The list holds a line that ends with a newline exactly when line and newline together have at most 64 pages of
      1023 characters; beyond that it holds less. */
  lemma ListHoldsLine(line: CString, more: CString)
    requires 10 !in line
    ensures var text := Text(Fill(LinePages(line + [10] + more)));
            && |text| <= |line|
            && (text == line <==> |line| + 1 <= 64 * 1023) && (|text| == |line| <==> |line| + 1 <= 64 * 1023)
  {
    LineIs(line, more);
    ListHoldsRest(line + [10] + more);
  }

  lemma LineIs(line: CString, more: CString)
    requires 10 !in line
    ensures LineOf(line + [10] + more) == line && HasNewline(line + [10] + more)
  {
    var rest := line + [10] + more;
    assert rest[..|line|] == line && rest[|line|] == 10;
    LineOfIsUnique(rest, line);
  }

  /** A last line without newline. */
  lemma {:induction false} PageCountOfRest(rest: CString)
    requires 10 !in rest && rest != []
    ensures LineOf(rest) == rest
    ensures var m := |LinePages(rest)|; 0 < m && 1023 * (m - 1) < |rest| <= 1023 * m
    decreases |rest|
  {
    LineOfIsUnique(rest, rest);
    var c := Chunk(rest);
    if |c| < |rest| {
      PageCountOfRest(rest[|c|..]);
    } else {
      assert rest[|c|..] == [];
    }
  }

  /** What reading a line promises of the text in the buffer and the length that is reported, when start is the
      rest of the data: the length is that of the line, which ends at the first newline or with the data. The text
      is the line exactly when line and newline have at most 64 pages of 1023 characters; without a newline 63 pages
      suffice. */
  ghost predicate Delivered(start: CString, text: seq<Label>, len: nat) {
    && |text| <= len <= |start| && 10 !in start[..len] && (len < |start| ==> start[len] == 10)
    && (len < |start| ==> (text == start[..len] <==> len + 1 <= 64 * 1023) && (|text| == len <==> len + 1 <= 64 * 1023))
    && (len == |start| && len <= 63 * 1023 ==> text == start)
  }

  /** For a line, its newline and whatever follows. */
  lemma LineIsDelivered(line: CString, more: CString, text: seq<Label>, len: nat)
    requires 10 !in line && Delivered(line + [10] + more, text, len)
    ensures len == |line| && (text == line <==> |line| + 1 <= 64 * 1023)
  {
    var start := line + [10] + more;
    LineIs(line, more);
    LineOfIsUnique(start, start[..len]);
  }

  /** For a last line without a newline. */
  lemma LastLineIsDelivered(line: CString, text: seq<Label>, len: nat)
    requires 10 !in line && Delivered(line, text, len)
    ensures len == |line| && (|line| <= 63 * 1023 ==> text == line)
  {
    LineOfIsUnique(line, line);
    LineOfIsUnique(line, line[..len]);
  }

  /** The slot of the last node that the next page goes to. */
  function NextSlot(nodes: Nodes): nat
    requires nodes != []
  {
    var last := nodes[|nodes| - 1];
    if |last| < SGL_SEGSIZE then |last| else 0
  }

  /** Only that slot tells the outcomes of two pages apart. */
  lemma StoreRewrites(nodes: Nodes, page: Page, page': Page)
    requires nodes != []
    ensures var (r, n) := (Store(nodes, page), |nodes| - 1);
            && n < |r| && NextSlot(nodes) < |r[n]|
            && Store(nodes, page') == r[n := r[n][NextSlot(nodes) := page']]
  {
    var n := |nodes| - 1;
    if |nodes[n]| < SGL_SEGSIZE {
      assert (nodes[n] + [page])[|nodes[n]| := page'] == nodes[n] + [page'];
    } else {
      assert nodes[n][0 := page][0 := page'] == nodes[n][0 := page'];
    }
  }

  lemma StoreInFull(nodes: Nodes, page: Page)
    requires nodes != [] && |nodes[|nodes| - 1]| >= SGL_SEGSIZE
    ensures var n := |nodes| - 1;
            Store(nodes, page) == (nodes + [[]])[n := (nodes + [[]])[n][0 := page]]
  {
    var n := |nodes| - 1;
    assert nodes[n := nodes[n][0 := page]] + [[]] == (nodes + [[]])[n := nodes[n][0 := page]];
  }

  /** Slot handed out but not filled, behind the pages of nodes. */
  ghost predicate Unfilled(nodes: Nodes, page: Page)
    requires nodes != []
  {
    var last := nodes[|nodes| - 1];
    if |last| < SGL_SEGSIZE then page == [] else |page| == |last[0]|
  }

  /** One page read from rest: the end of the data, the last page of the line, or a page of its middle. */
  ghost predicate PageRead(rest: CString, nodes: Nodes, end: bool, done: bool, page: Page)
    requires nodes != []
  {
    && (end <==> rest == [])
    && (end ==> Unfilled(nodes, page))
    && (!end ==> done == (Chunk(rest)[|Chunk(rest)| - 1] == NEWLINE) && page == Taken(Chunk(rest)))
  }

  /** The loop has read the pages and llen characters of the line that start begins with. */
  ghost predicate ReadSoFar(start: CString, pages: seq<Page>, rest: CString, llen: nat) {
    && pages + LinePages(rest) == LinePages(start)
    && llen == |Concat(pages)|
    && (HasNewline(start) <==> HasNewline(rest))
  }

  lemma FillOneMore(pages: seq<Page>, page: Page)
    ensures Fill(pages + [page]) == Store(Fill(pages), page)
  {
    assert (pages + [page])[..|pages|] == pages;
  }

  /** The same, with the nodes that the pages have filled. */
  ghost predicate Reading(start: CString, pages: seq<Page>, nodes: Nodes, rest: CString, llen: nat) {
    ReadSoFar(start, pages, rest, llen) && nodes == Fill(pages)
  }

  lemma ReadingBegins(start: CString)
    ensures Reading(start, [], [[]], start, 0)
  {
    var none: seq<Page> := [];
    assert none + LinePages(start) == LinePages(start);
  }

  lemma ReadingGoesOn(start: CString, pages: seq<Page>, rest: CString, llen: nat, c: CString)
    requires ReadSoFar(start, pages, rest, llen)
    requires rest != [] && c == Chunk(rest) && c[|c| - 1] != NEWLINE
    ensures ReadSoFar(start, pages + [c], rest[|c|..], llen + |c|)
  {
    assert HasNewline(start) <==> HasNewline(rest[|c|..]) by { ChunkOfLine(rest); }
    PagesRegroup(pages, c, LinePages(rest[|c|..]));
  }

  lemma PagesRegroup(pages: seq<Page>, page: Page, more: seq<Page>)
    ensures pages + ([page] + more) == pages + [page] + more
    ensures Concat(pages + [page]) == Concat(pages) + page
  {
    assert (pages + [page])[..|pages|] == pages;
  }

  lemma ReadingStops(start: CString, pages: seq<Page>, rest: CString, llen: nat)
    requires ReadSoFar(start, pages, rest, llen)
    requires rest != [] && Chunk(rest)[|Chunk(rest)| - 1] == NEWLINE
    ensures HasNewline(start) && LinePages(start) == pages + [Taken(Chunk(rest))]
    ensures |Concat(LinePages(start))| == llen + |Taken(Chunk(rest))|
  {
    assert HasNewline(rest) by { ChunkOfLine(rest); }
    PagesRegroup(pages, Taken(Chunk(rest)), []);
  }

  /** The loop is over: the pages of the line fill the list; at the end of the data one more slot is handed out. */
  ghost predicate Finished(start: CString, nodes: Nodes, llen: nat, end: bool) {
    && llen == |Concat(LinePages(start))|
    && end == !HasNewline(start)
    && if end then exists page :: Unfilled(Fill(LinePages(start)), page) && nodes == Store(Fill(LinePages(start)), page)
       else nodes == Fill(LinePages(start))
  }

  /** A turn at the end of the data. */
  lemma EndFinishes(start: CString, pages: seq<Page>, nodes: Nodes, rest: CString, llen: nat,
                    page: Page, nodes': Nodes)
    requires rest == [] && Reading(start, pages, nodes, rest, llen) && Unfilled(nodes, page)
    requires nodes' == Store(nodes, page)
    ensures Finished(start, nodes', llen, true)
  {
    assert pages + [] == pages;
  }

  /** A turn that reads the newline. */
  lemma NewlineFinishes(start: CString, pages: seq<Page>, nodes: Nodes, rest: CString, llen: nat,
                        nodes': Nodes, llen': nat)
    requires Reading(start, pages, nodes, rest, llen)
    requires rest != [] && Chunk(rest)[|Chunk(rest)| - 1] == NEWLINE
    requires nodes' == Store(nodes, Taken(Chunk(rest))) && llen' == llen + |Taken(Chunk(rest))|
    ensures Finished(start, nodes', llen', false)
  {
    ReadingStops(start, pages, rest, llen);
    FillOneMore(pages, Taken(Chunk(rest)));
  }

  /** A turn in the middle of the line. */
  lemma PageGoesOn(start: CString, pages: seq<Page>, nodes: Nodes, rest: CString, llen: nat,
                   pages': seq<Page>, nodes': Nodes, rest': CString, llen': nat)
    requires Reading(start, pages, nodes, rest, llen)
    requires rest != [] && Chunk(rest)[|Chunk(rest)| - 1] != NEWLINE
    requires pages' == pages + [Chunk(rest)] && nodes' == Store(nodes, Chunk(rest))
    requires llen' == llen + |Chunk(rest)| && rest' == rest[|Chunk(rest)|..]
    ensures Reading(start, pages', nodes', rest', llen')
  {
    ReadingGoesOn(start, pages, rest, llen, Chunk(rest));
    FillOneMore(pages, Chunk(rest));
  }

  /** One turn of the loop. */
  lemma TurnMeans(start: CString, pages: seq<Page>, nodes: Nodes, rest: CString, llen: nat,
                  end: bool, done: bool, page: Page, rest': CString)
    requires Reading(start, pages, nodes, rest, llen) && PageRead(rest, nodes, end, done, page)
    requires !end && !done ==> rest' == rest[|page|..]
    ensures var (nodes', llen') := (Store(nodes, page), if end then llen else llen + |page|);
            if end || done then Finished(start, nodes', llen', end)
            else Reading(start, pages + [page], nodes', rest', llen') && |page| > 0
  {
    if end {
      EndFinishes(start, pages, nodes, rest, llen, page, Store(nodes, page));
    } else if done {
      NewlineFinishes(start, pages, nodes, rest, llen, Store(nodes, page), llen + |page|);
    } else {
      PageGoesOn(start, pages, nodes, rest, llen, pages + [page], Store(nodes, page), rest', llen + |page|);
    }
  }

  lemma EndDelivers(pages: seq<Page>, page: Page)
    requires Unfilled(Fill(pages), page)
    ensures |Text(Store(Fill(pages), page))| <= |Concat(pages)|
    ensures |pages| < SGL_SEGSIZE ==> Text(Store(Fill(pages), page)) == Concat(pages)
  {
    FillLosesPages(pages);
    TextAfterStore(Fill(pages), page);
    if |pages| < SGL_SEGSIZE {
      FillOneNode(pages);
      assert (pages + [[]])[..|pages|] == pages;
      var one: Nodes := [pages + [[]]];
      assert one[..0] == [];
    }
  }

  lemma FinishedDelivers(start: CString, nodes: Nodes, llen: nat, end: bool)
    requires Finished(start, nodes, llen, end)
    ensures Delivered(start, Text(nodes), llen)
  {
    PagesMakeLine(start);
    var line := LineOf(start);
    assert start[..llen] == line && 10 !in line;
    if end {
      var page :| Unfilled(Fill(LinePages(start)), page) && nodes == Store(Fill(LinePages(start)), page);
      EndDelivers(LinePages(start), page);
      if start != [] {
        PageCountOfRest(start);
      }
    } else {
      ListHoldsRest(start);
    }
  }
}
