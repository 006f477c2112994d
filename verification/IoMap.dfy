/**
 Device memory made of nodes of whole pages, and the page frames a fault inserts: a few pages starting
 anywhere. They must be those of the eager mapping, which takes the nodes in turn.

 The byte offset of a fault is kept in 32 bits and wraps, so the agreement has an exact limit.
*/
module IoMap {
  import opened Common

  const PAGES_4G: nat := 0x10_0000

  datatype Node = Node(frame: nat, pages: nat) {
    function Phys(): nat { frame * PAGE_SIZE }

    function Size(): nat { pages * PAGE_SIZE }

    function Frames(): (s: seq<nat>)
      ensures |s| == pages
    {
      seq(pages, i => frame + i)
    }
  }

  predicate ValidNodes(nodes: seq<Node>) { forall i :: 0 <= i < |nodes| ==> nodes[i].pages > 0 }

  /** The page frames in the order of the object. */
  function Frames(nodes: seq<Node>): seq<nat> {
    if nodes == [] then [] else nodes[0].Frames() + Frames(nodes[1..])
  }

  /** The node sizes sum to the size of the map. */
  datatype IoMap = IoMap(nodes: seq<Node>, size: nat) {
    predicate Valid() { ValidNodes(nodes) && size == |Frames(nodes)| * PAGE_SIZE }
  }

  /** At most `count` entries from index `first`. */
  function Window(s: seq<nat>, first: nat, count: nat): seq<nat> {
    if first >= |s| then [] else if first + count <= |s| then s[first..first + count] else s[first..]
  }

  lemma WindowStep(s: seq<nat>, first: nat, count: nat)
    requires first < |s| && count > 0
    ensures Window(s, first, count) == [s[first]] + Window(s, first + 1, count - 1)
  {
  }

  lemma WindowAt(s: seq<nat>, first: nat, count: nat, k: nat)
    requires k < |Window(s, first, count)|
    ensures first + k < |s| && Window(s, first, count)[k] == s[first + k]
  {
  }

  lemma WindowDrop(a: seq<nat>, b: seq<nat>, first: nat, count: nat)
    requires first >= |a|
    ensures Window(a + b, first, count) == Window(b, first - |a|, count)
  {
  }

  // ---------------------------------------------------------------- what a fault inserts

  /** One node: the offset addresses the page and also tests for the end. */
  function LazySingle(phys: nat, size: nat, offset: nat, count: nat): seq<nat>
    decreases count
  {
    if count == 0 || offset >= size then []
    else [(phys + offset) / PAGE_SIZE] + LazySingle(phys, size, (offset + PAGE_SIZE) % TWO_32, count - 1)
  }

  /** Several nodes: `rest` starts at the current node. None when a node past the last is read. */
  function LazyMulti(rest: seq<Node>, size: nat, current: nat, offset: nat, count: nat): Option<seq<nat>>
    decreases count
  {
    if count == 0 || offset >= size then Some([])
    else if rest == [] then None
    else
      var (nodes, at) := if current >= rest[0].Size() then (rest[1..], 0) else (rest, current);
      if nodes == [] then None
      else
        match LazyMulti(nodes, size, at + PAGE_SIZE, (offset + PAGE_SIZE) % TWO_32, count - 1)
        case None => None
        case Some(more) => Some([(nodes[0].Phys() + at) / PAGE_SIZE] + more)
  }

  /** The nodes from the one holding `offset`, and the offset in it. */
  function Skip(nodes: seq<Node>, offset: nat): (seq<Node>, nat) {
    if nodes == [] || nodes[0].Size() > offset then (nodes, offset)
    else Skip(nodes[1..], offset - nodes[0].Size())
  }

  function LazyFrames(m: IoMap, offset: nat, count: nat): Option<seq<nat>> {
    if |m.nodes| == 1 then Some(LazySingle(m.nodes[0].Phys(), m.size, offset, count))
    else LazyMulti(Skip(m.nodes, offset).0, m.size, Skip(m.nodes, offset).1, offset, count)
  }

  // ---------------------------------------------------------------- the offset in 32 bits

  /** The offset after `page` pages, as it is kept. */
  function Wrapped(page: nat): nat { page * PAGE_SIZE % TWO_32 }

  lemma WrapNext(page: nat)
    ensures (Wrapped(page) + PAGE_SIZE) % TWO_32 == Wrapped(page + 1)
    ensures page < PAGES_4G ==> Wrapped(page) == page * PAGE_SIZE
    ensures Wrapped(PAGES_4G) == 0
  {
  }

  /** The test for the end of `n` pages: it never succeeds when the size reaches 4 GiB. */
  lemma WrapEnd(page: nat, n: nat)
    requires page <= n
    ensures Wrapped(page) >= n * PAGE_SIZE <==> n < PAGES_4G && page == n
  {
  }

  lemma FrameAt(node: Node, page: nat)
    requires page < node.pages
    ensures node.Frames()[page] == (node.Phys() + page * PAGE_SIZE) / PAGE_SIZE
  {
  }

  // ---------------------------------------------------------------- one node

  lemma {:induction false} SingleAgrees(node: Node, page: nat, count: nat)
    requires page <= PAGES_4G && (page <= node.pages < PAGES_4G || page + count <= PAGES_4G)
    ensures LazySingle(node.Phys(), node.Size(), Wrapped(page), count) == Window(node.Frames(), page, count)
    decreases count
  {
    WrapNext(page);
    if count > 0 && page < node.pages {
      FrameAt(node, page);
      WindowStep(node.Frames(), page, count);
      SingleAgrees(node, page + 1, count - 1);
    }
  }

  /** Past 4 GiB the single node is inserted again from its start. */
  lemma {:induction false} SingleWraps(node: Node, page: nat, count: nat)
    requires page < PAGES_4G < page + count && node.pages >= PAGES_4G
    ensures var k := PAGES_4G - page; var s := LazySingle(node.Phys(), node.Size(), Wrapped(page), count);
      k < |s| && s[k] == node.frame
    decreases count
  {
    WrapNext(page);
    if page + 1 < PAGES_4G { SingleWraps(node, page + 1, count - 1); }
  }

  lemma SingleExact(node: Node, page: nat, count: nat)
    requires page < PAGES_4G
    ensures LazySingle(node.Phys(), node.Size(), Wrapped(page), count) == Window(node.Frames(), page, count)
       <==> node.pages < PAGES_4G || page + count <= PAGES_4G
  {
    WrapNext(page);
    if page + count <= PAGES_4G || page <= node.pages < PAGES_4G {
      SingleAgrees(node, page, count);
    } else if node.pages >= PAGES_4G {
      SingleWraps(node, page, count);
      var k := PAGES_4G - page;
      if k < |Window(node.Frames(), page, count)| { WindowAt(node.Frames(), page, count, k); }
    }
  }

  // ---------------------------------------------------------------- several nodes

  /**
   From page `page` of node `rest[0]`, the object having `n` pages in all, the walk inserts the eager
   pages; it reads past the last node exactly when it is asked for more pages than are left and the size
   reaches 4 GiB.
  */
  ghost predicate RunsAsEager(rest: seq<Node>, n: nat, page: nat, count: nat)
    requires |Frames(rest)| <= n
  {
    LazyMulti(rest, n * PAGE_SIZE, page * PAGE_SIZE, Wrapped(n - |Frames(rest)| + page), count) == Eager(rest, n, page, count)
  }

  function Eager(rest: seq<Node>, n: nat, page: nat, count: nat): Option<seq<nat>> {
    if n < PAGES_4G || page + count <= |Frames(rest)| then Some(Window(Frames(rest), page, count)) else None
  }

  lemma {:induction false} MultiRun(rest: seq<Node>, n: nat, page: nat, count: nat)
    requires ValidNodes(rest) && rest != [] && page <= rest[0].pages && |Frames(rest)| <= n
    ensures RunsAsEager(rest, n, page, count)
    decreases count
  {
    WrapEnd(n - |Frames(rest)| + page, n);
    if count == 0 {
      assert Window(Frames(rest), page, 0) == [];
    } else if page < rest[0].pages {
      MultiStep(rest, n, page, count);
    } else if rest[1..] == [] {
      assert |Frames(rest)| == page;
    } else {
      MultiStep(rest[1..], n, 0, count);
      MultiCross(rest, n, count);
    }
  }

  /** At the end of a node with a node behind it, the walk goes on in that one, and so do the eager pages. */
  lemma MultiCross(rest: seq<Node>, n: nat, count: nat)
    requires ValidNodes(rest) && |rest| > 1 && count > 0 && |Frames(rest)| <= n
    requires RunsAsEager(rest[1..], n, 0, count)
    ensures RunsAsEager(rest, n, rest[0].pages, count)
  {
    var next, here := rest[1..], rest[0].pages;
    var at := n - |Frames(next)|;
    assert |Frames(next)| == |Frames(rest)| - here;
    assert LazyMulti(rest, n * PAGE_SIZE, here * PAGE_SIZE, Wrapped(at), count)
        == LazyMulti(next, n * PAGE_SIZE, 0, Wrapped(at), count);
    WindowDrop(rest[0].Frames(), Frames(next), here, count);
    assert Wrapped(n - |Frames(next)| + 0) == Wrapped(at) == Wrapped(n - |Frames(rest)| + here);
    assert 0 * PAGE_SIZE == 0;
  }

  lemma {:induction false} MultiStep(rest: seq<Node>, n: nat, page: nat, count: nat)
    requires ValidNodes(rest) && rest != [] && page < rest[0].pages && count > 0 && |Frames(rest)| <= n
    ensures RunsAsEager(rest, n, page, count)
    decreases count, 0
  {
    var at := n - |Frames(rest)| + page;
    WrapEnd(at, n);
    WrapNext(at);
    MultiRun(rest, n, page + 1, count - 1);
    FrameAt(rest[0], page);
    WindowStep(Frames(rest), page, count);
  }

  /** Skipping whole nodes loses nothing of the window. */
  lemma {:induction false} SkipWindow(nodes: seq<Node>, page: nat, count: nat)
    returns (rest: seq<Node>, p: nat, past: nat)
    requires ValidNodes(nodes)
    ensures Skip(nodes, page * PAGE_SIZE) == (rest, p * PAGE_SIZE) && past + p == page
    ensures ValidNodes(rest) && past + |Frames(rest)| == |Frames(nodes)| && (rest != [] ==> p < rest[0].pages)
    ensures Window(Frames(nodes), page, count) == Window(Frames(rest), p, count)
  {
    if nodes == [] || nodes[0].pages > page {
      rest, p, past := nodes, page, 0;
    } else {
      rest, p, past := SkipWindow(nodes[1..], page - nodes[0].pages, count);
      past := past + nodes[0].pages;
      WindowDrop(nodes[0].Frames(), Frames(nodes[1..]), page, count);
    }
  }

  // ---------------------------------------------------------------- lazy refines eager

  /** From a page below 4 GiB, the 32-bit offset does not run past its limit in a way that shows. */
  ghost predicate InReach(m: IoMap, page: nat, count: nat) {
    m.size < TWO_32 || page + count <= if |m.nodes| == 1 then PAGES_4G else |Frames(m.nodes)|
  }

  lemma MultiExact(m: IoMap, page: nat, count: nat)
    requires m.Valid() && |m.nodes| != 1 && page < PAGES_4G
    ensures LazyFrames(m, page * PAGE_SIZE, count)
         == if InReach(m, page, count) then Some(Window(Frames(m.nodes), page, count)) else None
  {
    WrapNext(page);
    var rest, p, past := SkipWindow(m.nodes, page, count);
    if rest != [] { MultiRun(rest, |Frames(m.nodes)|, p, count); }
  }

  /** Below 4 GiB, a fault inserts the frames of the eager mapping, and reads no node past the last, exactly within reach. */
  lemma LowFaultExact(m: IoMap, page: nat, count: nat)
    requires m.Valid() && page < PAGES_4G
    ensures LazyFrames(m, page * PAGE_SIZE, count) == Some(Window(Frames(m.nodes), page, count))
       <==> InReach(m, page, count)
  {
    if |m.nodes| == 1 {
      WrapNext(page);
      assert m.nodes[1..] == [];
      assert Frames(m.nodes) == m.nodes[0].Frames();
      SingleExact(m.nodes[0], page, count);
    } else {
      MultiExact(m, page, count);
    }
  }

  /** What a fault on page `page` inserts: the handler passes the page's offset on in 32 bits. */
  function FaultFrames(m: IoMap, page: nat, count: nat): Option<seq<nat>> { LazyFrames(m, Wrapped(page), count) }

  /** The pages asked for are within reach, or the page asked for lies past the object even when its offset has wrapped. */
  ghost predicate Fits(m: IoMap, page: nat, count: nat) {
    count == 0 || (if page < PAGES_4G then InReach(m, page, count) else m.size <= Wrapped(page))
  }

  /** No two pages of the object share a frame. */
  ghost predicate Apart(frames: seq<nat>) { forall i, j :: 0 <= i < j < |frames| ==> frames[i] != frames[j] }

  /** The first frame a fault inserts is the one at its wrapped offset, if the object reaches that far. */
  lemma FirstFrame(m: IoMap, page: nat, count: nat)
    requires m.Valid() && page < PAGES_4G && count > 0
    ensures var f := LazyFrames(m, page * PAGE_SIZE, count);
      if page < |Frames(m.nodes)| then f.Some? ==> f.value != [] && f.value[0] == Frames(m.nodes)[page]
      else f == Some([])
  {
    WrapNext(page);
    var frames := Frames(m.nodes);
    if |m.nodes| == 1 {
      assert m.nodes[1..] == [];
      assert Frames(m.nodes) == m.nodes[0].Frames();
      if page < |frames| { FrameAt(m.nodes[0], page); }
    } else {
      MultiExact(m, page, count);
      if page < |frames| { WindowStep(frames, page, count); }
    }
  }

  /**
   For every page of the address space: a fault inserts the frames of the eager mapping, and reads no
   node past the last, exactly when they fit. Where two pages share a frame a wrong page may pass for
   the right one, so that half is for objects whose frames are apart.
  */
  lemma FaultExact(m: IoMap, page: nat, count: nat)
    requires m.Valid()
    ensures var same := FaultFrames(m, page, count) == Some(Window(Frames(m.nodes), page, count));
      (Fits(m, page, count) ==> same) && (same && Apart(Frames(m.nodes)) ==> Fits(m, page, count))
  {
    var frames, low := Frames(m.nodes), page % PAGES_4G;
    WrapLow(page);
    if page < PAGES_4G {
      LowFaultExact(m, page, count);
      if count == 0 { NothingAsked(m, page); }
    } else if count == 0 {
      NothingAsked(m, low);
    } else {
      FirstFrame(m, low, count);
      if low < |frames| && page < |frames| {
        WindowStep(frames, page, count);
        assert frames[low] != frames[page] || !Apart(frames);
      }
    }
  }

  lemma WrapLow(page: nat)
    ensures Wrapped(page) == page % PAGES_4G * PAGE_SIZE
  {
    assert page * PAGE_SIZE == page / PAGES_4G * TWO_32 + page % PAGES_4G * PAGE_SIZE;
  }

  lemma NothingAsked(m: IoMap, page: nat)
    ensures LazyFrames(m, page * PAGE_SIZE, 0) == Some([])
    ensures Window(Frames(m.nodes), page, 0) == []
  {
  }

  /** A fault that misses: page 2^20 of a node of one page more gets the frame of page 0. */
  lemma FaultMisses(frame: nat)
    ensures var m := IoMap([Node(frame, PAGES_4G + 1)], (PAGES_4G + 1) * PAGE_SIZE);
      && m.Valid() && FaultFrames(m, PAGES_4G, 1) == Some([frame])
      && Window(Frames(m.nodes), PAGES_4G, 1) == [frame + PAGES_4G]
  {
    var node := Node(frame, PAGES_4G + 1);
    var m := IoMap([node], (PAGES_4G + 1) * PAGE_SIZE);
    assert m.nodes[1..] == [] && Frames(m.nodes) == node.Frames();
    WrapNext(PAGES_4G);
    WindowStep(node.Frames(), PAGES_4G, 1);
    LowFaultExact(m, 0, 1);
    WindowStep(node.Frames(), 0, 1);
    assert Window(node.Frames(), 0, 1) == [frame] + Window(node.Frames(), 1, 0) == [frame];
    assert FaultFrames(m, PAGES_4G, 1) == LazyFrames(m, 0 * PAGE_SIZE, 1);
  }
}
