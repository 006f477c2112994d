/**
 Mapping device memory into a process: MapSystemIo maps all of it at once, node by node; GemIoInsert
 maps the pages of one fault.
*/
module IoInsert {
  import opened Common
  import opened IoMap

  datatype Insert = Insert(address: nat, frame: nat)

  function Inserts(address: nat, frames: seq<nat>): seq<Insert> {
    seq(|frames|, i requires 0 <= i < |frames| => Insert(address + i * PAGE_SIZE, frames[i]))
  }

  lemma InsertsSplit(address: nat, a: seq<nat>, b: seq<nat>)
    ensures Inserts(address, a + b) == Inserts(address, a) + Inserts(address + |a| * PAGE_SIZE, b)
  {
  }

  /** A process's mapping: the pages put in it, in order. The kernel may refuse. */
  class Vma {
    ghost var log: seq<Insert>

    method InsertFrame(address: nat, frame: nat) returns (error: bool)
      modifies this
      ensures log == old(log) + if error then [] else [Insert(address, frame)]
    {
      error := *;
      if !error { log := log + [Insert(address, frame)]; }
    }

    method RemapRange(address: nat, frame: nat, size: nat) returns (error: bool)
      modifies this
      ensures log == old(log) + if error then [] else Inserts(address, Node(frame, size / PAGE_SIZE).Frames())
    {
      error := *;
      if !error { log := log + Inserts(address, Node(frame, size / PAGE_SIZE).Frames()); }
    }
  }

  lemma {:induction false} FramesUpTo(nodes: seq<Node>, i: nat)
    requires i < |nodes|
    ensures Frames(nodes[..i + 1]) == Frames(nodes[..i]) + nodes[i].Frames()
  {
    if i == 0 {
      assert nodes[..1][1..] == [];
    } else {
      FramesUpTo(nodes[1..], i - 1);
      assert nodes[..i + 1][1..] == nodes[1..][..i] && nodes[..i][1..] == nodes[1..][..i - 1];
    }
  }

  /** Map a whole node behind the frames already there. */
  method RemapNode(vma: Vma, start: nat, at: nat, node: Node, ghost before: seq<Insert>, ghost done: seq<nat>) returns (error: bool)
    requires vma.log == before + Inserts(start, done) && at == start + |done| * PAGE_SIZE
    modifies vma
    ensures vma.log == before + Inserts(start, if error then done else done + node.Frames())
  {
    error := vma.RemapRange(at, node.Phys() / PAGE_SIZE, node.Size());
    InsertsSplit(start, done, node.Frames());
  }

  /** Every node in turn, its pages following those of the nodes before; a refusal stops it between two nodes. */
  method MapNodes(vma: Vma, start: nat, nodes: seq<Node>) returns (error: bool, ghost n: nat)
    modifies vma
    ensures n <= |nodes| && vma.log == old(vma.log) + Inserts(start, Frames(nodes[..n]))
    ensures error <==> n < |nodes|
  {
    var at := start;
    var i := 0;
    error, n := false, 0;
    while i < |nodes|
      invariant 0 <= i == n <= |nodes| && at == start + |Frames(nodes[..n])| * PAGE_SIZE && !error
      invariant vma.log == old(vma.log) + Inserts(start, Frames(nodes[..n]))
    {
      FramesUpTo(nodes, i);
      error := RemapNode(vma, start, at, nodes[i], old(vma.log), Frames(nodes[..i]));
      if error { return; }
      at, i, n := at + nodes[i].Size(), i + 1, n + 1;
    }
  }

  /** The eager mapping: all frames, or, when the kernel refuses one of them, those of the nodes before it. */
  method MapSystemIo(vma: Vma, start: nat, m: IoMap) returns (error: bool, ghost n: nat)
    requires m.Valid()
    modifies vma
    ensures n <= |m.nodes| && vma.log == old(vma.log) + Inserts(start, Frames(m.nodes[..n]))
    ensures if error then n < |m.nodes| else vma.log == old(vma.log) + Inserts(start, Frames(m.nodes))
  {
    if |m.nodes| == 1 {
      error := vma.RemapRange(start, m.nodes[0].Phys() / PAGE_SIZE, m.size);
      n := if error then 0 else 1;
      assert m.nodes[..1] == m.nodes && m.nodes[1..] == [];
      assert Frames(m.nodes) == m.nodes[0].Frames();
    } else {
      error, n := MapNodes(vma, start, m.nodes);
      assert m.nodes[..|m.nodes|] == m.nodes;
    }
  }

  // ---------------------------------------------------------------- a fault

  function Prepend(done: seq<nat>, more: Option<seq<nat>>): Option<seq<nat>> {
    if more.Some? then Some(done + more.value) else None
  }

  /** Where the walk over several nodes stands: the nodes left, the offset in the first, and the offset in the object. */
  datatype Stand = Stand(rest: seq<Node>, current: nat, off: nat) {
    predicate UsedUp() { rest != [] && current >= rest[0].Size() }

    function Nodes(): seq<Node> { if UsedUp() then rest[1..] else rest }

    function At(): nat { if UsedUp() then 0 else current }

    /** A page further. */
    function Advance(): Stand { Stand(Nodes(), At() + PAGE_SIZE, (off + PAGE_SIZE) % TWO_32) }

    function Walk(size: nat, count: nat): Option<seq<nat>> { LazyMulti(rest, size, current, off, count) }
  }

  function First(m: IoMap, offset: nat): Stand { Stand(Skip(m.nodes, offset).0, Skip(m.nodes, offset).1, offset) }

  function After(s: Stand, i: nat): Stand
    decreases i
  {
    if i == 0 then s else After(s.Advance(), i - 1)
  }

  lemma {:induction false} AfterNext(s: Stand, i: nat)
    ensures After(s, i + 1) == After(s, i).Advance()
    decreases i
  {
    if i > 0 { AfterNext(s.Advance(), i - 1); }
  }

  /** A walk of `i + k` pages, the first `i` of which it finds, goes on from there for `k`. */
  lemma {:induction false} WalkSplit(s: Stand, size: nat, i: nat, k: nat)
    requires s.Walk(size, i).Some? && |s.Walk(size, i).value| == i
    ensures s.Walk(size, i + k) == Prepend(s.Walk(size, i).value, After(s, i).Walk(size, k))
    decreases i
  {
    var more := After(s, i).Walk(size, k);
    if i == 0 {
      if more.Some? { assert [] + more.value == more.value; }
    } else {
      var t := s.Advance();
      var frame, done := (s.Nodes()[0].Phys() + s.At()) / PAGE_SIZE, t.Walk(size, i - 1);
      assert s.Walk(size, i) == Prepend([frame], done);
      WalkSplit(t, size, i - 1, k);
      if more.Some? { assert [frame] + (done.value + more.value) == [frame] + done.value + more.value; }
    }
  }

  /** After `i` pages with the frames `done`, the walk stands at `s`. */
  ghost predicate Behind(m: IoMap, offset: nat, i: nat, done: seq<nat>, s: Stand) {
    |m.nodes| != 1 && |done| == i && LazyFrames(m, offset, i) == Some(done) && s == After(First(m, offset), i)
  }

  lemma BehindEnd(m: IoMap, offset: nat, i: nat, done: seq<nat>, s: Stand, count: nat)
    requires Behind(m, offset, i, done, s) && i <= count && (s.off >= m.size || i == count)
    ensures LazyFrames(m, offset, count) == Some(done)
  {
    WalkSplit(First(m, offset), m.size, i, count - i);
    assert s.Walk(m.size, count - i) == Some([]) && done + [] == done;
  }

  /** One page more: at the node where the walk stands, or at the next one when that is used up. */
  lemma BehindNext(m: IoMap, offset: nat, i: nat, done: seq<nat>, s: Stand)
    requires Behind(m, offset, i, done, s) && s.off < m.size
    ensures if s.Nodes() == [] then LazyFrames(m, offset, i + 1) == None
      else Behind(m, offset, i + 1, done + [(s.Nodes()[0].Phys() + s.At()) / PAGE_SIZE], s.Advance())
  {
    WalkSplit(First(m, offset), m.size, i, 1);
    AfterNext(First(m, offset), i);
    if s.Nodes() != [] {
      var frame := (s.Nodes()[0].Phys() + s.At()) / PAGE_SIZE;
      assert s.Advance().Walk(m.size, 0) == Some([]) && [frame] + [] == [frame];
      assert s.Walk(m.size, 1) == Some([frame]);
    }
  }

  /** The same for one node, which has no end to run past. */
  ghost predicate BehindOne(m: IoMap, offset: nat, i: nat, done: seq<nat>, off: nat)
    requires |m.nodes| == 1
  {
    |done| == i && forall k: nat :: LazyFrames(m, offset, i + k) == Some(done + LazySingle(m.nodes[0].Phys(), m.size, off, k))
  }

  lemma BehindOneStart(m: IoMap, offset: nat)
    requires |m.nodes| == 1
    ensures BehindOne(m, offset, 0, [], offset)
  {
    var phys := m.nodes[0].Phys();
    forall k: nat ensures LazyFrames(m, offset, 0 + k) == Some([] + LazySingle(phys, m.size, offset, k)) {
      assert [] + LazySingle(phys, m.size, offset, k) == LazySingle(phys, m.size, offset, k);
    }
  }

  lemma BehindOneNow(m: IoMap, offset: nat, i: nat, done: seq<nat>, off: nat, count: nat)
    requires |m.nodes| == 1 && BehindOne(m, offset, i, done, off) && i <= count
    ensures LazyFrames(m, offset, i) == Some(done)
    ensures off >= m.size ==> LazyFrames(m, offset, count) == Some(done)
  {
    assert done + [] == done;
    assert LazyFrames(m, offset, i + 0) == Some(done + LazySingle(m.nodes[0].Phys(), m.size, off, 0));
    assert LazyFrames(m, offset, i + (count - i)) == Some(done + LazySingle(m.nodes[0].Phys(), m.size, off, count - i));
  }

  lemma BehindOneNext(m: IoMap, offset: nat, i: nat, done: seq<nat>, off: nat)
    requires |m.nodes| == 1 && BehindOne(m, offset, i, done, off) && off < m.size
    ensures BehindOne(m, offset, i + 1, done + [(m.nodes[0].Phys() + off) / PAGE_SIZE], (off + PAGE_SIZE) % TWO_32)
  {
    var phys := m.nodes[0].Phys();
    var frame, next := (phys + off) / PAGE_SIZE, (off + PAGE_SIZE) % TWO_32;
    forall k: nat ensures LazyFrames(m, offset, i + 1 + k) == Some(done + [frame] + LazySingle(phys, m.size, next, k)) {
      assert LazyFrames(m, offset, i + (k + 1)) == Some(done + LazySingle(phys, m.size, off, k + 1));
      assert done + ([frame] + LazySingle(phys, m.size, next, k)) == done + [frame] + LazySingle(phys, m.size, next, k);
    }
  }

  /**
   What a fault has done: `n` pages are in, and it stopped because the kernel refused the next, because it
   read a node past the last for it, or at the end.
  */
  ghost predicate Inserted(before: seq<Insert>, log: seq<Insert>, address: nat, m: IoMap, offset: nat, count: nat, error: bool, past: bool, n: nat) {
    var f := LazyFrames(m, offset, n);
    && n <= count && f.Some? && log == before + Inserts(address, f.value)
    && if error then n < count && !past
       else if past then n < count && LazyFrames(m, offset, n + 1) == None
       else LazyFrames(m, offset, count) == f
  }

  /** Put in the next frame. */
  method InsertNext(vma: Vma, address: nat, at: nat, frame: nat, ghost done: seq<nat>, ghost before: seq<Insert>) returns (error: bool)
    requires at == address + |done| * PAGE_SIZE && vma.log == before + Inserts(address, done)
    modifies vma
    ensures vma.log == before + Inserts(address, if error then done else done + [frame])
  {
    error := vma.InsertFrame(at, frame);
    InsertsSplit(address, done, [frame]);
  }

  method InsertSingle(vma: Vma, address: nat, m: IoMap, offset: nat, count: nat) returns (error: bool, ghost n: nat)
    requires |m.nodes| == 1
    modifies vma
    ensures Inserted(old(vma.log), vma.log, address, m, offset, count, error, false, n)
  {
    var i, off, at := 0, offset, address;
    ghost var done: seq<nat> := [];
    error, n := false, 0;
    BehindOneStart(m, offset);
    while i < count && off < m.size
      invariant 0 <= i == n <= count && 0 <= off && at == address + n * PAGE_SIZE && !error
      invariant BehindOne(m, offset, n, done, off)
      invariant vma.log == old(vma.log) + Inserts(address, done)
    {
      BehindOneNow(m, offset, n, done, off, count);
      BehindOneNext(m, offset, n, done, off);
      var frame := (m.nodes[0].Phys() + off) / PAGE_SIZE;
      error := InsertNext(vma, address, at, frame, done, old(vma.log));
      if error { return; }
      done, i, off, at, n := done + [frame], i + 1, (off + PAGE_SIZE) % TWO_32, at + PAGE_SIZE, n + 1;
    }
    BehindOneNow(m, offset, n, done, off, count);
  }

  /** The node holding `offset`, and the bytes before it. */
  method SkipNodes(m: IoMap, offset: nat) returns (idx: nat, skipped: nat)
    ensures idx <= |m.nodes| && skipped <= offset && Skip(m.nodes, offset) == (m.nodes[idx..], offset - skipped)
  {
    idx, skipped := 0, 0;
    while idx < |m.nodes| && skipped + m.nodes[idx].Size() <= offset
      invariant idx <= |m.nodes| && skipped <= offset
      invariant Skip(m.nodes, offset) == Skip(m.nodes[idx..], offset - skipped)
    {
      assert m.nodes[idx..][1..] == m.nodes[idx + 1..];
      idx, skipped := idx + 1, skipped + m.nodes[idx].Size();
    }
  }

  /** The node of the next page, and the offset in it; or none is left. */
  method NextNode(m: IoMap, idx: nat, current: nat, ghost offset: nat, ghost done: seq<nat>, ghost off: nat)
    returns (j: nat, at: nat, past: bool)
    requires idx <= |m.nodes| && off < m.size && Behind(m, offset, |done|, done, Stand(m.nodes[idx..], current, off))
    ensures past ==> LazyFrames(m, offset, |done| + 1) == None
    ensures !past ==>
      && j < |m.nodes|
      && Behind(m, offset, |done| + 1, done + [(m.nodes[j].Phys() + at) / PAGE_SIZE],
                Stand(m.nodes[j..], at + PAGE_SIZE, (off + PAGE_SIZE) % TWO_32))
  {
    BehindNext(m, offset, |done|, done, Stand(m.nodes[idx..], current, off));
    j, at, past := idx, current, idx == |m.nodes|;
    if past { return; }
    assert m.nodes[idx..][1..] == m.nodes[idx + 1..];
    if current >= m.nodes[idx].Size() {
      j, at := idx + 1, 0;
    }
    past := j == |m.nodes|;
  }

  method InsertMulti(vma: Vma, address: nat, m: IoMap, offset: nat, count: nat) returns (error: bool, past: bool, ghost n: nat)
    requires |m.nodes| != 1
    modifies vma
    ensures Inserted(old(vma.log), vma.log, address, m, offset, count, error, past, n)
  {
    var i, off, at := 0, offset, address;
    var idx, skipped := SkipNodes(m, offset);
    var current := offset - skipped;
    ghost var done: seq<nat> := [];
    error, past, n := false, false, 0;
    while i < count && off < m.size
      invariant 0 <= i == n == |done| <= count && at == address + n * PAGE_SIZE && !error && !past
      invariant 0 <= off && 0 <= current && 0 <= idx <= |m.nodes|
      invariant Behind(m, offset, n, done, Stand(m.nodes[idx..], current, off))
      invariant vma.log == old(vma.log) + Inserts(address, done)
    {
      idx, current, past := NextNode(m, idx, current, offset, done, off);
      if past { return; }
      var frame := (m.nodes[idx].Phys() + current) / PAGE_SIZE;
      error := InsertNext(vma, address, at, frame, done, old(vma.log));
      if error { return; }
      done, i, off, at, current, n := done + [frame], i + 1, (off + PAGE_SIZE) % TWO_32, at + PAGE_SIZE, current + PAGE_SIZE, n + 1;
    }
    BehindEnd(m, offset, n, done, Stand(m.nodes[idx..], current, off), count);
  }

  /** Insert what a fault on the page at `offset` inserts; a refusal by the kernel, or a read past the nodes, cuts it short. */
  method GemIoInsert(vma: Vma, address: nat, m: IoMap, offset: nat, count: nat) returns (error: bool, past: bool, ghost n: nat)
    requires offset < TWO_32
    modifies vma
    ensures Inserted(old(vma.log), vma.log, address, m, offset, count, error, past, n)
  {
    if |m.nodes| == 1 {
      past := false;
      error, n := InsertSingle(vma, address, m, offset, count);
    } else {
      error, past, n := InsertMulti(vma, address, m, offset, count);
    }
  }

  /**
   A fault at `address` of a mapping that starts at `start` and shows the object from page `first` on. At
   most `prefault` pages are asked for, and none behind the end of the mapping. When they fit, no node past
   the last is read and what is put in is what the eager mapping holds there.
  */
  method GemFault(vma: Vma, start: nat, end: nat, address: nat, m: IoMap, first: nat, prefault: nat)
    returns (error: bool, past: bool, ghost n: nat)
    requires m.Valid() && start <= address < end && (address - start) % PAGE_SIZE == 0
    modifies vma
    ensures var page, count := first + (address - start) / PAGE_SIZE, Asked(end, address, prefault);
      && Inserted(old(vma.log), vma.log, address, m, Wrapped(page), count, error, past, n)
      && (Fits(m, page, count) ==>
            && !past && vma.log == old(vma.log) + Inserts(address, Window(Frames(m.nodes), page, n))
            && (!error ==> Window(Frames(m.nodes), page, n) == Window(Frames(m.nodes), page, count)))
  {
    ghost var page := first + (address - start) / PAGE_SIZE;
    var offset := first * PAGE_SIZE + (address - start);
    assert offset == page * PAGE_SIZE;
    var count := Asked(end, address, prefault);
    error, past, n := GemIoInsert(vma, address, m, offset % TWO_32, count);
    FaultExact(m, page, count);
    FaultExact(m, page, n);
    if n < count { FaultExact(m, page, n + 1); }
  }

  /** The pages asked for: none behind the end of the mapping, and no fewer than there is room for. */
  function Asked(end: nat, address: nat, prefault: nat): (count: nat)
    requires address <= end
    ensures count <= prefault && address + count * PAGE_SIZE <= end
    ensures count < prefault ==> address + (count + 1) * PAGE_SIZE > end
  {
    var left := (end - address) / PAGE_SIZE;
    if prefault < left then prefault else left
  }

  /** `got` is what the eager mapping at `start` holds at page `page` and the pages behind, at most `count` of them. */
  ghost predicate IsSlice(m: IoMap, start: nat, page: nat, count: nat, got: seq<Insert>) {
    var eager := Inserts(start, Frames(m.nodes));
    var k := |Window(Frames(m.nodes), page, count)|;
    page + k <= |eager| && got == eager[page..page + k]
  }

  lemma SliceIsWindow(m: IoMap, start: nat, page: nat, count: nat, frames: seq<nat>)
    requires page <= |Frames(m.nodes)|
    ensures IsSlice(m, start, page, count, Inserts(start + page * PAGE_SIZE, frames))
       <==> frames == Window(Frames(m.nodes), page, count)
  {
    var all := Frames(m.nodes);
    var window := Window(all, page, count);
    var k := |window|;
    var got, eager := Inserts(start + page * PAGE_SIZE, frames), Inserts(start, all);
    assert page + k <= |all|;
    forall i | 0 <= i < k ensures eager[page..page + k][i] == Insert(start + page * PAGE_SIZE + i * PAGE_SIZE, window[i]) {
      WindowAt(all, page, count, i);
      assert eager[page + i] == Insert(start + (page + i) * PAGE_SIZE, all[page + i]);
    }
    if frames == window { assert got == eager[page..page + k]; }
    if got == eager[page..page + k] {
      forall i | 0 <= i < k ensures frames[i] == window[i] { assert got[i] == eager[page..page + k][i]; }
      assert frames == window;
    }
  }

  /** For an object whose frames are apart, a fault puts in a slice of the eager mapping if and only if the pages fit. */
  lemma FaultIsSlice(m: IoMap, start: nat, page: nat, count: nat)
    requires m.Valid() && Apart(Frames(m.nodes)) && page <= |Frames(m.nodes)|
    ensures var f := FaultFrames(m, page, count);
      (f.Some? && IsSlice(m, start, page, count, Inserts(start + page * PAGE_SIZE, f.value))) <==> Fits(m, page, count)
  {
    FaultExact(m, page, count);
    var f := FaultFrames(m, page, count);
    if f.Some? { SliceIsWindow(m, start, page, count, f.value); }
  }
}
