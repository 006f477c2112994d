/**
 Access to a mapped buffer object by a debugger: `len` bytes from `offset`, read or written. The object
 is one stretch of memory or several nodes, and the walk over the nodes must act as on one flat buffer.
*/
module VmAccess {
  import opened Common

  const EIO: int := 5

  function Concat(nodes: seq<seq<byte>>): seq<byte> {
    if nodes == [] then [] else nodes[0] + Concat(nodes[1..])
  }

  /** Two writes side by side are one. */
  lemma SpliceOn(s: seq<byte>, at: nat, a: seq<byte>, b: seq<byte>)
    requires at + |a| + |b| <= |s|
    ensures Splice(Splice(s, at, a), at + |a|, b) == Splice(s, at, a + b)
  {
    var t := Splice(s, at, a);
    assert t[..at + |a|] == s[..at] + a;
    assert t[at + |a| + |b|..] == s[at + |a| + |b|..];
  }

  /** A write that runs from one stretch into the next. */
  lemma SpliceAcross(s: seq<byte>, t: seq<byte>, at: nat, a: seq<byte>, b: seq<byte>)
    requires at + |a| <= |s| && |b| <= |t| && (b != [] ==> at + |a| == |s|)
    ensures Splice(s, at, a) + Splice(t, 0, b) == Splice(s + t, at, a + b)
  {
    assert (s + t)[..at] == s[..at];
    assert (s + t)[at + |a| + |b|..] == s[at + |a|..] + t[|b|..];
    if b == [] { assert Splice(t, 0, b) == t; }
  }

  lemma SpliceBehind(s: seq<byte>, t: seq<byte>, at: nat, a: seq<byte>)
    requires at + |a| <= |t|
    ensures s + Splice(t, at, a) == Splice(s + t, |s| + at, a)
  {
    assert (s + t)[..|s| + at] == s + t[..at];
    assert (s + t)[|s| + at + |a|..] == t[at + |a|..];
  }

  function Min(a: nat, b: nat): nat { if a > b then b else a }

  // ---------------------------------------------------------------- nodes in the flat buffer

  lemma {:induction false} ConcatSplit(a: seq<seq<byte>>, b: seq<seq<byte>>)
    ensures Concat(a + b) == Concat(a) + Concat(b)
  {
    if a == [] {
      assert a + b == b;
    } else {
      assert (a + b)[1..] == a[1..] + b;
      ConcatSplit(a[1..], b);
    }
  }

  /** A piece of one node is a piece of the flat buffer, and a write to it a write there. */
  lemma NodeFlat(nodes: seq<seq<byte>>, k: nat, at: nat, data: seq<byte>)
    requires k < |nodes| && at + |data| <= |nodes[k]|
    ensures var pos := |Concat(nodes[..k])| + at;
      && pos + |data| <= |Concat(nodes)|
      && nodes[k][at..at + |data|] == Concat(nodes)[pos..pos + |data|]
      && Concat(nodes[k := Splice(nodes[k], at, data)]) == Splice(Concat(nodes), pos, data)
  {
    var before, behind := Concat(nodes[..k]), Concat(nodes[k + 1..]);
    FlatAround(nodes, k, nodes[k]);
    FlatAround(nodes, k, Splice(nodes[k], at, data));
    assert nodes[k := nodes[k]] == nodes;
    SpliceAcross(nodes[k], behind, at, data, []);
    assert Splice(behind, 0, []) == behind && data + [] == data;
    SpliceBehind(before, nodes[k] + behind, at, data);
  }

  lemma FlatAround(nodes: seq<seq<byte>>, k: nat, node: seq<byte>)
    requires k < |nodes|
    ensures Concat(nodes[k := node]) == Concat(nodes[..k]) + (node + Concat(nodes[k + 1..]))
  {
    assert nodes[k := node] == nodes[..k] + ([node] + nodes[k + 1..]);
    ConcatSplit(nodes[..k], [node] + nodes[k + 1..]);
    assert ([node] + nodes[k + 1..])[1..] == nodes[k + 1..];
  }

  // ---------------------------------------------------------------- the access

  function Contents(nodes: seq<array<byte>>): (s: seq<seq<byte>>)
    reads nodes
    ensures |s| == |nodes| && forall k :: 0 <= k < |s| ==> s[k] == nodes[k][..]
  {
    seq(|nodes|, k requires 0 <= k < |nodes| reads nodes => nodes[k][..])
  }

  /** The nodes and the caller's buffer are separate memory. */
  predicate Separate(nodes: seq<array<byte>>, buf: array<byte>) {
    buf !in nodes && forall i, j :: 0 <= i < j < |nodes| ==> nodes[i] != nodes[j]
  }

  method Copy(dst: array<byte>, to: nat, src: array<byte>, from: nat, n: nat)
    requires dst != src && to + n <= dst.Length && from + n <= src.Length
    modifies dst
    ensures dst[..] == Splice(old(dst[..]), to, src[from..from + n])
  {
    forall i | 0 <= i < n { dst[to + i] := src[from + i]; }
    assert dst[..to] == old(dst[..to]) && dst[to + n..] == old(dst[to + n..]);
    assert dst[to..to + n] == src[from..from + n];
  }

  /** The bytes before node `k`. */
  function Pos(nodes: seq<array<byte>>, k: nat): nat
    requires k <= |nodes|
  {
    if k == 0 then 0 else Pos(nodes, k - 1) + nodes[k - 1].Length
  }

  lemma {:induction false} PosFlat(nodes: seq<array<byte>>, k: nat)
    requires k <= |nodes|
    ensures |Concat(Contents(nodes)[..k])| == Pos(nodes, k)
    decreases k
  {
    if k > 0 {
      var s := Contents(nodes);
      PosFlat(nodes, k - 1);
      assert s[..k] == s[..k - 1] + [s[k - 1]] && Concat([s[k - 1]]) == s[k - 1] + Concat([]);
      ConcatSplit(s[..k - 1], [s[k - 1]]);
    }
  }

  /** What an access does, on the flat buffer: a write changes these bytes and no others, a read changes none. */
  ghost predicate Accessed(was: seq<byte>, now: seq<byte>, bufWas: seq<byte>, buf: seq<byte>, offset: nat, len: nat, write: bool)
    requires len <= |bufWas| && offset + len <= |was|
  {
    && (write ==> buf == bufWas && now == Splice(was, offset, bufWas[..len]))
    && (!write ==> now == was && buf == Splice(bufWas, 0, was[offset..offset + len]))
  }

  lemma AccessedNothing(was: seq<byte>, buf: seq<byte>, offset: nat, write: bool)
    requires offset <= |was|
    ensures Accessed(was, was, buf, buf, offset, 0, write)
  {
    assert Splice(buf, 0, []) == buf && Splice(was, offset, []) == was;
  }

  /** The next `n` bytes are moved: `later` and `bufLater` are the flat buffer and the caller's afterwards. */
  lemma AccessedOn(was: seq<byte>, now: seq<byte>, later: seq<byte>, bufWas: seq<byte>, buf: seq<byte>, bufLater: seq<byte>,
    offset: nat, len: nat, n: nat, write: bool)
    requires len + n <= |bufWas| && offset + len + n <= |was| && Accessed(was, now, bufWas, buf, offset, len, write)
    requires write ==> later == Splice(now, offset + len, buf[len..len + n]) && bufLater == buf
    requires !write ==> later == now && bufLater == Splice(buf, len, now[offset + len..offset + len + n])
    ensures Accessed(was, later, bufWas, bufLater, offset, len + n, write)
  {
    if write {
      SpliceOn(was, offset, bufWas[..len], bufWas[len..len + n]);
      assert bufWas[..len] + bufWas[len..len + n] == bufWas[..len + n];
    } else {
      var src := was[offset..offset + len];
      SpliceOn(bufWas, 0, src, was[offset + len..offset + len + n]);
      assert src + was[offset + len..offset + len + n] == was[offset..offset + len + n];
    }
  }

  /** The first node that reaches `offset`, and the bytes before it. A node that ends there is not skipped. */
  method SkipNodes(nodes: seq<array<byte>>, offset: nat) returns (idx: nat, before: nat)
    ensures idx <= |nodes| && before == Pos(nodes, idx) <= offset
    ensures idx < |nodes| ==> offset <= before + nodes[idx].Length
  {
    idx, before := 0, 0;
    while idx < |nodes| && before + nodes[idx].Length < offset
      invariant idx <= |nodes| && before == Pos(nodes, idx) <= offset
    {
      idx, before := idx + 1, before + nodes[idx].Length;
    }
  }

  method WriteNode(nodes: seq<array<byte>>, idx: nat, at: nat, buf: array<byte>, moved: nat, n: nat)
    requires Separate(nodes, buf) && idx < |nodes| && at + n <= nodes[idx].Length && moved + n <= buf.Length
    modifies nodes[idx]
    ensures var flat, pos := old(Concat(Contents(nodes))), Pos(nodes, idx) + at;
      pos + n <= |flat| && Concat(Contents(nodes)) == Splice(flat, pos, old(buf[..])[moved..moved + n])
  {
    PosFlat(nodes, idx);
    ghost var now, data := Contents(nodes), buf[..][moved..moved + n];
    NodeFlat(now, idx, at, data);
    assert data == buf[moved..moved + n];
    Copy(nodes[idx], at, buf, moved, n);
    assert Contents(nodes) == now[idx := Splice(now[idx], at, data)];
  }

  method ReadNode(nodes: seq<array<byte>>, idx: nat, at: nat, buf: array<byte>, moved: nat, n: nat)
    requires Separate(nodes, buf) && idx < |nodes| && at + n <= nodes[idx].Length && moved + n <= buf.Length
    modifies buf
    ensures var flat, pos := old(Concat(Contents(nodes))), Pos(nodes, idx) + at;
      && pos + n <= |flat| && Concat(Contents(nodes)) == flat
      && buf[..] == Splice(old(buf[..]), moved, flat[pos..pos + n])
  {
    PosFlat(nodes, idx);
    ghost var now := Contents(nodes);
    NodeFlat(now, idx, at, now[idx][at..at + n]);
    assert nodes[idx][at..at + n] == now[idx][at..at + n];
    Copy(buf, moved, nodes[idx], at, n);
    assert Contents(nodes) == now;
  }

  /** Move the next `n` bytes between one node and the buffer. */
  method AccessNode(nodes: seq<array<byte>>, idx: nat, at: nat, buf: array<byte>, moved: nat, n: nat, write: bool,
    ghost was: seq<byte>, ghost bufWas: seq<byte>, ghost offset: nat)
    requires Separate(nodes, buf) && idx < |nodes| && at + n <= nodes[idx].Length
    requires moved + n <= |bufWas| && offset + moved + n <= |was| && Pos(nodes, idx) + at == offset + moved
    requires Accessed(was, Concat(Contents(nodes)), bufWas, buf[..], offset, moved, write)
    modifies nodes, buf
    ensures Accessed(was, Concat(Contents(nodes)), bufWas, buf[..], offset, moved + n, write)
  {
    ghost var flat, src := Concat(Contents(nodes)), buf[..];
    if write {
      WriteNode(nodes, idx, at, buf, moved, n);
    } else {
      ReadNode(nodes, idx, at, buf, moved, n);
    }
    AccessedOn(was, flat, Concat(Contents(nodes)), bufWas, src, buf[..], offset, moved, n, write);
  }

  lemma PosEnd(nodes: seq<array<byte>>)
    ensures Pos(nodes, |nodes|) == |Concat(Contents(nodes))|
  {
    PosFlat(nodes, |nodes|);
    assert Contents(nodes)[..|nodes|] == Contents(nodes);
  }

  /** One turn of the walk: what is wanted, or the rest of the node. */
  method AccessTurn(nodes: seq<array<byte>>, idx: nat, at: nat, buf: array<byte>, moved: nat, len: nat, write: bool,
    ghost was: seq<byte>, ghost bufWas: seq<byte>, ghost offset: nat) returns (m: nat)
    requires Separate(nodes, buf) && len <= |bufWas| && offset + len <= |was| && moved < len
    requires idx < |nodes| && at <= nodes[idx].Length && Pos(nodes, idx) + at == offset + moved
    requires Accessed(was, Concat(Contents(nodes)), bufWas, buf[..], offset, moved, write)
    modifies nodes, buf
    ensures m <= len && (m < len ==> Pos(nodes, idx + 1) == offset + m)
    ensures Accessed(was, Concat(Contents(nodes)), bufWas, buf[..], offset, m, write)
  {
    var n := Min(len - moved, nodes[idx].Length - at);
    AccessNode(nodes, idx, at, buf, moved, n, write, was, bufWas, offset);
    m := moved + n;
  }

  /** Walk the nodes from `first` on until `len` bytes are moved. */
  method WalkNodes(nodes: seq<array<byte>>, first: nat, start: nat, buf: array<byte>, len: nat, write: bool,
    ghost was: seq<byte>, ghost bufWas: seq<byte>, ghost offset: nat) returns (moved: nat)
    requires Separate(nodes, buf) && len <= |bufWas| && offset + len <= |was| == Pos(nodes, |nodes|)
    requires first < |nodes| && start <= nodes[first].Length && Pos(nodes, first) + start == offset
    requires Accessed(was, Concat(Contents(nodes)), bufWas, buf[..], offset, 0, write)
    modifies nodes, buf
    ensures moved == len && Accessed(was, Concat(Contents(nodes)), bufWas, buf[..], offset, len, write)
  {
    var idx, at := first, start;
    moved := 0;
    while moved < len && idx < |nodes|
      invariant moved <= len && 0 <= idx <= |nodes| && 0 <= at
      invariant moved < len ==> Pos(nodes, idx) + at == offset + moved && (idx < |nodes| ==> at <= nodes[idx].Length)
      invariant Accessed(was, Concat(Contents(nodes)), bufWas, buf[..], offset, moved, write)
    {
      moved := AccessTurn(nodes, idx, at, buf, moved, len, write, was, bufWas, offset);
      at, idx := 0, idx + 1;
    }
  }

  /** The object in several nodes. */
  method AccessNodes(nodes: seq<array<byte>>, offset: nat, buf: array<byte>, len: nat, write: bool) returns (moved: nat)
    requires Separate(nodes, buf) && 0 < len <= buf.Length && offset + len <= |Concat(Contents(nodes))|
    modifies nodes, buf
    ensures moved == len
    ensures Accessed(old(Concat(Contents(nodes))), Concat(Contents(nodes)), old(buf[..]), buf[..], offset, len, write)
  {
    ghost var was, src := Concat(Contents(nodes)), buf[..];
    PosEnd(nodes);
    var idx, before := SkipNodes(nodes, offset);
    AccessedNothing(was, src, offset, write);
    moved := WalkNodes(nodes, idx, offset - before, buf, len, write, was, src, offset);
  }

  /** The object in one stretch: one copy. */
  method AccessWhole(nodes: seq<array<byte>>, size: nat, offset: nat, buf: array<byte>, len: nat, write: bool) returns (moved: nat)
    requires Separate(nodes, buf) && |nodes| == 1 && 0 < len <= buf.Length && offset + len <= size <= nodes[0].Length
    modifies nodes, buf
    ensures moved == len
    ensures Accessed(old(Concat(Contents(nodes))), Concat(Contents(nodes)), old(buf[..]), buf[..], offset, len, write)
  {
    ghost var was, src := Concat(Contents(nodes)), buf[..];
    PosEnd(nodes);
    moved := Min(len, size - offset);
    AccessedNothing(was, src, offset, write);
    assert Pos(nodes, 1) == Pos(nodes, 0) + nodes[0].Length == nodes[0].Length;
    AccessNode(nodes, 0, offset, buf, 0, moved, write, was, src, offset);
  }

  /**
   The access of a debugger at `offset` of an object of `size` bytes: an error when the range is empty or
   runs past the object, or when the object cannot be mapped; nothing when it has no memory; otherwise
   exactly the range of the flat buffer.
  */
  method GemVmAccess(nodes: seq<array<byte>>, size: nat, mapped: bool, offset: nat, buf: array<byte>, len: int, write: bool)
    returns (r: int)
    requires Separate(nodes, buf) && len <= buf.Length && (nodes != [] ==> size <= |Concat(Contents(nodes))|)
    modifies nodes, buf
    ensures r == -EIO <==> len < 1 || offset + len > size || !mapped
    ensures r != -EIO ==> r == if nodes == [] then 0 else len
    ensures r <= 0 ==> Contents(nodes) == old(Contents(nodes)) && buf[..] == old(buf[..])
    ensures r > 0 ==>
      Accessed(old(Concat(Contents(nodes))), Concat(Contents(nodes)), old(buf[..]), buf[..], offset, len, write)
  {
    if len < 1 || offset + len > size { return -EIO; }
    if !mapped { return -EIO; }
    if |nodes| == 0 { return 0; }
    if |nodes| == 1 {
      PosEnd(nodes);
      r := AccessWhole(nodes, size, offset, buf, len, write);
    } else {
      r := AccessNodes(nodes, offset, buf, len, write);
    }
  }

  /** What was written is read back. */
  method WriteThenRead(nodes: seq<array<byte>>, size: nat, offset: nat, data: array<byte>, buf: array<byte>)
    requires Separate(nodes, buf) && Separate(nodes, data) && data != buf && nodes != []
    requires 0 < data.Length <= buf.Length && offset + data.Length <= size <= |Concat(Contents(nodes))|
    modifies nodes, data, buf
    ensures buf[..data.Length] == data[..] == old(data[..])
  {
    ghost var flat := Concat(Contents(nodes));
    var w := GemVmAccess(nodes, size, true, offset, data, data.Length, true);
    assert data[..][..data.Length] == data[..];
    assert |Concat(Contents(nodes))| == |flat|;
    assert Concat(Contents(nodes))[offset..offset + data.Length] == data[..];
    var r := GemVmAccess(nodes, size, true, offset, buf, data.Length, false);
  }
}
