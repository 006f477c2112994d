/**
 Reading device registers through a file, region by region: registers are read with the width of their
 segment and put in the caller's buffer at their place, and holes are filled with zero words.
*/
module MmioRead {
  import opened Common
  import opened MmioTable
  import opened MmioReach
  import opened Mmio

  lemma SamePart(s: seq<byte>, t: seq<byte>, m: nat, from: nat, n: nat)
    requires m <= |s| && m <= |t| && s[..m] == t[..m] && from + n <= m
    ensures s[from..from + n] == t[from..from + n]
  {
    assert s[from..from + n] == s[..m][from..from + n];
    assert t[from..from + n] == t[..m][from..from + n];
  }

  /** The value read is at its place in the caller's buffer, which starts at `lo`, before `p`. */
  predicate GivenTo(a: Access, buf: seq<byte>, lo: nat, p: nat) {
    && lo <= a.slot.pos && a.slot.pos + a.slot.width <= p <= lo + |buf|
    && buf[a.slot.pos - lo..a.slot.pos - lo + a.slot.width] == Image(a.value, a.slot.width)
  }

  /** What a read up to `p` has done to the caller's buffer. */
  ghost predicate Filled(table: seq<Segment>, log: seq<Access>, was: seq<byte>, buf: seq<byte>, lo: nat, p: nat) {
    && lo <= p <= lo + |buf| && |buf| == |was| && buf[p - lo..] == was[p - lo..]
    && (forall k :: 0 <= k < |log| ==> GivenTo(log[k], buf, lo, p))
    && (forall x :: lo <= x < p && InHole(table, x) ==> buf[x - lo] == 0)
  }

  /** At `p` of the range [lo, hi): the accesses made and those to come, and the buffer so far. */
  ghost predicate Reading(table: seq<Segment>, log: seq<Access>, was: seq<byte>, buf: seq<byte>, lo: nat, p: nat, hi: nat)
    requires ValidTable(table)
  {
    Filled(table, log, was, buf, lo, p) && p <= hi && Places(log) + Slots(table, p, hi) == Slots(table, lo, hi)
  }

  /** At the end of the range every access has been made. */
  lemma ReadAll(table: seq<Segment>, log: seq<Access>, was: seq<byte>, buf: seq<byte>, lo: nat, hi: nat)
    requires ValidTable(table) && Reading(table, log, was, buf, lo, hi, hi)
    ensures Places(log) == Slots(table, lo, hi)
  {
    assert Places(log) + [] == Places(log);
  }

  lemma FilledNothing(table: seq<Segment>, buf: seq<byte>, lo: nat)
    ensures Filled(table, [], buf, buf, lo, lo)
  {
  }

  /** What is put behind leaves what was given before. */
  lemma FilledBefore(table: seq<Segment>, log: seq<Access>, was: seq<byte>, buf: seq<byte>, lo: nat, p: nat, data: seq<byte>)
    requires Filled(table, log, was, buf, lo, p) && p - lo + |data| <= |buf|
    ensures var now := Splice(buf, p - lo, data); var q := p + |data|;
      && now[q - lo..] == was[q - lo..] && now[..p - lo] == buf[..p - lo] && now[p - lo..q - lo] == data
      && forall k :: 0 <= k < |log| ==> GivenTo(log[k], now, lo, q)
  {
    var now, q := Splice(buf, p - lo, data), p + |data|;
    assert now[q - lo..] == buf[p - lo..][|data|..] == was[p - lo..][|data|..];
    forall k | 0 <= k < |log| ensures GivenTo(log[k], now, lo, q) {
      var from, w := log[k].slot.pos - lo, log[k].slot.width;
      assert GivenTo(log[k], buf, lo, p);
      SamePart(now, buf, p - lo, from, w);
    }
  }

  lemma FilledRegister(table: seq<Segment>, log: seq<Access>, was: seq<byte>, buf: seq<byte>, lo: nat, p: nat, w: Width, value: nat)
    requires Filled(table, log, was, buf, lo, p) && p - lo + w <= |buf|
    requires forall x :: p <= x < p + w ==> !InHole(table, x)
    ensures Filled(table, log + [Access(Slot(p, w), value)], was, Splice(buf, p - lo, Image(value, w)), lo, p + w)
  {
    FilledBefore(table, log, was, buf, lo, p, Image(value, w));
    var now := Splice(buf, p - lo, Image(value, w));
    forall x | lo <= x < p + w && InHole(table, x) ensures now[x - lo] == 0 {
      assert x < p && now[x - lo] == now[..p - lo][x - lo] == buf[..p - lo][x - lo];
    }
  }

  lemma FilledHole(table: seq<Segment>, log: seq<Access>, was: seq<byte>, buf: seq<byte>, lo: nat, p: nat, w: Width)
    requires Filled(table, log, was, buf, lo, p) && p - lo + w <= |buf|
    ensures Filled(table, log, was, Splice(buf, p - lo, Image(0, w)), lo, p + w)
  {
    FilledBefore(table, log, was, buf, lo, p, Image(0, w));
    ImageZero(w);
    var now := Splice(buf, p - lo, Image(0, w));
    forall x | lo <= x < p + w && InHole(table, x) ensures now[x - lo] == 0 {
      if x < p {
        assert now[x - lo] == now[..p - lo][x - lo] == buf[..p - lo][x - lo];
      } else {
        assert now[x - lo] == now[p - lo..p + w - lo][x - p];
      }
    }
  }

  lemma {:induction false} ImageZero(n: nat)
    ensures forall i :: 0 <= i < n ==> Image(0, n)[i] == 0
  {
    if n > 0 { ImageZero(n - 1); }
  }

  method PutUser(buf: array<byte>, at: nat, value: nat, width: Width)
    requires at + width <= buf.Length
    modifies buf
    ensures buf[..] == Splice(old(buf[..]), at, Image(value, width))
  {
    var image := Image(value, width);
    forall i | 0 <= i < width { buf[at + i] := image[i]; }
    assert buf[..at] == old(buf[..at]) && buf[at..at + width] == image && buf[at + width..] == old(buf[at + width..]);
  }

  // ---------------------------------------------------------------- the walk

  lemma ReadOn(table: seq<Segment>, mmioSize: nat, log: seq<Access>, now: seq<Access>, was: seq<byte>, buf: seq<byte>, bufNow: seq<byte>,
    lo: nat, p: nat, hi: nat, value: nat)
    requires ValidTable(table) && Reading(table, log, was, buf, lo, p, hi) && !InHole(table, p) && hi - lo <= |buf|
    requires p + WidthAt(table, p) <= hi && p + WidthAt(table, p) <= RegionEnd(table, mmioSize, p)
    requires var w := WidthAt(table, p);
      now == log + [Access(Slot(p, w), value)] && bufNow == Splice(buf, p - lo, Image(value, w))
    ensures Reading(table, now, was, bufNow, lo, p + WidthAt(table, p), hi)
  {
    var w := WidthAt(table, p);
    forall x | p <= x < p + w ensures !InHole(table, x) { SameRegion(table, mmioSize, p, x); }
    FilledRegister(table, log, was, buf, lo, p, w, value);
    assert Places(log + [Access(Slot(p, w), value)]) == Places(log) + [Slot(p, w)];
  }

  /** Read one register into its place in the buffer. */
  method ReadOne(table: seq<Segment>, ghost mmioSize: nat, bus: Bus, buf: array<byte>, ghost was: seq<byte>, ghost lo: nat,
    p: nat, ghost hi: nat, width: Width, at: nat)
    requires ValidTable(table) && Reading(table, bus.log, was, buf[..], lo, p, hi) && at == p - lo && hi - lo <= buf.Length
    requires !InHole(table, p) && width == WidthAt(table, p) && p + width <= hi && p + width <= RegionEnd(table, mmioSize, p)
    modifies bus`log, buf
    ensures Reading(table, bus.log, was, buf[..], lo, p + width, hi)
  {
    ghost var log, before := bus.log, buf[..];
    var value := bus.Read(p, width);
    PutUser(buf, at, value, width);
    ReadOn(table, mmioSize, log, bus.log, was, before, buf[..], lo, p, hi, value);
  }

  /** One register of the segment that this turn entered at `pos`. */
  method ReadRegister(table: seq<Segment>, ghost mmioSize: nat, bus: Bus, buf: array<byte>, ghost was: seq<byte>, ghost lo: nat,
    ghost pos: nat, p: nat, ghost hi: nat, width: Width, at: nat)
    requires ValidTable(table) && Reading(table, bus.log, was, buf[..], lo, p, hi) && at == p - lo && hi - lo <= buf.Length
    requires !InHole(table, pos) && width == WidthAt(table, pos)
    requires Aligned(table, p, hi) && pos <= p < Until(table, mmioSize, pos, hi)
    modifies bus`log, buf
    ensures p + width <= Until(table, mmioSize, pos, hi)
    ensures Reading(table, bus.log, was, buf[..], lo, p + width, hi) && (p + width < hi ==> Aligned(table, p + width, hi))
  {
    InTurn(table, mmioSize, pos, p, hi);
    SameRegion(table, mmioSize, pos, p);
    ReadOne(table, mmioSize, bus, buf, was, lo, p, hi, width, at);
  }

  method ReadSegment(table: seq<Segment>, ghost mmioSize: nat, bus: Bus, buf: array<byte>, ghost was: seq<byte>, ghost lo: nat,
    pos: nat, ghost hi: nat, length: nat, width: Width, at: nat) returns (q: nat, done: nat)
    requires ValidTable(table) && Reading(table, bus.log, was, buf[..], lo, pos, hi) && at == pos - lo && hi - lo <= buf.Length
    requires Aligned(table, pos, hi) && !InHole(table, pos) && width == WidthAt(table, pos)
    requires pos + length == Until(table, mmioSize, pos, hi)
    modifies bus`log, buf
    ensures q == pos + length && done == at + length
    ensures Reading(table, bus.log, was, buf[..], lo, q, hi) && (q < hi ==> Aligned(table, q, hi))
  {
    var left: nat := length;
    q, done := pos, at;
    while left > 0
      invariant q + left == pos + length && q >= pos && done == q - lo
      invariant Reading(table, bus.log, was, buf[..], lo, q, hi)
      invariant q < hi ==> Aligned(table, q, hi)
    {
      ReadRegister(table, mmioSize, bus, buf, was, lo, pos, q, hi, width, done);
      q, done, left := q + width, done + width, left - width;
      assert Reading(table, bus.log, was, buf[..], lo, q, hi);
    }
  }

  /** The words of one hole, from `pos` for `length` bytes: the device is not touched. */
  method ReadHole(table: seq<Segment>, bus: Bus, buf: array<byte>, ghost was: seq<byte>, ghost lo: nat,
    pos: nat, length: nat, at: nat) returns (q: nat, done: nat)
    requires ValidTable(table) && Filled(table, bus.log, was, buf[..], lo, pos) && at == pos - lo
    requires length % 4 == 0 && at + length <= buf.Length
    modifies buf
    ensures q == pos + length && done == at + length
    ensures Filled(table, bus.log, was, buf[..], lo, q)
  {
    var left: nat := length;
    q, done := pos, at;
    while left > 0
      invariant q + left == pos + length && q >= pos && done == q - lo && left % 4 == 0
      invariant Filled(table, bus.log, was, buf[..], lo, q)
    {
      FilledHole(table, bus.log, was, buf[..], lo, q, 4);
      PutUser(buf, done, 0, 4);
      q, done, left := q + 4, done + 4, left - 4;
    }
  }

  /** One turn of the walk: a hole or a segment. */
  method ReadTurn(table: seq<Segment>, mmioSize: nat, bus: Bus, buf: array<byte>, ghost was: seq<byte>, ghost lo: nat,
    p: nat, ghost hi: nat, size: nat, at: nat) returns (q: nat, done: nat, left: nat)
    requires ValidTable(table) && table != [] && p + size == hi <= mmioSize < TWO_31 && at == p - lo && hi - lo <= buf.Length
    requires Reading(table, bus.log, was, buf[..], lo, p, hi) && Aligned(table, p, hi)
    modifies bus`log, buf
    ensures p < q && q + left == hi && done == q - lo
    ensures Reading(table, bus.log, was, buf[..], lo, q, hi) && (q < hi ==> Aligned(table, q, hi))
  {
    var empty, width, length := Region(table, mmioSize, p, p + size);
    left := size - length;
    if empty {
      AlignedHole(table, mmioSize, p, hi);
      q, done := ReadHole(table, bus, buf, was, lo, p, length, at);
      assert q == Until(table, mmioSize, p, hi);
    } else {
      AlignedAccess(table, mmioSize, p, hi);
      q, done := ReadSegment(table, mmioSize, bus, buf, was, lo, p, hi, length, width, at);
    }
  }

  method ReadRange(table: seq<Segment>, mmioSize: nat, bus: Bus, buf: array<byte>, pos: nat, n: nat) returns (result: nat, newPos: nat)
    requires ValidTable(table) && table != [] && pos + n <= mmioSize < TWO_31 && n <= buf.Length && bus.log == []
    requires Aligned(table, pos, pos + n)
    modifies bus`log, buf
    ensures result == n && newPos == pos + n && Places(bus.log) == Slots(table, pos, newPos)
    ensures Filled(table, bus.log, old(buf[..]), buf[..], pos, newPos)
  {
    var size := n;
    ghost var hi, was := pos + n, buf[..];
    newPos, result := pos, 0;
    assert Places([]) == [];
    while size > 0
      invariant newPos + size == hi && result == newPos - pos
      invariant Reading(table, bus.log, was, buf[..], pos, newPos, hi) && (newPos < hi ==> Aligned(table, newPos, hi))
    {
      newPos, result, size := ReadTurn(table, mmioSize, bus, buf, was, pos, newPos, hi, size, result);
    }
    ReadAll(table, bus.log, was, buf[..], pos, hi);
  }

  /**
   Each register of the range is read once, in order, and lands at its place in the buffer; holes read
   as zero and are not touched; the buffer behind the range is left alone. A request that is not
   addressable and passes the checks never returns, see ServedExact.
  */
  method MmioRead(table: seq<Segment>, mmioSize: nat, bus: Bus, buf: array<byte>, pos: nat) returns (r: int, newPos: nat)
    requires ValidTable(table) && 0 < mmioSize < TWO_31 && pos < TWO_63 && pos + buf.Length < TWO_64
    requires Addressable(mmioSize, pos) || Begin(table, mmioSize, buf.Length, pos).Answer?
    modifies bus, buf
    ensures bus.past == old(bus.past + bus.log)
    ensures r == Returned(table, mmioSize, buf.Length, pos) && newPos == if r > 0 then pos + r else pos
    ensures Places(bus.log) == if r > 0 then Slots(table, pos, newPos) else []
    ensures Filled(table, bus.log, old(buf[..]), buf[..], pos, newPos)
  {
    bus.Begin();
    var b := Check(table, mmioSize, buf.Length, pos);
    Begins(table, mmioSize, buf.Length, pos);
    newPos := pos;
    match b {
      case Answer(a) =>
        r := a;
        FilledNothing(table, buf[..], pos);
      case Start(w) => r, newPos := ReadRange(table, mmioSize, bus, buf, pos, w.size);
    }
  }
}
