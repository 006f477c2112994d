/**
 Reading and writing device registers through a file: a range of positions is walked region by region.
 Segments are accessed register by register; holes read as zero and swallow what is written to them.
*/
module Mmio {
  import opened Common
  import opened MmioTable
  import opened MmioReach

  /** The value of a little-endian register image, and the image of a value. */
  function Value(image: seq<byte>): nat {
    if image == [] then 0 else image[0] as int + 256 * Value(image[1..])
  }

  function Image(value: nat, n: nat): (s: seq<byte>)
    ensures |s| == n
  {
    if n == 0 then [] else [(value % 256) as byte] + Image(value / 256, n - 1)
  }

  lemma LowByte(b: nat, rest: nat)
    requires b < 256
    ensures (b + 256 * rest) % 256 == b && (b + 256 * rest) / 256 == rest
  {
  }

  /** A value that was put in a buffer is got back. */
  lemma {:induction false} ImageValue(image: seq<byte>)
    ensures Image(Value(image), |image|) == image
  {
    if image != [] {
      LowByte(image[0] as int, Value(image[1..]));
      ImageValue(image[1..]);
    }
  }

  /** A register takes the first byte of its place in the buffer as its lowest. */
  lemma RegisterValue(image: seq<byte>)
    requires |image| in {1, 2, 4}
    ensures Value(image) ==
      image[0] as int + (if |image| > 1 then 256 * image[1] as int else 0)
      + (if |image| > 2 then 0x1_0000 * image[2] as int + 0x100_0000 * image[3] as int else 0)
  {
    if |image| > 1 { assert Value(image[1..]) == image[1] as int + 256 * Value(image[2..]); }
    if |image| > 2 {
      assert Value(image[2..]) == image[2] as int + 256 * Value(image[3..]);
      assert image[3..][1..] == [] && Value(image[3..]) == image[3] as int;
    }
  }

  datatype Access = Access(slot: Slot, value: nat)

  function Places(log: seq<Access>): seq<Slot> { seq(|log|, k requires 0 <= k < |log| => log[k].slot) }

  /** The device: it answers reads as it likes and records every access: those of the request it serves now, and those of the past. */
  class Bus {
    ghost var log: seq<Access>
    ghost var past: seq<Access>

    ghost method Begin()
      modifies this
      ensures log == [] && past == old(past + log)
    {
      log, past := [], past + log;
    }

    method Read(pos: nat, width: Width) returns (value: nat)
      modifies this`log
      ensures log == old(log) + [Access(Slot(pos, width), value)]
    {
      value := *;
      log := log + [Access(Slot(pos, width), value)];
    }

    method Write(pos: nat, width: Width, value: nat)
      modifies this`log
      ensures log == old(log) + [Access(Slot(pos, width), value)]
    {
      log := log + [Access(Slot(pos, width), value)];
    }
  }

  // ---------------------------------------------------------------- the segment of a position

  /** Find the segment or hole that holds `pos`, a signed number that the table's bounds are compared with unsigned. */
  method FindSegment(table: seq<Segment>, mmioSize: nat, pos: int) returns (error: bool, index: nat, empty: bool)
    requires ValidTable(table) && 0 <= pos + TWO_31 && pos < TWO_31 && mmioSize < TWO_31
    ensures Find(table, mmioSize, pos) == if error then Missing else Found(index, empty)
  {
    error, index, empty := false, 0, false;
    if |table| == 0 || mmioSize == 0 || pos >= mmioSize {
      return true, 0, false;
    }
    var unsigned := if pos < 0 then pos + TWO_32 else pos;
    var i := 0;
    while i < |table|
      invariant 0 <= i <= |table| && forall j :: 0 <= j < i ==> table[j].end <= pos
      invariant i > 0 ==> 0 <= pos && i < |table| && table[i].start <= pos
    {
      assert table[|table| - 1].Valid();
      if pos >= 0 && pos < table[0].start {
        empty, index := true, 0;
        break;
      } else if unsigned >= table[|table| - 1].end {
        empty, index := true, |table|;
        break;
      } else if table[i].start <= unsigned < table[i].end {
        empty, index := false, i;
        break;
      } else if unsigned >= table[i].end && unsigned < table[i + 1].start {
        empty, index := true, i + 1;
        break;
      }
      i := i + 1;
    }
    assert index < |table| ==> table[index].Valid();
    if pos >= 0 { IndexIs(table, pos, index); }
  }

  /** The region at `pos`: whether it is a hole, its width, and how far this turn goes. */
  method Region(table: seq<Segment>, mmioSize: nat, pos: nat, hi: nat) returns (empty: bool, width: Width, length: nat)
    requires ValidTable(table) && table != [] && pos < hi <= mmioSize < TWO_31
    ensures empty == InHole(table, pos) && width == WidthAt(table, pos)
    ensures pos + length == Until(table, mmioSize, pos, hi)
  {
    var error, index;
    error, index, empty := FindSegment(table, mmioSize, pos);
    var segEnd;
    if empty {
      segEnd := if index == |table| then mmioSize else table[index].start;
    } else {
      segEnd := table[index].end;
    }
    width := if empty then 4 else table[index].alignment;
    IndexBounds(table, pos);
    HoleExact(table, pos);
    length := if hi > segEnd then segEnd - pos else hi - pos;
  }

  /** The check of the end of `n` bytes, `index` and `empty` being what the search for their start left. */
  method CheckEnd(table: seq<Segment>, mmioSize: nat, pos: nat, n: nat, index: nat, empty: bool) returns (b: Begun)
    requires ValidTable(table) && 0 < mmioSize < TWO_31 && Sound(table, Found(index, empty))
    requires On(pos, WidthOf(table, Found(index, empty)))
    ensures b == CheckEnds(table, mmioSize, pos, n, Found(index, empty))
  {
    var at := Found(index, empty);
    var error, index', empty' := FindSegment(table, mmioSize, ToInt32(Low64(pos + n - 1)));
    if !error { at := Found(index', empty'); }
    var align := if at.empty then 4 else table[at.index].alignment;
    b := if !On(Low64(pos + n), align) then Answer(-EINVAL) else Start(Walk(pos, n, at));
  }

  /** The checks on a request at any position, with the driver's arithmetic. */
  method Check(table: seq<Segment>, mmioSize: nat, size: nat, pos: nat) returns (b: Begun)
    requires ValidTable(table) && 0 < mmioSize < TWO_31
    ensures b == Begin(table, mmioSize, size, pos)
  {
    if size == 0 { return Answer(0); }
    var error, index, empty := FindSegment(table, mmioSize, ToInt32(pos));
    if error { return Answer(0); }
    var align: Width := if empty then 4 else table[index].alignment;
    if !On(pos, align) { return Answer(-EINVAL); }
    var n := size;
    if Low64(pos + size) > mmioSize { n := Low64(mmioSize - pos); }
    b := CheckEnd(table, mmioSize, pos, n, index, empty);
  }

  // ---------------------------------------------------------------- writing

  /** At `p` of the range [lo, hi): the accesses made and those to come, and the values taken from `user`. */
  ghost predicate Written(table: seq<Segment>, log: seq<Access>, user: seq<byte>, lo: nat, p: nat, hi: nat)
    requires ValidTable(table)
  {
    && lo <= p <= hi <= lo + |user| && Places(log) + Slots(table, p, hi) == Slots(table, lo, hi)
    && forall k :: 0 <= k < |log| ==> TakenFrom(log[k], user, lo)
  }

  /** The value written is the one at its place in the caller's buffer, which starts at `lo`. */
  predicate TakenFrom(a: Access, user: seq<byte>, lo: nat) {
    && lo <= a.slot.pos && a.slot.pos + a.slot.width <= lo + |user|
    && a.value == Value(user[a.slot.pos - lo..a.slot.pos - lo + a.slot.width])
  }

  /** At `p` in the segment that a turn entered at `pos`. */
  lemma InTurn(table: seq<Segment>, mmioSize: nat, pos: nat, p: nat, hi: nat)
    requires ValidTable(table) && Aligned(table, p, hi) && !InHole(table, pos)
    requires pos <= p < Until(table, mmioSize, pos, hi)
    ensures var w := WidthAt(table, pos);
      && !InHole(table, p) && WidthAt(table, p) == w && p + w <= Until(table, mmioSize, pos, hi)
      && (p + w < hi ==> Aligned(table, p + w, hi))
  {
    SameRegion(table, mmioSize, pos, p);
    AlignedAccess(table, mmioSize, p, hi);
  }

  lemma WrittenOn(table: seq<Segment>, was: seq<Access>, now: seq<Access>, user: seq<byte>, lo: nat, p: nat, hi: nat)
    requires ValidTable(table) && Written(table, was, user, lo, p, hi)
    requires !InHole(table, p) && p + WidthAt(table, p) <= hi
    requires var w := WidthAt(table, p); now == was + [Access(Slot(p, w), Value(user[p - lo..p - lo + w]))]
    ensures Written(table, now, user, lo, p + WidthAt(table, p), hi)
  {
    assert Places(now) == Places(was) + [Slot(p, WidthAt(table, p))];
  }

  /** One register of the segment that this turn entered at `pos`. */
  method WriteRegister(table: seq<Segment>, ghost mmioSize: nat, bus: Bus, user: seq<byte>, ghost lo: nat, ghost pos: nat, p: nat, ghost hi: nat, width: Width, at: nat)
    requires ValidTable(table) && Written(table, bus.log, user, lo, p, hi) && at == p - lo
    requires !InHole(table, pos) && width == WidthAt(table, pos)
    requires Aligned(table, p, hi) && pos <= p < Until(table, mmioSize, pos, hi)
    modifies bus`log
    ensures p + width <= Until(table, mmioSize, pos, hi)
    ensures Written(table, bus.log, user, lo, p + width, hi) && (p + width < hi ==> Aligned(table, p + width, hi))
  {
    InTurn(table, mmioSize, pos, p, hi);
    bus.Write(p, width, Value(user[at..at + width]));
    WrittenOn(table, old(bus.log), bus.log, user, lo, p, hi);
  }

  /** The registers of one segment, from `pos` for `length` bytes. */
  method WriteSegment(table: seq<Segment>, ghost mmioSize: nat, bus: Bus, user: seq<byte>, ghost lo: nat, pos: nat, ghost hi: nat, length: nat, width: Width, at: nat)
    returns (q: nat, done: nat)
    requires ValidTable(table) && Written(table, bus.log, user, lo, pos, hi) && at == pos - lo
    requires Aligned(table, pos, hi) && !InHole(table, pos) && width == WidthAt(table, pos)
    requires pos + length == Until(table, mmioSize, pos, hi)
    modifies bus`log
    ensures q == pos + length && done == at + length
    ensures Written(table, bus.log, user, lo, q, hi) && (q < hi ==> Aligned(table, q, hi))
  {
    var left: nat := length;
    q, done := pos, at;
    while left > 0
      invariant q + left == pos + length && q >= pos && done == q - lo
      invariant Written(table, bus.log, user, lo, q, hi)
      invariant q < hi ==> Aligned(table, q, hi)
    {
      WriteRegister(table, mmioSize, bus, user, lo, pos, q, hi, width, done);
      q, done, left := q + width, done + width, left - width;
    }
  }

  /** One turn of the walk: a hole is passed over, a segment written. */
  method WriteTurn(table: seq<Segment>, mmioSize: nat, bus: Bus, user: seq<byte>, ghost lo: nat, p: nat, ghost hi: nat, size: nat, at: nat)
    returns (q: nat, done: nat, left: nat)
    requires ValidTable(table) && table != [] && p + size == hi <= mmioSize < TWO_31 && at == p - lo
    requires Written(table, bus.log, user, lo, p, hi) && Aligned(table, p, hi)
    modifies bus`log
    ensures p < q && q + left == hi && done == q - lo
    ensures Written(table, bus.log, user, lo, q, hi) && (q < hi ==> Aligned(table, q, hi))
  {
    var empty, width, length := Region(table, mmioSize, p, p + size);
    left := size - length;
    if empty {
      AlignedHole(table, mmioSize, p, hi);
      q, done := p + length, at + length;
      assert q == Until(table, mmioSize, p, hi);
    } else {
      AlignedAccess(table, mmioSize, p, hi);
      q, done := WriteSegment(table, mmioSize, bus, user, lo, p, hi, length, width, at);
    }
  }

  /** The walk over an aligned range. */
  method WriteRange(table: seq<Segment>, mmioSize: nat, bus: Bus, user: seq<byte>, pos: nat, n: nat) returns (result: nat, newPos: nat)
    requires ValidTable(table) && table != [] && pos + n <= mmioSize < TWO_31 && n <= |user| && bus.log == []
    requires Aligned(table, pos, pos + n)
    modifies bus`log
    ensures result == n && newPos == pos + n && Places(bus.log) == Slots(table, pos, newPos)
    ensures forall k :: 0 <= k < |bus.log| ==> TakenFrom(bus.log[k], user, pos)
  {
    var size := n;
    ghost var hi := pos + n;
    newPos, result := pos, 0;
    assert Places([]) == [];
    while size > 0
      invariant newPos + size == hi && result == newPos - pos
      invariant Written(table, bus.log, user, pos, newPos, hi) && (newPos < hi ==> Aligned(table, newPos, hi))
    {
      newPos, result, size := WriteTurn(table, mmioSize, bus, user, pos, newPos, hi, size, result);
    }
  }

  /** A request at a position that is not addressable but is answered all the same. */
  lemma AnsweredOutside(table: seq<Segment>, mmioSize: nat, size: nat, pos: nat)
    requires ValidTable(table) && 0 < mmioSize < TWO_31 && pos < TWO_63 && pos + size < TWO_64
    requires !Addressable(mmioSize, pos) && Begin(table, mmioSize, size, pos).Answer?
    ensures Begin(table, mmioSize, size, pos) == Answer(if size == 0 || table == [] then 0 else -EINVAL)
  {
    if size > 0 && table != [] { var k, q := BeginOutside(table, mmioSize, size, pos); }
  }

  /** What a request returns, if it returns. */
  function Returned(table: seq<Segment>, mmioSize: nat, size: nat, pos: nat): int
    requires ValidTable(table)
  {
    if Addressable(mmioSize, pos) then Outcome(table, mmioSize, size, pos)
    else if size == 0 || table == [] then 0 else -EINVAL
  }

  /** How a request that returns begins: with an answer, or with a walk over an aligned range in the registers. */
  lemma Begins(table: seq<Segment>, mmioSize: nat, size: nat, pos: nat)
    requires ValidTable(table) && 0 < mmioSize < TWO_31 && pos < TWO_63 && pos + size < TWO_64
    requires Addressable(mmioSize, pos) || Begin(table, mmioSize, size, pos).Answer?
    ensures var b, n := Begin(table, mmioSize, size, pos), Returned(table, mmioSize, size, pos);
      if n <= 0 then b == Answer(n)
      else
        && b.Start? && b.walk.pos == pos && b.walk.size == n <= size
        && table != [] && pos + n <= mmioSize && Aligned(table, pos, pos + n)
  {
    if Addressable(mmioSize, pos) {
      BeginInside(table, mmioSize, size, pos);
    } else {
      AnsweredOutside(table, mmioSize, size, pos);
    }
  }

  /**
   Each register of the range is written once, in order, with its bytes of the buffer; no hole is touched.
   A request that is not addressable and passes the checks never returns, see ServedExact.
  */
  method MmioWrite(table: seq<Segment>, mmioSize: nat, bus: Bus, user: seq<byte>, pos: nat) returns (r: int, newPos: nat)
    requires ValidTable(table) && 0 < mmioSize < TWO_31 && pos < TWO_63 && pos + |user| < TWO_64
    requires Addressable(mmioSize, pos) || Begin(table, mmioSize, |user|, pos).Answer?
    modifies bus
    ensures bus.past == old(bus.past + bus.log)
    ensures r == Returned(table, mmioSize, |user|, pos) && newPos == if r > 0 then pos + r else pos
    ensures Places(bus.log) == if r > 0 then Slots(table, pos, newPos) else []
    ensures forall k :: 0 <= k < |bus.log| ==> TakenFrom(bus.log[k], user, pos)
  {
    bus.Begin();
    var b := Check(table, mmioSize, |user|, pos);
    Begins(table, mmioSize, |user|, pos);
    newPos := pos;
    match b {
      case Answer(a) => r := a;
      case Start(w) => r, newPos := WriteRange(table, mmioSize, bus, user, pos, w.size);
    }
  }
}
