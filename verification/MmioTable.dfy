/**
 The register space of the device: a sorted table of segments with holes between them. Each segment
 is accessed with its own width. Slots lists, byte by byte, the accesses a range calls for.
*/
module MmioTable {
  import opened Common

  /** The width of an access in bytes. */
  type Width = w: nat | w == 1 || w == 2 || w == 4 witness 4

  /** `p` is a multiple of the width. */
  predicate On(p: nat, w: Width) { w == 1 || p % 4 == 0 || (w == 2 && p % 4 == 2) }

  datatype Segment = Segment(start: nat, end: nat, alignment: Width) {
    predicate Valid() { start < end <= TWO_31 && start % 4 == 0 && end % 4 == 0 }

    predicate Has(p: nat) { start <= p < end }
  }

  predicate ValidTable(table: seq<Segment>) {
    && (forall i :: 0 <= i < |table| ==> table[i].Valid())
    && (forall i, j :: 0 <= i < j < |table| ==> table[i].end <= table[j].start)
  }

  predicate InSegment(table: seq<Segment>, p: nat) { exists i :: 0 <= i < |table| && table[i].Has(p) }

  /** The number of segments that end at or before `p`. */
  function Index(table: seq<Segment>, p: nat): (r: nat)
    ensures r <= |table|
  {
    if table == [] || p < table[0].end then 0 else 1 + Index(table[1..], p)
  }

  predicate InHole(table: seq<Segment>, p: nat) { Index(table, p) == |table| || p < table[Index(table, p)].start }

  /** The width registers are accessed with at `p`; holes count as 32-bit. */
  function WidthAt(table: seq<Segment>, p: nat): Width {
    if InHole(table, p) then 4 else table[Index(table, p)].alignment
  }

  /** Where the segment or the hole that holds `p` ends. */
  function RegionEnd(table: seq<Segment>, mmioSize: nat, p: nat): nat {
    var i := Index(table, p);
    if !InHole(table, p) then table[i].end else if i == |table| then mmioSize else table[i].start
  }

  lemma {:induction false} IndexIs(table: seq<Segment>, p: nat, i: nat)
    requires ValidTable(table) && i <= |table|
    requires (i > 0 ==> table[i - 1].end <= p) && (i < |table| ==> p < table[i].end)
    ensures Index(table, p) == i
  {
    if i > 0 { IndexIs(table[1..], p, i - 1); }
  }

  lemma {:induction false} IndexBounds(table: seq<Segment>, p: nat)
    requires ValidTable(table)
    ensures var i := Index(table, p); (i > 0 ==> table[i - 1].end <= p) && (i < |table| ==> p < table[i].end)
  {
    if table != [] && p >= table[0].end { IndexBounds(table[1..], p); }
  }

  /** The holes are the bytes of no segment. */
  lemma HoleExact(table: seq<Segment>, p: nat)
    requires ValidTable(table)
    ensures InHole(table, p) <==> !InSegment(table, p)
    ensures !InHole(table, p) ==> table[Index(table, p)].Has(p)
  {
    IndexBounds(table, p);
    forall i | 0 <= i < |table| && table[i].Has(p) ensures i == Index(table, p) { IndexIs(table, p, i); }
  }

  /** All positions of a region are alike. */
  lemma SameRegion(table: seq<Segment>, mmioSize: nat, p: nat, q: nat)
    requires ValidTable(table) && p <= q < RegionEnd(table, mmioSize, p)
    ensures Index(table, q) == Index(table, p) && InHole(table, q) == InHole(table, p)
    ensures WidthAt(table, q) == WidthAt(table, p) && RegionEnd(table, mmioSize, q) == RegionEnd(table, mmioSize, p)
  {
    IndexBounds(table, p);
    IndexIs(table, q, Index(table, p));
  }

  // ---------------------------------------------------------------- the accesses of a range

  datatype Slot = Slot(pos: nat, width: Width)

  function Slots(table: seq<Segment>, lo: nat, hi: nat): seq<Slot>
    requires ValidTable(table)
    decreases hi - lo
  {
    if lo >= hi then []
    else if InHole(table, lo) then Slots(table, lo + 1, hi)
    else [Slot(lo, WidthAt(table, lo))] + Slots(table, lo + WidthAt(table, lo), hi)
  }

  lemma {:induction false} SlotsSkip(table: seq<Segment>, lo: nat, mid: nat, hi: nat)
    requires ValidTable(table) && lo <= mid <= hi
    requires forall p :: lo <= p < mid ==> InHole(table, p)
    ensures Slots(table, lo, hi) == Slots(table, mid, hi)
    decreases mid - lo
  {
    if lo < mid { SlotsSkip(table, lo + 1, mid, hi); }
  }

  /** The two checks on a request: both ends lie on the width of the region they are in. */
  predicate Aligned(table: seq<Segment>, lo: nat, hi: nat) {
    lo < hi && On(lo, WidthAt(table, lo)) && On(hi, WidthAt(table, hi - 1))
  }

  /** A multiple of 4 is on every width. */
  lemma Boundary(p: nat, w: Width)
    requires p % 4 == 0
    ensures On(p, w)
  {
  }

  /** From a multiple of the width, another one further on is at least a width away. */
  lemma NextOn(lo: nat, hi: nat, w: Width)
    requires On(lo, w) && lo < hi && On(hi, w)
    ensures lo + w <= hi && On(lo + w, w)
  {
  }

  /** One access inside a segment: it fits the range and the segment, and what is left is aligned again. */
  lemma AlignedAccess(table: seq<Segment>, mmioSize: nat, lo: nat, hi: nat)
    requires ValidTable(table) && Aligned(table, lo, hi) && !InHole(table, lo)
    ensures lo + WidthAt(table, lo) <= Until(table, mmioSize, lo, hi)
    ensures lo + WidthAt(table, lo) < hi ==> Aligned(table, lo + WidthAt(table, lo), hi)
  {
    var w, end := WidthAt(table, lo), RegionEnd(table, mmioSize, lo);
    IndexBounds(table, lo);
    assert table[Index(table, lo)].Valid();
    Boundary(end, w);
    NextOn(lo, end, w);
    if hi <= end {
      SameRegion(table, mmioSize, lo, hi - 1);
      NextOn(lo, hi, w);
    }
    if lo + w < end { SameRegion(table, mmioSize, lo, lo + w); } else { Boundary(lo + w, WidthAt(table, lo + w)); }
  }

  /** How far one turn of the walk goes: to the end of the region or of the range. */
  function Until(table: seq<Segment>, mmioSize: nat, lo: nat, hi: nat): nat {
    if hi > RegionEnd(table, mmioSize, lo) then RegionEnd(table, mmioSize, lo) else hi
  }

  /** One hole: whole 32-bit words, nothing to access, and what is left is aligned again. */
  lemma AlignedHole(table: seq<Segment>, mmioSize: nat, lo: nat, hi: nat)
    requires ValidTable(table) && Aligned(table, lo, hi) && InHole(table, lo) && hi <= mmioSize
    ensures var q := Until(table, mmioSize, lo, hi);
      && lo < q <= hi && (q - lo) % 4 == 0 && (q < hi ==> Aligned(table, q, hi))
      && (forall p :: lo <= p < q ==> InHole(table, p))
      && Slots(table, lo, hi) == Slots(table, q, hi)
  {
    var end, q := RegionEnd(table, mmioSize, lo), Until(table, mmioSize, lo, hi);
    IndexBounds(table, lo);
    forall p | lo <= p < q ensures InHole(table, p) { SameRegion(table, mmioSize, lo, p); }
    SlotsSkip(table, lo, q, hi);
    if q == hi {
      SameRegion(table, mmioSize, lo, hi - 1);
    } else {
      assert table[Index(table, lo)].Valid();
      Boundary(q, WidthAt(table, q));
    }
  }

  /** An access lies in a segment, on its width, and has that width. */
  predicate Fits(table: seq<Segment>, s: Slot) {
    On(s.pos, s.width)
    && exists i :: 0 <= i < |table| && table[i].start <= s.pos && s.pos + s.width <= table[i].end && s.width == table[i].alignment
  }

  /** Some access takes in byte `p`. */
  predicate Touched(slots: seq<Slot>, p: nat) {
    slots != [] && (slots[0].pos <= p < slots[0].pos + slots[0].width || Touched(slots[1..], p))
  }

  lemma TouchedCons(s: Slot, rest: seq<Slot>, p: nat)
    ensures Touched([s] + rest, p) <==> s.pos <= p < s.pos + s.width || Touched(rest, p)
  {
    assert ([s] + rest)[1..] == rest;
  }

  lemma {:induction false} NotTouched(slots: seq<Slot>, p: nat)
    requires forall k :: 0 <= k < |slots| ==> p < slots[k].pos
    ensures !Touched(slots, p)
  {
    if slots != [] { NotTouched(slots[1..], p); }
  }

  /** Each access fits, they come in order without overlap, inside the range. */
  ghost predicate Proper(table: seq<Segment>, slots: seq<Slot>, lo: nat, hi: nat) {
    && (forall k :: 0 <= k < |slots| ==> Fits(table, slots[k]) && lo <= slots[k].pos && slots[k].pos + slots[k].width <= hi)
    && (forall k :: 0 < k < |slots| ==> slots[k - 1].pos + slots[k - 1].width <= slots[k].pos)
  }

  lemma ProperCons(table: seq<Segment>, s: Slot, rest: seq<Slot>, hi: nat)
    requires Proper(table, rest, s.pos + s.width, hi) && Fits(table, s) && s.pos + s.width <= hi
    ensures Proper(table, [s] + rest, s.pos, hi)
  {
  }

  lemma FitsAt(table: seq<Segment>, mmioSize: nat, lo: nat)
    requires ValidTable(table) && !InHole(table, lo) && On(lo, WidthAt(table, lo))
    requires lo + WidthAt(table, lo) <= RegionEnd(table, mmioSize, lo)
    ensures Fits(table, Slot(lo, WidthAt(table, lo)))
  {
    var i := Index(table, lo);
    assert table[i].start <= lo && table[i].alignment == WidthAt(table, lo);
  }

  lemma {:induction false} SlotsProper(table: seq<Segment>, mmioSize: nat, lo: nat, hi: nat)
    requires ValidTable(table) && (lo < hi ==> Aligned(table, lo, hi)) && hi <= mmioSize
    ensures Proper(table, Slots(table, lo, hi), lo, hi)
    decreases hi - lo
  {
    if lo < hi && InHole(table, lo) {
      AlignedHole(table, mmioSize, lo, hi);
      SlotsProper(table, mmioSize, Until(table, mmioSize, lo, hi), hi);
    } else if lo < hi {
      var s := Slot(lo, WidthAt(table, lo));
      AlignedAccess(table, mmioSize, lo, hi);
      SlotsProper(table, mmioSize, lo + s.width, hi);
      FitsAt(table, mmioSize, lo);
      ProperCons(table, s, Slots(table, lo + s.width, hi), hi);
    }
  }

  /** A byte of the hole a range starts with is not accessed; one behind the hole is, if the accesses behind it do. */
  lemma FirstHole(table: seq<Segment>, mmioSize: nat, lo: nat, hi: nat, p: nat)
    requires ValidTable(table) && Aligned(table, lo, hi) && hi <= mmioSize && InHole(table, lo) && lo <= p < hi
    ensures var q := Until(table, mmioSize, lo, hi);
      && lo < q <= hi && (q < hi ==> Aligned(table, q, hi))
      && (p < q ==> !Touched(Slots(table, lo, hi), p) && InHole(table, p))
      && (p >= q ==> (Touched(Slots(table, lo, hi), p) <==> Touched(Slots(table, q, hi), p)))
  {
    var q := Until(table, mmioSize, lo, hi);
    AlignedHole(table, mmioSize, lo, hi);
    SlotsProper(table, mmioSize, q, hi);
    if p < q { NotTouched(Slots(table, q, hi), p); }
  }

  /** A byte of a range that starts in a segment is accessed by the first access or by those after it. */
  lemma FirstAccess(table: seq<Segment>, mmioSize: nat, lo: nat, hi: nat, p: nat)
    requires ValidTable(table) && Aligned(table, lo, hi) && hi <= mmioSize && !InHole(table, lo) && lo <= p < hi
    ensures var w := WidthAt(table, lo);
      && lo + w <= hi && (lo + w < hi ==> Aligned(table, lo + w, hi))
      && (p < lo + w ==> Touched(Slots(table, lo, hi), p) && !InHole(table, p))
      && (p >= lo + w ==> (Touched(Slots(table, lo, hi), p) <==> Touched(Slots(table, lo + w, hi), p)))
  {
    var w := WidthAt(table, lo);
    AlignedAccess(table, mmioSize, lo, hi);
    assert Slots(table, lo, hi) == [Slot(lo, w)] + Slots(table, lo + w, hi);
    TouchedCons(Slot(lo, w), Slots(table, lo + w, hi), p);
    if p < lo + w { SameRegion(table, mmioSize, lo, p); }
  }

  lemma {:induction false} TouchedExact(table: seq<Segment>, mmioSize: nat, lo: nat, hi: nat, p: nat)
    requires ValidTable(table) && Aligned(table, lo, hi) && hi <= mmioSize && lo <= p < hi
    ensures Touched(Slots(table, lo, hi), p) <==> !InHole(table, p)
    decreases hi - lo
  {
    if InHole(table, lo) {
      FirstHole(table, mmioSize, lo, hi, p);
      var q := Until(table, mmioSize, lo, hi);
      if p >= q { TouchedExact(table, mmioSize, q, hi, p); }
    } else {
      FirstAccess(table, mmioSize, lo, hi, p);
      var q := lo + WidthAt(table, lo);
      if p >= q { TouchedExact(table, mmioSize, q, hi, p); }
    }
  }

  /** Every byte of a segment in the range is accessed, and no byte of a hole. */
  lemma SlotsCover(table: seq<Segment>, mmioSize: nat, lo: nat, hi: nat, p: nat)
    requires ValidTable(table) && Aligned(table, lo, hi) && hi <= mmioSize && lo <= p < hi
    ensures Touched(Slots(table, lo, hi), p) <==> InSegment(table, p)
  {
    TouchedExact(table, mmioSize, lo, hi, p);
    HoleExact(table, p);
  }

  /** An aligned range accesses each register byte in it exactly once, in order, and nothing else. */
  lemma EachRegisterOnce(table: seq<Segment>, mmioSize: nat, lo: nat, hi: nat)
    requires ValidTable(table) && Aligned(table, lo, hi) && hi <= mmioSize
    ensures Proper(table, Slots(table, lo, hi), lo, hi)
    ensures forall p :: lo <= p < hi ==> (Touched(Slots(table, lo, hi), p) <==> InSegment(table, p))
  {
    SlotsProper(table, mmioSize, lo, hi);
    forall p | lo <= p < hi ensures Touched(Slots(table, lo, hi), p) <==> InSegment(table, p) {
      SlotsCover(table, mmioSize, lo, hi, p);
    }
  }

  /** The table of the driver. */
  const E3K: seq<Segment> := [
    Segment(0x8000, 0x80E4, 4), Segment(0x8180, 0x83B0, 4), Segment(0x8400, 0x8600, 4), Segment(0x8600, 0x8B00, 1),
    Segment(0x9000, 0x9200, 1), Segment(0x9400, 0x9600, 1), Segment(0x30000, 0x30380, 4), Segment(0x33000, 0x35000, 4),
    Segment(0x48C00, 0x48CD0, 4), Segment(0x49000, 0x49080, 4), Segment(0x4A000, 0x4F000, 4)
  ]

  /** To be sorted it is enough that neighbours are. */
  lemma {:induction false} NeighboursSorted(table: seq<Segment>, j: nat)
    requires forall i :: 0 <= i < |table| ==> table[i].Valid()
    requires forall i :: 0 < i < |table| ==> table[i - 1].end <= table[i].start
    requires j < |table|
    ensures forall i :: 0 <= i < j ==> table[i].end <= table[j].start
  {
    if j > 0 { NeighboursSorted(table, j - 1); }
  }

  lemma DriverTable()
    ensures ValidTable(E3K)
  {
    forall i, j | 0 <= i < j < |E3K| ensures E3K[i].end <= E3K[j].start { NeighboursSorted(E3K, j); }
  }
}
