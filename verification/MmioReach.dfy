/**
 Which requests the register walk serves. The file position is 64 bits wide, but the search for its
 segment takes the low 32 bits as a signed number. A request is served as promised exactly when the
 position lies in the registers or its low half is turned away; for any other the count of bytes
 underflows and the walk never ends.
*/
module MmioReach {
  import opened Common
  import opened MmioTable

  const EINVAL: int := 22

  /** What a request has to move: nothing, an error, or the bytes up to the end of the registers. */
  function Outcome(table: seq<Segment>, mmioSize: nat, size: nat, pos: nat): int
    requires ValidTable(table)
  {
    if size == 0 || table == [] || pos >= mmioSize then 0
    else
      var hi := if pos + size > mmioSize then mmioSize else pos + size;
      if Aligned(table, pos, hi) then hi - pos else -EINVAL
  }

  // ---------------------------------------------------------------- the driver's arithmetic

  /** What the search leaves in its two results. It leaves them alone when it reports an error. */
  datatype Found = Missing | Found(index: nat, empty: bool)

  function Find(table: seq<Segment>, mmioSize: nat, pos: int): Found {
    if table == [] || mmioSize == 0 || pos >= mmioSize then Missing
    else if pos < 0 then Found(|table|, true)
    else Found(Index(table, pos), InHole(table, pos))
  }

  predicate Sound(table: seq<Segment>, at: Found) { at.Found? && at.index <= |table| && (at.empty || at.index < |table|) }

  function Refind(table: seq<Segment>, mmioSize: nat, at: Found, pos: nat): (f: Found)
    requires Sound(table, at)
    ensures Sound(table, f)
  {
    var f := Find(table, mmioSize, ToInt32(pos));
    if f.Missing? then at else f
  }

  function WidthOf(table: seq<Segment>, at: Found): Width
    requires Sound(table, at)
  {
    if at.empty then 4 else table[at.index].alignment
  }

  function EndOf(table: seq<Segment>, mmioSize: nat, at: Found): nat
    requires Sound(table, at)
  {
    if !at.empty then table[at.index].end else if at.index == |table| then mmioSize else table[at.index].start
  }

  /** The walk between two turns: position and bytes left in 64 bits, and the last answer of the search. */
  datatype Walk = Walk(pos: nat, size: nat, at: Found)

  datatype Begun = Answer(r: int) | Start(walk: Walk)

  function Low64(x: int): nat { x % TWO_64 }

  lemma Low64Is(x: int)
    requires 0 <= x < TWO_64
    ensures Low64(x) == x
  {
  }

  /** The count of bytes, cut at the end of the registers. */
  function Limit(mmioSize: nat, size: nat, pos: nat): nat {
    if Low64(pos + size) > mmioSize then Low64(mmioSize - pos) else size
  }

  /** The bytes of one turn that goes up to `end`, kept in 32 bits. */
  function Length(pos: nat, size: nat, end: nat): nat {
    if Low64(pos + size) > end then (end - pos) % TWO_32 else size % TWO_32
  }

  lemma LengthInside(pos: nat, size: nat, end: nat)
    requires pos < end <= TWO_31 && pos + size <= TWO_31
    ensures pos + Length(pos, size, end) == if pos + size > end then end else pos + size
  {
    Low64Is(pos + size);
  }

  lemma LimitInside(mmioSize: nat, size: nat, pos: nat)
    requires pos < mmioSize < TWO_31 && pos + size < TWO_64
    ensures pos + Limit(mmioSize, size, pos) == if pos + size > mmioSize then mmioSize else pos + size
  {
    Low64Is(pos + size);
    Low64Is(mmioSize - pos);
  }

  lemma LowIsPos(pos: nat)
    requires pos < TWO_31
    ensures ToInt32(pos) == pos
  {
  }

  /** The search at a position in the registers. */
  lemma RefindInside(table: seq<Segment>, mmioSize: nat, at: Found, pos: nat)
    requires ValidTable(table) && table != [] && Sound(table, at) && pos < mmioSize < TWO_31
    ensures var f := Refind(table, mmioSize, at, pos);
      && f == Find(table, mmioSize, pos) && WidthOf(table, f) == WidthAt(table, pos)
      && EndOf(table, mmioSize, f) == RegionEnd(table, mmioSize, pos) && f.empty == InHole(table, pos)
      && pos < RegionEnd(table, mmioSize, pos) <= TWO_31
  {
    LowIsPos(pos);
    IndexBounds(table, pos);
    assert Index(table, pos) < |table| ==> table[Index(table, pos)].Valid();
    assert Find(table, mmioSize, pos) == Found(Index(table, pos), InHole(table, pos));
  }

  /** The checks before the walk. */
  function Begin(table: seq<Segment>, mmioSize: nat, size: nat, pos: nat): Begun {
    var at := Find(table, mmioSize, ToInt32(pos));
    if size == 0 || at.Missing? then Answer(0)
    else CheckEnds(table, mmioSize, pos, Limit(mmioSize, size, pos), at)
  }

  function CheckEnds(table: seq<Segment>, mmioSize: nat, pos: nat, n: nat, at: Found): Begun
    requires Sound(table, at)
  {
    if !On(pos, WidthOf(table, at)) then Answer(-EINVAL)
    else
      var last := Refind(table, mmioSize, at, Low64(pos + n - 1));
      if !On(Low64(pos + n), WidthOf(table, last)) then Answer(-EINVAL) else Start(Walk(pos, n, last))
  }

  /**
   One turn of the walk. `words` tells that holes are moved word by word, as a read does. None when the
   inner loop never ends: its count, 32 bits wide, is no multiple of the step and misses zero.
  */
  function Turn(table: seq<Segment>, mmioSize: nat, words: bool, w: Walk): Option<Walk>
    requires Sound(table, w.at)
  {
    var at := Refind(table, mmioSize, w.at, w.pos);
    var end := EndOf(table, mmioSize, at);
    var length := Length(w.pos, w.size, end);
    if (!at.empty || words) && !On(length, WidthOf(table, at)) then None
    else Some(Walk(Low64(w.pos + length), Low64(w.size - length), at))
  }

  /** The walk after at most `turns` turns. */
  function After(table: seq<Segment>, mmioSize: nat, words: bool, w: Walk, turns: nat): Option<Walk>
    requires Sound(table, w.at)
    decreases turns
  {
    if turns == 0 || w.size == 0 then Some(w)
    else
      match Turn(table, mmioSize, words, w)
      case None => None
      case Some(v) => After(table, mmioSize, words, v, turns - 1)
  }

  predicate DoneAfter(table: seq<Segment>, mmioSize: nat, words: bool, w: Walk, turns: nat, pos: int)
    requires Sound(table, w.at)
  {
    var v := After(table, mmioSize, words, w, turns);
    v.Some? && v.value.size == 0 && v.value.pos == pos
  }

  /** The walk ends, at position `pos`. */
  ghost predicate EndsAt(table: seq<Segment>, mmioSize: nat, words: bool, w: Walk, pos: int)
    requires Sound(table, w.at)
  {
    exists turns: nat :: DoneAfter(table, mmioSize, words, w, turns, pos)
  }

  /** The request is answered as promised: at once, or by a walk that ends at the right position. */
  ghost predicate Served(table: seq<Segment>, mmioSize: nat, words: bool, size: nat, pos: nat)
    requires ValidTable(table)
  {
    match Begin(table, mmioSize, size, pos)
    case Answer(r) => r == Outcome(table, mmioSize, size, pos)
    case Start(w) => Sound(table, w.at) && EndsAt(table, mmioSize, words, w, pos + Outcome(table, mmioSize, size, pos))
  }

  /** The position lies in the registers, or its low half, as a signed number, lies behind them. */
  predicate Addressable(mmioSize: nat, pos: nat) { pos < mmioSize || ToInt32(pos) >= mmioSize }

  // ---------------------------------------------------------------- requests that are served

  lemma OnDifference(p: nat, q: nat, w: Width)
    requires On(p, w) && On(q, w) && p <= q
    ensures On(q - p, w)
  {
  }

  /** A turn up to `q`. */
  lemma TurnTo(table: seq<Segment>, mmioSize: nat, words: bool, w: Walk, at: Found, q: nat)
    requires Sound(table, w.at) && w.pos < q <= w.pos + w.size < TWO_31 && Sound(table, at)
    requires Refind(table, mmioSize, w.at, w.pos) == at && On(q - w.pos, WidthOf(table, at))
    requires w.pos + Length(w.pos, w.size, EndOf(table, mmioSize, at)) == q
    ensures Turn(table, mmioSize, words, w) == Some(Walk(q, w.pos + w.size - q, at))
  {
    Low64Is(q);
    Low64Is(w.pos + w.size - q);
  }

  /** Inside the registers a turn goes to the end of the region or of the range. */
  lemma TurnInside(table: seq<Segment>, mmioSize: nat, words: bool, w: Walk)
    requires ValidTable(table) && table != [] && Sound(table, w.at) && 0 < w.size && w.pos + w.size <= mmioSize < TWO_31
    requires Aligned(table, w.pos, w.pos + w.size)
    ensures var hi := w.pos + w.size; var q := Until(table, mmioSize, w.pos, hi);
      && w.pos < q <= hi && (q < hi ==> Aligned(table, q, hi))
      && Turn(table, mmioSize, words, w) == Some(Walk(q, hi - q, Find(table, mmioSize, w.pos)))
  {
    var p, hi := w.pos, w.pos + w.size;
    var at, q := Find(table, mmioSize, p), Until(table, mmioSize, p, hi);
    RegionTurn(table, mmioSize, p, hi);
    RefindInside(table, mmioSize, w.at, p);
    LengthInside(p, w.size, RegionEnd(table, mmioSize, p));
    TurnTo(table, mmioSize, words, w, at, q);
  }

  lemma RegionTurn(table: seq<Segment>, mmioSize: nat, p: nat, hi: nat)
    requires ValidTable(table) && Aligned(table, p, hi) && hi <= mmioSize
    ensures var q := Until(table, mmioSize, p, hi);
      p < q <= hi && On(q - p, WidthAt(table, p)) && (q < hi ==> Aligned(table, q, hi))
  {
    if InHole(table, p) {
      AlignedHole(table, mmioSize, p, hi);
    } else {
      AlignedSegment(table, mmioSize, p, hi);
    }
  }

  /** One segment: a whole number of registers, and what is left is aligned again. */
  lemma AlignedSegment(table: seq<Segment>, mmioSize: nat, p: nat, hi: nat)
    requires ValidTable(table) && Aligned(table, p, hi) && !InHole(table, p)
    ensures var q := Until(table, mmioSize, p, hi);
      p < q <= hi && On(q - p, WidthAt(table, p)) && (q < hi ==> Aligned(table, q, hi))
  {
    var q, end, w := Until(table, mmioSize, p, hi), RegionEnd(table, mmioSize, p), WidthAt(table, p);
    IndexBounds(table, p);
    assert table[Index(table, p)].Valid();
    Boundary(end, w);
    if q == hi {
      SameRegion(table, mmioSize, p, hi - 1);
    } else {
      Boundary(q, WidthAt(table, q));
    }
    OnDifference(p, q, w);
  }

  lemma DoneLater(table: seq<Segment>, mmioSize: nat, words: bool, w: Walk, v: Walk, turns: nat, pos: int)
    requires Sound(table, w.at) && w.size > 0 && Turn(table, mmioSize, words, w) == Some(v)
    requires Sound(table, v.at) && DoneAfter(table, mmioSize, words, v, turns, pos)
    ensures DoneAfter(table, mmioSize, words, w, turns + 1, pos)
  {
  }

  /** An aligned range in the registers ends the walk at its end. */
  lemma {:induction false} WalkInside(table: seq<Segment>, mmioSize: nat, words: bool, w: Walk) returns (turns: nat)
    requires ValidTable(table) && table != [] && Sound(table, w.at) && w.pos + w.size <= mmioSize < TWO_31
    requires w.size > 0 ==> Aligned(table, w.pos, w.pos + w.size)
    ensures DoneAfter(table, mmioSize, words, w, turns, w.pos + w.size)
    decreases w.size
  {
    if w.size == 0 {
      turns := 0;
    } else {
      TurnInside(table, mmioSize, words, w);
      var v := Turn(table, mmioSize, words, w).value;
      RefindInside(table, mmioSize, v.at, w.pos);
      turns := WalkInside(table, mmioSize, words, v);
      DoneLater(table, mmioSize, words, w, v, turns, w.pos + w.size);
      turns := turns + 1;
    }
  }

  /** The checks of a range in the registers. */
  lemma CheckInside(table: seq<Segment>, mmioSize: nat, pos: nat, n: nat, at: Found)
    requires ValidTable(table) && table != [] && n > 0 && pos + n <= mmioSize < TWO_31
    requires Sound(table, at) && at == Find(table, mmioSize, pos)
    ensures var last := Find(table, mmioSize, pos + n - 1);
      && Sound(table, last)
      && CheckEnds(table, mmioSize, pos, n, at)
           == if Aligned(table, pos, pos + n) then Start(Walk(pos, n, last)) else Answer(-EINVAL)
  {
    RefindInside(table, mmioSize, at, pos);
    RefindInside(table, mmioSize, at, pos + n - 1);
    Low64Is(pos + n - 1);
    Low64Is(pos + n);
  }

  lemma BeginInRange(table: seq<Segment>, mmioSize: nat, size: nat, pos: nat)
    requires ValidTable(table) && table != [] && size > 0 && pos < mmioSize < TWO_31 && pos + size < TWO_64
    ensures var n := if pos + size > mmioSize then mmioSize - pos else size; var last := Find(table, mmioSize, pos + n - 1);
      && Sound(table, last)
      && Begin(table, mmioSize, size, pos)
           == if Aligned(table, pos, pos + n) then Start(Walk(pos, n, last)) else Answer(-EINVAL)
  {
    var n := if pos + size > mmioSize then mmioSize - pos else size;
    var at := Find(table, mmioSize, pos);
    RefindInside(table, mmioSize, Found(0, true), pos);
    LimitInside(mmioSize, size, pos);
    LowIsPos(pos);
    CheckInside(table, mmioSize, pos, n, at);
    assert Begin(table, mmioSize, size, pos) == CheckEnds(table, mmioSize, pos, n, at);
  }

  lemma BeginInside(table: seq<Segment>, mmioSize: nat, size: nat, pos: nat)
    requires ValidTable(table) && 0 < mmioSize < TWO_31 && pos + size < TWO_64 && Addressable(mmioSize, pos)
    ensures var n := Outcome(table, mmioSize, size, pos); var b := Begin(table, mmioSize, size, pos);
      if n <= 0 then b == Answer(n)
      else b.Start? && b.walk.pos == pos && b.walk.size == n && Sound(table, b.walk.at)
  {
    if size > 0 && table != [] && pos < mmioSize { BeginInRange(table, mmioSize, size, pos); }
  }

  // ---------------------------------------------------------------- requests that are not

  lemma ToInt32Is(k: nat, q: int)
    requires 0 <= q + TWO_31 && q < TWO_31 && k * TWO_32 + q >= 0
    ensures ToInt32(k * TWO_32 + q) == q
  {
    if q >= 0 {
      assert (k * TWO_32 + q) % TWO_32 == q;
    } else {
      assert k * TWO_32 + q == (k - 1) * TWO_32 + (q + TWO_32);
      assert (k * TWO_32 + q) % TWO_32 == q + TWO_32;
    }
  }

  /** A walk `k` times 4 GiB away from the registers: what the search sees is `q`, and the bytes left reach once around. */
  predicate Lost(table: seq<Segment>, mmioSize: nat, w: Walk, k: nat, q: int) {
    && Sound(table, w.at) && 1 <= k <= TWO_31 && 0 <= q + TWO_31 && q <= mmioSize
    && w.pos == k * TWO_32 + q && w.pos + w.size == mmioSize + TWO_64
    && (q == mmioSize ==> EndOf(table, mmioSize, w.at) >= mmioSize)
  }

  /** The length of its next turn, up to `end`: never behind the end of the registers as the search sees it. */
  lemma LostLength(mmioSize: nat, w: Walk, k: nat, q: int, end: nat)
    requires 0 < mmioSize < TWO_31 && 1 <= k <= TWO_31 && 0 <= q + TWO_31 && q <= mmioSize
    requires w.pos == k * TWO_32 + q && w.pos + w.size == mmioSize + TWO_64 && q < end
    ensures Length(w.pos, w.size, end) == (if mmioSize > end then end - q else mmioSize - q)
  {
    assert Low64(w.pos + w.size) == mmioSize;
    if mmioSize > end {
      assert end - w.pos == (end - q) - k * TWO_32;
      assert (end - w.pos) % TWO_32 == end - q;
    } else {
      assert w.size == (TWO_32 - k) * TWO_32 + (mmioSize - q);
      assert w.size % TWO_32 == mmioSize - q;
    }
  }

  /** What the search makes of it: a region of the registers, or, at their end, its last answer again. */
  lemma LostSearch(table: seq<Segment>, mmioSize: nat, w: Walk, k: nat, q: int)
    requires ValidTable(table) && table != [] && 0 < mmioSize < TWO_31 && Lost(table, mmioSize, w, k, q)
    ensures var at := Refind(table, mmioSize, w.at, w.pos);
      if q == mmioSize then at == w.at else q < EndOf(table, mmioSize, at)
  {
    ToInt32Is(k, q);
    if 0 <= q < mmioSize { IndexBounds(table, q); }
  }

  lemma LostStays(mmioSize: nat, w: Walk, k: nat, q: int)
    requires 0 < mmioSize < TWO_31 && 1 <= k <= TWO_31 && q == mmioSize
    requires w.pos == k * TWO_32 + q && w.pos + w.size == mmioSize + TWO_64
    ensures forall end: nat :: end >= mmioSize ==> Length(w.pos, w.size, end) == 0
  {
    assert Low64(w.pos + w.size) == mmioSize;
    assert w.size == (TWO_32 - k) * TWO_32;
    assert w.size % TWO_32 == 0;
  }

  lemma LostTurn(table: seq<Segment>, mmioSize: nat, words: bool, w: Walk, k: nat, q: int) returns (next: int)
    requires ValidTable(table) && table != [] && 0 < mmioSize < TWO_31 && Lost(table, mmioSize, w, k, q)
    ensures w.size > 0
    ensures var v := Turn(table, mmioSize, words, w); v.Some? ==> Lost(table, mmioSize, v.value, k, next)
  {
    LostSearch(table, mmioSize, w, k, q);
    var end := EndOf(table, mmioSize, Refind(table, mmioSize, w.at, w.pos));
    if q == mmioSize { LostStays(mmioSize, w, k, q); } else { LostLength(mmioSize, w, k, q, end); }
    var length := Length(w.pos, w.size, end);
    next := q + length;
    assert next <= mmioSize && (next == mmioSize ==> end >= mmioSize);
    Low64Is(w.pos + length);
    Low64Is(w.size - length);
  }

  /** It never ends. */
  lemma {:induction false} LostForEver(table: seq<Segment>, mmioSize: nat, words: bool, w: Walk, k: nat, q: int, turns: nat)
    requires ValidTable(table) && table != [] && 0 < mmioSize < TWO_31 && Lost(table, mmioSize, w, k, q)
    ensures var v := After(table, mmioSize, words, w, turns); v.Some? ==> v.value.size > 0
    decreases turns
  {
    var next := LostTurn(table, mmioSize, words, w, k, q);
    if turns > 0 && Turn(table, mmioSize, words, w).Some? {
      LostForEver(table, mmioSize, words, Turn(table, mmioSize, words, w).value, k, next, turns - 1);
    }
  }

  /** A request elsewhere whose ends pass the checks starts such a walk; otherwise it is called invalid instead of past the end. */
  lemma BeginOutside(table: seq<Segment>, mmioSize: nat, size: nat, pos: nat) returns (k: nat, q: int)
    requires ValidTable(table) && table != [] && size > 0 && 0 < mmioSize < TWO_31
    requires pos < TWO_63 && pos + size < TWO_64 && !Addressable(mmioSize, pos)
    ensures Outcome(table, mmioSize, size, pos) == 0
    ensures var b := Begin(table, mmioSize, size, pos);
      b == Answer(-EINVAL) || (b.Start? && Lost(table, mmioSize, b.walk, k, q))
  {
    q := ToInt32(pos);
    k := (pos - q) / TWO_32;
    assert pos == k * TWO_32 + q;
    if q >= 0 { IndexBounds(table, q); }
    assert Low64(pos + size) == pos + size;
    Low64Is(mmioSize - pos + TWO_64);
    assert Limit(mmioSize, size, pos) == mmioSize - pos + TWO_64;
  }

  /** Exactly the addressable requests are served; the walk of any other never ends. */
  lemma ServedExact(table: seq<Segment>, mmioSize: nat, words: bool, size: nat, pos: nat)
    requires ValidTable(table) && table != [] && size > 0 && 0 < mmioSize < TWO_31
    requires pos < TWO_63 && pos + size < TWO_64
    ensures Served(table, mmioSize, words, size, pos) <==> Addressable(mmioSize, pos)
    ensures !Addressable(mmioSize, pos) ==>
      match Begin(table, mmioSize, size, pos)
      case Answer(r) => r == -EINVAL
      case Start(w) => Sound(table, w.at) && forall turns: nat, p: int :: !DoneAfter(table, mmioSize, words, w, turns, p)
  {
    var b := Begin(table, mmioSize, size, pos);
    if Addressable(mmioSize, pos) {
      BeginInside(table, mmioSize, size, pos);
      if b.Start? {
        BeginInRange(table, mmioSize, size, pos);
        var turns := WalkInside(table, mmioSize, words, b.walk);
      }
    } else {
      var k, q := BeginOutside(table, mmioSize, size, pos);
      if b.Start? {
        forall turns: nat, p: int ensures !DoneAfter(table, mmioSize, words, b.walk, turns, p) {
          LostForEver(table, mmioSize, words, b.walk, k, q, turns);
        }
      }
    }
  }

  /** Such a request on the driver's table: four bytes at 2 GiB. */
  lemma TwoGiB(words: bool)
    ensures ValidTable(E3K) && !Addressable(0x8_0000, TWO_31)
    ensures var b := Begin(E3K, 0x8_0000, 4, TWO_31);
      b.Start? && Sound(E3K, b.walk.at) && forall turns: nat, p: int :: !DoneAfter(E3K, 0x8_0000, words, b.walk, turns, p)
  {
    DriverTable();
    StartsAtTwoGiB();
    ServedExact(E3K, 0x8_0000, words, 4, TWO_31);
  }

  lemma StartsAtTwoGiB()
    requires ValidTable(E3K)
    ensures Begin(E3K, 0x8_0000, 4, TWO_31).Start?
  {
    var pos, mmioSize := TWO_31, 0x8_0000;
    assert ToInt32(pos) == 0 - TWO_31;
    Low64Is(pos + 4);
    Low64Is(mmioSize - pos + TWO_64);
    IndexIs(E3K, mmioSize - 1, |E3K|);
    LowIsPos(mmioSize - 1);
    assert Limit(mmioSize, 4, pos) == mmioSize - pos + TWO_64;
    assert Low64(pos + Limit(mmioSize, 4, pos) - 1) == mmioSize - 1;
    assert Low64(pos + Limit(mmioSize, 4, pos)) == mmioSize;
  }

  /** Another: its position is an alias of a register 4 GiB behind it, and its first turn accesses registers there. */
  lemma AliasOfRegister()
    ensures var b := Begin(E3K, 0x8_0000, 4, TWO_32 + 0x8000);
      b.Start? && Sound(E3K, b.walk.at) && b.walk.pos > 0x8_0000 && !Refind(E3K, 0x8_0000, b.walk.at, b.walk.pos).empty
  {
    var pos, mmioSize := TWO_32 + 0x8000, 0x8_0000;
    DriverTable();
    ToInt32Is(1, 0x8000);
    IndexIs(E3K, 0x8000, 0);
    IndexIs(E3K, mmioSize - 1, |E3K|);
    Low64Is(pos + 4);
    Low64Is(mmioSize - pos + TWO_64);
    assert Limit(mmioSize, 4, pos) == mmioSize - pos + TWO_64;
    assert Low64(pos + Limit(mmioSize, 4, pos) - 1) == mmioSize - 1;
    assert Low64(pos + Limit(mmioSize, 4, pos)) == mmioSize;
  }
}
