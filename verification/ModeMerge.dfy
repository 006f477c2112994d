/**
 Merging the modes a display reports with the modes the adapter can scale to it. Both lists are
 ordered by resolution; the adapter's is reversed in place, filtered by the preferred mode and
 merged into a buffer of the caller.
*/
module ModeMerge {
  import opened Common

  datatype Mode = Mode(xres: nat, yres: nat, caps: bv32, preferred: bool, timing: int)

  predicate Above(a: Mode, b: Mode) { a.xres > b.xres || (a.xres == b.xres && a.yres > b.yres) }

  predicate SameRes(a: Mode, b: Mode) { a.xres == b.xres && a.yres == b.yres }

  predicate Descending(l: seq<Mode>) { forall i, j :: 0 <= i < j < |l| ==> !Above(l[j], l[i]) }

  predicate StrictlyDescending(l: seq<Mode>) { forall i, j :: 0 <= i < j < |l| ==> Above(l[i], l[j]) }

  predicate StrictlyAscending(l: seq<Mode>) { forall i, j :: 0 <= i < j < |l| ==> Above(l[j], l[i]) }

  /** The first mode marked preferred, or the first mode of all. */
  function Preferred(dev: seq<Mode>): Mode
    requires dev != []
  {
    if dev[0].preferred then dev[0] else FirstPreferred(dev[1..], dev[0])
  }

  function FirstPreferred(dev: seq<Mode>, fallback: Mode): Mode {
    if dev == [] then fallback else if dev[0].preferred then dev[0] else FirstPreferred(dev[1..], fallback)
  }

  /** `p` is the first mode marked preferred, or, when none is marked, the first mode. */
  ghost predicate IsPreferred(dev: seq<Mode>, p: Mode) {
    exists i :: 0 <= i < |dev| && p == dev[i] &&
      if dev[i].preferred then forall j :: 0 <= j < i ==> !dev[j].preferred
      else i == 0 && forall j :: 0 <= j < |dev| ==> !dev[j].preferred
  }

  lemma {:induction false} FirstPreferredExact(dev: seq<Mode>, fallback: Mode)
    ensures var p := FirstPreferred(dev, fallback);
      || (p == fallback && forall j :: 0 <= j < |dev| ==> !dev[j].preferred)
      || exists i :: 0 <= i < |dev| && p == dev[i] && dev[i].preferred && forall j :: 0 <= j < i ==> !dev[j].preferred
  {
    if dev != [] && !dev[0].preferred {
      FirstPreferredExact(dev[1..], fallback);
      var p := FirstPreferred(dev[1..], fallback);
      if i :| 0 <= i < |dev[1..]| && p == dev[1..][i] && dev[1..][i].preferred && forall j :: 0 <= j < i ==> !dev[1..][j].preferred {
        assert p == dev[i + 1];
        forall j | 0 <= j < i + 1 ensures !dev[j].preferred { if j > 0 { assert dev[j] == dev[1..][j - 1]; } }
      } else {
        forall j | 0 <= j < |dev| ensures !dev[j].preferred { if j > 0 { assert dev[j] == dev[1..][j - 1]; } }
      }
    }
  }

  lemma PreferredExact(dev: seq<Mode>)
    requires dev != []
    ensures IsPreferred(dev, Preferred(dev))
  {
    if dev[0].preferred {
      assert dev[0] == Preferred(dev);
    } else {
      FirstPreferredExact(dev, dev[0]);
    }
  }

  /** An adapter mode is of use if it fits the preferred mode and is not its resolution. */
  predicate Usable(m: Mode, p: Mode) { m.xres <= p.xres && m.yres <= p.yres && !SameRes(m, p) }

  function Filter(ad: seq<Mode>, p: Mode): seq<Mode> {
    if ad == [] then [] else if Usable(ad[0], p) then [ad[0]] + Filter(ad[1..], p) else Filter(ad[1..], p)
  }

  function Merge(dev: seq<Mode>, ad: seq<Mode>, p: Mode): (out: seq<Mode>)
    ensures |out| <= |dev| + |ad|
    decreases |dev| + |ad|
  {
    if ad == [] then dev
    else if !Usable(ad[0], p) then Merge(dev, ad[1..], p)
    else if dev == [] then [ad[0]] + Merge(dev, ad[1..], p)
    else if Above(dev[0], ad[0]) then [dev[0]] + Merge(dev[1..], ad, p)
    else if SameRes(dev[0], ad[0]) then [dev[0].(caps := dev[0].caps | ad[0].caps)] + Merge(dev[1..], ad[1..], p)
    else [ad[0]] + Merge(dev, ad[1..], p)
  }

  function Reverse(l: seq<Mode>): (r: seq<Mode>)
    ensures |r| == |l| && forall i :: 0 <= i < |l| ==> r[i] == l[|l| - 1 - i]
  {
    seq(|l|, i requires 0 <= i < |l| => l[|l| - 1 - i])
  }

  lemma ReverseDescends(l: seq<Mode>)
    requires StrictlyAscending(l)
    ensures StrictlyDescending(Reverse(l))
  {}

  // ---------------------------------------------------------------- what a merge contains

  /** How many modes of a list have the resolution of `r`. */
  function Count(l: seq<Mode>, r: Mode): nat {
    if l == [] then 0 else (if SameRes(l[0], r) then 1 else 0) + Count(l[1..], r)
  }

  lemma {:induction false} CountNone(l: seq<Mode>, r: Mode)
    requires forall i :: 0 <= i < |l| ==> !SameRes(l[i], r)
    ensures Count(l, r) == 0
  {
    if l != [] { CountNone(l[1..], r); }
  }

  lemma {:induction false} CountSome(l: seq<Mode>, r: Mode)
    ensures Count(l, r) > 0 <==> exists i :: 0 <= i < |l| && SameRes(l[i], r)
  {
    if l != [] {
      CountSome(l[1..], r);
      if i :| 0 <= i < |l[1..]| && SameRes(l[1..][i], r) { assert SameRes(l[i + 1], r); }
    }
  }

  lemma {:induction false} FilterCount(ad: seq<Mode>, p: Mode, r: Mode)
    ensures Count(Filter(ad, p), r) == if Usable(r, p) then Count(ad, r) else 0
  {
    if ad != [] {
      FilterCount(ad[1..], p, r);
      if Usable(ad[0], p) { assert Filter(ad, p)[1..] == Filter(ad[1..], p); }
    }
  }

  /**
   Every resolution occurs as often as the device lists it; one that the device lacks, as often as
   the usable adapter modes list it. In particular no device resolution is repeated from the adapter.
  */
  lemma {:induction false} MergeCounts(dev: seq<Mode>, ad: seq<Mode>, p: Mode, r: Mode)
    requires Descending(dev) && StrictlyDescending(ad)
    ensures Count(Merge(dev, ad, p), r) == Count(dev, r) + if Count(dev, r) == 0 then Count(Filter(ad, p), r) else 0
    decreases |dev| + |ad|
  {
    if ad != [] {
      FilterCount(ad, p, r);
      FilterCount(ad[1..], p, r);
      if SameRes(ad[0], r) { CountNone(ad[1..], r); }
      if !Usable(ad[0], p) || dev == [] {
        MergeCounts(dev, ad[1..], p, r);
      } else if Above(dev[0], ad[0]) {
        MergeCounts(dev[1..], ad, p, r);
        if SameRes(dev[0], r) { CountNone(ad, r); }
      } else if SameRes(dev[0], ad[0]) {
        MergeCounts(dev[1..], ad[1..], p, r);
      } else {
        MergeCounts(dev, ad[1..], p, r);
        if SameRes(ad[0], r) { CountNone(dev, r); }
      }
    }
  }

  /** The length: the device modes and the usable adapter modes, less those whose resolution the device has. */
  function Matched(dev: seq<Mode>, usable: seq<Mode>): nat {
    if usable == [] then 0
    else (if Count(dev, usable[0]) > 0 then 1 else 0) + Matched(dev, usable[1..])
  }

  lemma {:induction false} MatchedDrop(dev: seq<Mode>, usable: seq<Mode>)
    requires dev != [] && forall i :: 0 <= i < |usable| ==> Above(dev[0], usable[i])
    ensures Matched(dev, usable) == Matched(dev[1..], usable)
  {
    if usable != [] { MatchedDrop(dev, usable[1..]); }
  }

  lemma {:induction false} FilterIn(ad: seq<Mode>, p: Mode, i: nat)
    requires i < |Filter(ad, p)|
    ensures Filter(ad, p)[i] in ad
  {
    if Usable(ad[0], p) {
      if i > 0 { FilterIn(ad[1..], p, i - 1); }
    } else {
      FilterIn(ad[1..], p, i);
    }
  }

  lemma {:induction false} MergeLength(dev: seq<Mode>, ad: seq<Mode>, p: Mode)
    requires Descending(dev) && StrictlyDescending(ad)
    ensures |Merge(dev, ad, p)| == |dev| + |Filter(ad, p)| - Matched(dev, Filter(ad, p))
    decreases |dev| + |ad|
  {
    if ad != [] && Usable(ad[0], p) { assert Filter(ad, p)[1..] == Filter(ad[1..], p); }
    if ad == [] {
    } else if !Usable(ad[0], p) || dev == [] {
      MergeLength(dev, ad[1..], p);
    } else if Above(dev[0], ad[0]) {
      MergeLength(dev[1..], ad, p);
      UsableBelow(dev[0], ad, p);
      MatchedDrop(dev, Filter(ad, p));
    } else if SameRes(dev[0], ad[0]) {
      MergeLength(dev[1..], ad[1..], p);
      UsableBelow(dev[0], ad[1..], p);
      MatchedDrop(dev, Filter(ad[1..], p));
    } else {
      MergeLength(dev, ad[1..], p);
      CountNone(dev, ad[0]);
    }
  }

  lemma UsableBelow(d: Mode, ad: seq<Mode>, p: Mode)
    requires forall i :: 0 <= i < |ad| ==> Above(d, ad[i])
    ensures forall i :: 0 <= i < |Filter(ad, p)| ==> Above(d, Filter(ad, p)[i])
  {
    forall i | 0 <= i < |Filter(ad, p)| ensures Above(d, Filter(ad, p)[i]) { FilterIn(ad, p, i); }
  }

  /** `o` is the device mode `d`, with at most more color depths. */
  predicate Enlarges(o: Mode, d: Mode) { o.(caps := d.caps) == d && o.caps | d.caps == o.caps }

  /** The device modes occur in the output, in their order, each with at most more color depths. */
  predicate Embeds(dev: seq<Mode>, out: seq<Mode>) {
    dev == [] || (out != [] &&
      ((Enlarges(out[0], dev[0]) && Embeds(dev[1..], out[1..])) || Embeds(dev, out[1..])))
  }

  lemma {:induction false} MergeEmbeds(dev: seq<Mode>, ad: seq<Mode>, p: Mode)
    ensures Embeds(dev, Merge(dev, ad, p))
    decreases |dev| + |ad|
  {
    var out := Merge(dev, ad, p);
    if ad == [] {
      if dev != [] { MergeEmbeds(dev[1..], ad, p); assert Enlarges(out[0], dev[0]); }
    } else if !Usable(ad[0], p) {
      MergeEmbeds(dev, ad[1..], p);
    } else if dev != [] && Above(dev[0], ad[0]) {
      MergeEmbeds(dev[1..], ad, p);
      assert Enlarges(out[0], dev[0]) && out[1..] == Merge(dev[1..], ad, p);
    } else if dev != [] && SameRes(dev[0], ad[0]) {
      MergeEmbeds(dev[1..], ad[1..], p);
      assert Enlarges(out[0], dev[0]) && out[1..] == Merge(dev[1..], ad[1..], p);
    } else {
      MergeEmbeds(dev, ad[1..], p);
      assert out[1..] == Merge(dev, ad[1..], p);
    }
  }

  /** `m` offers the resolution of `a` with all its color depths. */
  predicate Offers(m: Mode, a: Mode) { SameRes(m, a) && m.caps | a.caps == m.caps }

  predicate Offered(out: seq<Mode>, a: Mode) { exists j :: 0 <= j < |out| && Offers(out[j], a) }

  lemma OfferedLater(head: Mode, tail: seq<Mode>, a: Mode)
    requires Offered(tail, a)
    ensures Offered([head] + tail, a)
  {
    var j :| 0 <= j < |tail| && Offers(tail[j], a);
    assert ([head] + tail)[j + 1] == tail[j];
  }

  /** Every usable adapter mode is offered, at its resolution and with its color depths. */
  lemma {:induction false} MergeCovers(dev: seq<Mode>, ad: seq<Mode>, p: Mode, a: Mode)
    requires a in ad && Usable(a, p)
    ensures Offered(Merge(dev, ad, p), a)
    decreases |dev| + |ad|
  {
    var out := Merge(dev, ad, p);
    if !Usable(ad[0], p) {
      MergeCovers(dev, ad[1..], p, a);
    } else if dev != [] && Above(dev[0], ad[0]) {
      MergeCovers(dev[1..], ad, p, a);
      OfferedLater(out[0], Merge(dev[1..], ad, p), a);
    } else if a == ad[0] {
      assert Offers(out[0], a);
    } else {
      var rest := if dev != [] && SameRes(dev[0], ad[0]) then dev[1..] else dev;
      MergeCovers(rest, ad[1..], p, a);
      OfferedLater(out[0], Merge(rest, ad[1..], p), a);
    }
  }

  /** The output is ordered as the device list is. */
  lemma {:induction false} MergeDescends(dev: seq<Mode>, ad: seq<Mode>, p: Mode)
    requires Descending(dev) && StrictlyDescending(ad)
    ensures Descending(Merge(dev, ad, p))
    decreases |dev| + |ad|
  {
    if ad == [] {
    } else if !Usable(ad[0], p) {
      MergeDescends(dev, ad[1..], p);
    } else {
      var fromDev := dev != [] && !Above(ad[0], dev[0]);
      var fromAd := dev == [] || !Above(dev[0], ad[0]);
      var ds, as_ := if fromDev then dev[1..] else dev, if fromAd then ad[1..] else ad;
      MergeDescends(ds, as_, p);
      var head, tail := Merge(dev, ad, p)[0], Merge(ds, as_, p);
      assert Merge(dev, ad, p) == [head] + tail;
      forall j | 0 <= j < |tail| ensures !Above(tail[j], head) {
        MergeFrom(ds, as_, p, j);
      }
    }
  }

  /** Every entry has the resolution of an entry of one of the lists. */
  lemma {:induction false} MergeFrom(dev: seq<Mode>, ad: seq<Mode>, p: Mode, j: nat)
    requires j < |Merge(dev, ad, p)|
    ensures exists i :: (0 <= i < |dev| && SameRes(dev[i], Merge(dev, ad, p)[j])) || (0 <= i < |ad| && SameRes(ad[i], Merge(dev, ad, p)[j]))
    decreases |dev| + |ad|
  {
    var out := Merge(dev, ad, p);
    if ad == [] {
      assert SameRes(dev[j], out[j]);
    } else {
      var skip := !Usable(ad[0], p);
      var fromDev := !skip && dev != [] && !Above(ad[0], dev[0]);
      var fromAd := skip || dev == [] || !Above(dev[0], ad[0]);
      var ds, as_ := if fromDev then dev[1..] else dev, if fromAd then ad[1..] else ad;
      if !skip && j == 0 {
        if fromDev { assert SameRes(dev[0], out[0]); } else { assert SameRes(ad[0], out[0]); }
      } else {
        var k := if skip then j else j - 1;
        MergeFrom(ds, as_, p, k);
        var i :| (0 <= i < |ds| && SameRes(ds[i], Merge(ds, as_, p)[k])) || (0 <= i < |as_| && SameRes(as_[i], Merge(ds, as_, p)[k]));
        assert Merge(ds, as_, p)[k] == out[j];
        if 0 <= i < |ds| && SameRes(ds[i], out[j]) {
          assert ds[i] == dev[if fromDev then i + 1 else i];
        } else {
          assert as_[i] == ad[if fromAd then i + 1 else i];
        }
      }
    }
  }

  /**
   Where an entry of the output comes from: it is a device mode, a device mode with the color depths of an
   adapter mode of its resolution added, or an adapter mode; the adapter mode is nowhere larger than the
   preferred mode and not of its resolution.
  */
  ghost predicate ComesFrom(o: Mode, dev: seq<Mode>, ad: seq<Mode>, p: Mode) {
    || o in dev
    || exists a :: (
         && a in ad && a.xres <= p.xres && a.yres <= p.yres && (a.xres < p.xres || a.yres < p.yres)
         && (o == a || exists d :: d in dev && d.xres == a.xres && d.yres == a.yres && o == d.(caps := d.caps | a.caps)))
  }

  lemma ComesFromMore(o: Mode, ds: seq<Mode>, as_: seq<Mode>, dev: seq<Mode>, ad: seq<Mode>, p: Mode)
    requires ComesFrom(o, ds, as_, p) && (forall d :: d in ds ==> d in dev) && forall a :: a in as_ ==> a in ad
    ensures ComesFrom(o, dev, ad, p)
  {
  }

  lemma {:induction false} MergeComes(dev: seq<Mode>, ad: seq<Mode>, p: Mode, j: nat)
    requires j < |Merge(dev, ad, p)|
    ensures ComesFrom(Merge(dev, ad, p)[j], dev, ad, p)
    decreases |dev| + |ad|
  {
    var out := Merge(dev, ad, p);
    if ad != [] {
      var skip := !Usable(ad[0], p);
      var fromDev := !skip && dev != [] && !Above(ad[0], dev[0]);
      var fromAd := skip || dev == [] || !Above(dev[0], ad[0]);
      var ds, as_ := if fromDev then dev[1..] else dev, if fromAd then ad[1..] else ad;
      if !skip && j == 0 {
        assert ad[0] in ad && (dev != [] ==> dev[0] in dev);
      } else {
        var k := if skip then j else j - 1;
        MergeComes(ds, as_, p, k);
        assert Merge(ds, as_, p)[k] == out[j];
        ComesFromMore(out[j], ds, as_, dev, ad, p);
      }
    }
  }

  /** The whole promise of the merge, for device modes in order and adapter modes distinct and ascending. */
  lemma MergeMeets(dev: seq<Mode>, adapter: seq<Mode>)
    requires dev != [] && Descending(dev) && StrictlyAscending(adapter)
    ensures var p := Preferred(dev); var usable := Filter(Reverse(adapter), p); var out := Merge(dev, Reverse(adapter), p);
      && IsPreferred(dev, p) && Descending(out) && Embeds(dev, out)
      && (forall a :: a in adapter && a.xres <= p.xres && a.yres <= p.yres && (a.xres < p.xres || a.yres < p.yres) ==> Offered(out, a))
      && (forall j :: 0 <= j < |out| ==> ComesFrom(out[j], dev, adapter, p))
      && (forall r :: Count(out, r) == Count(dev, r) + if Count(dev, r) == 0 then Count(usable, r) else 0)
      && |out| == |dev| + |usable| - Matched(dev, usable) <= |dev| + |adapter|
  {
    var ad, p := Reverse(adapter), Preferred(dev);
    PreferredExact(dev);
    ReverseDescends(adapter);
    MergeDescends(dev, ad, p);
    MergeEmbeds(dev, ad, p);
    MergeLength(dev, ad, p);
    MergeCoversAll(dev, adapter, p);
    forall j | 0 <= j < |Merge(dev, ad, p)| ensures ComesFrom(Merge(dev, ad, p)[j], dev, adapter, p) {
      MergeComes(dev, ad, p, j);
      ComesFromMore(Merge(dev, ad, p)[j], dev, ad, dev, adapter, p);
    }
    forall r ensures Count(Merge(dev, ad, p), r) == Count(dev, r) + if Count(dev, r) == 0 then Count(Filter(ad, p), r) else 0 {
      MergeCounts(dev, ad, p, r);
    }
  }

  lemma MergeCoversAll(dev: seq<Mode>, adapter: seq<Mode>, p: Mode)
    ensures forall a :: a in adapter && Usable(a, p) ==> Offered(Merge(dev, Reverse(adapter), p), a)
  {
    forall a | a in adapter && Usable(a, p) ensures Offered(Merge(dev, Reverse(adapter), p), a) {
      var i :| 0 <= i < |adapter| && adapter[i] == a;
      assert Reverse(adapter)[|adapter| - 1 - i] == a;
      MergeCovers(dev, Reverse(adapter), p, a);
    }
  }

  // ---------------------------------------------------------------- the driver's loops

  method ReverseInPlace(a: array<Mode>, n: nat)
    requires n <= a.Length
    modifies a
    ensures a[..n] == Reverse(old(a[..n])) && a[n..] == old(a[n..])
  {
    var i := 0;
    while i < n / 2
      invariant i <= n / 2
      invariant forall k :: 0 <= k < n ==> a[k] == if i <= k < n - i then old(a[k]) else old(a[n - 1 - k])
      invariant a[n..] == old(a[n..])
    {
      var tmp := a[i];
      a[i] := a[n - i - 1];
      a[n - i - 1] := tmp;
      i := i + 1;
    }
  }

  /** The first mode marked preferred, else the first mode; a display without modes has none. */
  method GetPreferredMode(dev: seq<Mode>) returns (prefer: Option<Mode>)
    ensures prefer == if dev == [] then None else Some(Preferred(dev))
    ensures dev != [] ==> IsPreferred(dev, prefer.value)
  {
    if |dev| == 0 { return None; }
    PreferredExact(dev);
    var i := 0;
    while i < |dev|
      invariant i <= |dev| && Preferred(dev) == FirstPreferred(dev[i..], dev[0])
    {
      if dev[i].preferred { return Some(dev[i]); }
      i := i + 1;
    }
    prefer := Some(dev[0]);
  }

  /** The filter's test. `fault` tells that it reads a preferred mode that does not exist. */
  method IsAdapterModeValid(m: Mode, prefer: Option<Mode>) returns (fault: bool, valid: bool)
    ensures fault <==> prefer.None?
    ensures !fault ==> valid == Usable(m, prefer.value)
  {
    fault, valid := false, false;
    match prefer {
      case None => fault := true;
      case Some(p) => valid := !SameRes(m, p) && m.xres <= p.xres && m.yres <= p.yres;
    }
  }

  lemma MergeStep(dev: seq<Mode>, ad: seq<Mode>, p: Mode, d: nat, a: nat)
    requires d < |dev| && a < |ad|
    ensures !Usable(ad[a], p) ==> Merge(dev[d..], ad[a..], p) == Merge(dev[d..], ad[a + 1..], p)
    ensures Usable(ad[a], p) && Above(dev[d], ad[a]) ==>
      Merge(dev[d..], ad[a..], p) == [dev[d]] + Merge(dev[d + 1..], ad[a..], p)
    ensures Usable(ad[a], p) && SameRes(dev[d], ad[a]) ==>
      Merge(dev[d..], ad[a..], p) == [dev[d].(caps := dev[d].caps | ad[a].caps)] + Merge(dev[d + 1..], ad[a + 1..], p)
    ensures Usable(ad[a], p) && !Above(dev[d], ad[a]) && !SameRes(dev[d], ad[a]) ==>
      Merge(dev[d..], ad[a..], p) == [ad[a]] + Merge(dev[d..], ad[a + 1..], p)
  {
    assert ad[a..][1..] == ad[a + 1..] && dev[d..][1..] == dev[d + 1..];
  }

  lemma DrainStep(ad: seq<Mode>, p: Mode, a: nat)
    requires a < |ad|
    ensures Merge([], ad[a..], p) == (if Usable(ad[a], p) then [ad[a]] else []) + Merge([], ad[a + 1..], p)
  {
    assert ad[a..][1..] == ad[a + 1..];
  }

  /** What is written so far, followed by what the rest of the lists will add. */
  ghost predicate OnTrack(merged: array<Mode>, m: nat, dev: seq<Mode>, ad: seq<Mode>, p: Mode, d: nat, a: nat, all: seq<Mode>)
    reads merged
  {
    && m <= merged.Length && d <= |dev| && a <= |ad| && m <= d + a
    && merged[..m] + Merge(dev[d..], ad[a..], p) == all
  }

  /** Write one entry of the output. */
  method Emit(merged: array<Mode>, m: nat, x: Mode, ghost rest: seq<Mode>, ghost all: seq<Mode>)
    requires m < merged.Length && merged[..m] + ([x] + rest) == all
    modifies merged
    ensures merged[..m + 1] + rest == all
    ensures forall k :: 0 <= k < merged.Length && k != m ==> merged[k] == old(merged[k])
  {
    merged[m] := x;
    assert merged[..m + 1] == old(merged[..m]) + [x];
    assert merged[..m + 1] + rest == old(merged[..m]) + ([x] + rest);
  }

  /**
   Merge into the caller's buffer. A display without modes has no preferred mode to filter by: `fault`
   tells that the driver reads it all the same.
  */
  method MergeModes(merged: array<Mode>, adapter: array<Mode>, adapterNum: nat, dev: seq<Mode>)
    returns (fault: bool, num: nat)
    requires adapterNum <= adapter.Length && merged != adapter
    requires merged.Length >= |dev| + adapterNum
    modifies merged, adapter
    ensures adapter[..adapterNum] == Reverse(old(adapter[..adapterNum])) && adapter[adapterNum..] == old(adapter[adapterNum..])
    ensures fault <==> dev == [] && adapterNum > 0
    ensures dev != [] ==> IsPreferred(dev, Preferred(dev))
    ensures num <= |dev| + adapterNum
    ensures merged[..num] == if dev == [] then [] else Merge(dev, Reverse(old(adapter[..adapterNum])), Preferred(dev))
    ensures forall k :: |dev| + adapterNum <= k < merged.Length ==> merged[k] == old(merged[k])
  {
    ReverseInPlace(adapter, adapterNum);
    var prefer := GetPreferredMode(dev);
    ghost var ad, p := adapter[..adapterNum], if prefer.Some? then prefer.value else Mode(0, 0, 0, false, 0);
    ghost var all := Merge(dev, ad, p);
    assert dev[0..] == dev && ad[0..] == ad;
    var m, d, a;
    fault, m, d, a := MergeBoth(merged, adapter, adapterNum, dev, prefer, p, all);
    if d == |dev| && a < adapterNum {
      fault, m := DrainAdapter(merged, m, adapter, adapterNum, dev, prefer, p, a, all);
    }
    if d < |dev| && a == adapterNum {
      m := CopyDevice(merged, m, dev, ad, p, d, all);
    }
    assert dev[|dev|..] == [] && ad[|ad|..] == [];
    num := m;
  }

  /** The merge proper, until one of the lists is used up. */
  method MergeBoth(merged: array<Mode>, adapter: array<Mode>, adapterNum: nat, dev: seq<Mode>, prefer: Option<Mode>,
                   ghost p: Mode, ghost all: seq<Mode>) returns (fault: bool, m: nat, d: nat, a: nat)
    requires adapterNum <= adapter.Length && merged != adapter && merged.Length >= |dev| + adapterNum
    requires dev != [] ==> prefer == Some(p)
    requires OnTrack(merged, 0, dev, adapter[..adapterNum], p, 0, 0, all)
    modifies merged
    ensures !fault && (dev == [] ==> m == 0 && a == 0)
    ensures OnTrack(merged, m, dev, adapter[..adapterNum], p, d, a, all) && (d == |dev| || a == adapterNum)
    ensures forall k :: |dev| + adapterNum <= k < merged.Length ==> merged[k] == old(merged[k])
  {
    ghost var ad := adapter[..adapterNum];
    fault, m, d, a := false, 0, 0, 0;
    while d < |dev| && a < adapterNum
      invariant adapter[..adapterNum] == ad && OnTrack(merged, m, dev, ad, p, d, a, all) && !fault
      invariant dev == [] ==> m == 0 && a == 0
      invariant forall k :: |dev| + adapterNum <= k < merged.Length ==> merged[k] == old(merged[k])
      decreases |dev| - d + adapterNum - a
    {
      MergeStep(dev, ad, p, d, a);
      assert adapter[a] == ad[a];
      var valid;
      fault, valid := IsAdapterModeValid(adapter[a], prefer);
      if !valid {
        a := a + 1;
      } else if Above(dev[d], adapter[a]) {
        Emit(merged, m, dev[d], Merge(dev[d + 1..], ad[a..], p), all);
        m, d := m + 1, d + 1;
      } else if SameRes(dev[d], adapter[a]) {
        Emit(merged, m, dev[d].(caps := dev[d].caps | adapter[a].caps), Merge(dev[d + 1..], ad[a + 1..], p), all);
        m, d, a := m + 1, d + 1, a + 1;
      } else {
        Emit(merged, m, adapter[a], Merge(dev[d..], ad[a + 1..], p), all);
        m, a := m + 1, a + 1;
      }
    }
  }

  /** The adapter modes left over, filtered. Nothing is written before a fault. */
  method DrainAdapter(merged: array<Mode>, m0: nat, adapter: array<Mode>, adapterNum: nat, ghost dev: seq<Mode>,
                      prefer: Option<Mode>, ghost p: Mode, a0: nat, ghost all: seq<Mode>) returns (fault: bool, m: nat)
    requires adapterNum <= adapter.Length && merged != adapter && merged.Length >= |dev| + adapterNum
    requires prefer.Some? ==> prefer.value == p
    requires OnTrack(merged, m0, dev, adapter[..adapterNum], p, |dev|, a0, all)
    modifies merged
    ensures fault <==> prefer.None? && a0 < adapterNum
    ensures if fault then m == m0 && merged[..] == old(merged[..]) else m <= |dev| + adapterNum && merged[..m] == all
    ensures forall k :: |dev| + adapterNum <= k < merged.Length ==> merged[k] == old(merged[k])
  {
    fault, m := false, m0;
    var a := a0;
    ghost var ad := adapter[..adapterNum];
    assert dev[|dev|..] == [];
    while a < adapterNum
      invariant adapter[..adapterNum] == ad && OnTrack(merged, m, dev, ad, p, |dev|, a, all) && !fault
      invariant prefer.None? ==> a == a0 && m == m0 && merged[..] == old(merged[..])
      invariant forall k :: |dev| + adapterNum <= k < merged.Length ==> merged[k] == old(merged[k])
    {
      DrainStep(ad, p, a);
      assert adapter[a] == ad[a];
      var valid;
      fault, valid := IsAdapterModeValid(adapter[a], prefer);
      if fault { return; }
      if valid {
        Emit(merged, m, adapter[a], Merge([], ad[a + 1..], p), all);
        m := m + 1;
      }
      a := a + 1;
    }
    assert ad[a..] == [];
  }

  /** The device modes left over, copied as a block. */
  method CopyDevice(merged: array<Mode>, m0: nat, dev: seq<Mode>, ghost ad: seq<Mode>, ghost p: Mode, d0: nat,
                    ghost all: seq<Mode>) returns (m: nat)
    requires merged.Length >= |dev| + |ad| && OnTrack(merged, m0, dev, ad, p, d0, |ad|, all)
    modifies merged
    ensures m == m0 + |dev| - d0 && merged[..m] == all
    ensures forall k :: |dev| + |ad| <= k < merged.Length ==> merged[k] == old(merged[k])
  {
    assert ad[|ad|..] == [];
    m := m0;
    var d := d0;
    while d < |dev|
      invariant d <= |dev| && m == m0 + d - d0 && merged[..m] + dev[d..] == all
      invariant forall k :: |dev| + |ad| <= k < merged.Length ==> merged[k] == old(merged[k])
    {
      assert dev[d..] == [dev[d]] + dev[d + 1..];
      Emit(merged, m, dev[d], dev[d + 1..], all);
      m, d := m + 1, d + 1;
    }
  }
}
