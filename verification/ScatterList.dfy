/**
 A scatter list: segments of contiguous physical memory, in order. Flatten is the flat array of the
 addresses of its pages. Filling the page table, looking one page up and visiting the contiguous runs
 are three walks over the list, and each must agree with that array.

 Segments have whole pages and start at a page; they are not remapped for the device.
*/
module ScatterList {
  import opened Common

  /** `length` is a 32-bit count of bytes. */
  datatype Segment = Segment(phys: nat, length: nat) {
    predicate Valid() { 0 < length < TWO_32 && length % PAGE_SIZE == 0 && phys + length <= TWO_64 }

    function Count(): nat { length / PAGE_SIZE }

    function Pages(): (s: seq<nat>)
      ensures |s| == Count()
    {
      seq(Count(), j => phys + j * PAGE_SIZE)
    }
  }

  predicate ValidList(segs: seq<Segment>) { forall i :: 0 <= i < |segs| ==> segs[i].Valid() }

  function Flatten(segs: seq<Segment>): seq<nat> {
    if segs == [] then [] else segs[0].Pages() + Flatten(segs[1..])
  }

  lemma {:induction false} FlattenAppend(segs: seq<Segment>, seg: Segment)
    ensures Flatten(segs + [seg]) == Flatten(segs) + seg.Pages()
  {
    if segs == [] {
      assert segs + [seg] == [seg] && Flatten([seg]) == seg.Pages() + Flatten([]);
    } else {
      FlattenAppend(segs[1..], seg);
      assert (segs + [seg])[1..] == segs[1..] + [seg];
    }
  }

  // ---------------------------------------------------------------- the page table

  /** Store the pages of one segment at `at`. */
  method Fill(pages: array<nat>, at: nat, seg: Segment)
    requires at + seg.Count() <= pages.Length
    modifies pages
    ensures pages[..at + seg.Count()] == old(pages[..at]) + seg.Pages()
  {
    var j := 0;
    while j < seg.Count()
      invariant 0 <= j <= seg.Count() && pages[..at] == old(pages[..at])
      invariant pages[at..at + j] == seg.Pages()[..j]
    {
      pages[at + j] := seg.phys + j * PAGE_SIZE;
      j := j + 1;
    }
    assert pages[..at + j] == pages[..at] + pages[at..at + j];
  }

  /** The pages of the first segments, and of one more. */
  lemma FlattenUpTo(segs: seq<Segment>, i: nat)
    requires i < |segs|
    ensures Flatten(segs[..i + 1]) == Flatten(segs[..i]) + segs[i].Pages()
  {
    FlattenAppend(segs[..i], segs[i]);
    assert segs[..i + 1] == segs[..i] + [segs[i]];
  }

  lemma {:induction false} FlattenPrefix(segs: seq<Segment>, i: nat)
    requires i <= |segs|
    ensures |Flatten(segs[..i])| <= |Flatten(segs)|
    decreases |segs| - i
  {
    if i < |segs| {
      FlattenUpTo(segs, i);
      FlattenPrefix(segs, i + 1);
    } else {
      assert segs[..i] == segs;
    }
  }

  /** The page table becomes the flat array. */
  method ExtractPages(segs: seq<Segment>, pages: array<nat>)
    requires pages.Length == |Flatten(segs)|
    modifies pages
    ensures pages[..] == Flatten(segs)
  {
    var i, n := 0, 0;
    while i < |segs|
      invariant 0 <= i <= |segs| && n == |Flatten(segs[..i])| <= pages.Length
      invariant pages[..n] == Flatten(segs[..i])
    {
      FlattenUpTo(segs, i);
      FlattenPrefix(segs, i + 1);
      Fill(pages, n, segs[i]);
      i, n := i + 1, n + segs[i].Count();
    }
    assert segs[..i] == segs;
  }

  // ---------------------------------------------------------------- one page

  /** The address computed for page `n` of a segment: the byte offset is formed in 32 bits and added in 64. */
  function PageAddress(seg: Segment, n: nat): nat { (seg.phys + ToInt32(n * PAGE_SIZE)) % TWO_64 }

  /** The segment that page `n` lies in, and its index there. */
  function Locate(segs: seq<Segment>, n: nat): (r: (nat, nat))
    requires n < |Flatten(segs)|
    ensures r.0 < |segs| && r.1 < segs[r.0].Count() && Flatten(segs)[n] == segs[r.0].phys + r.1 * PAGE_SIZE
  {
    if n < segs[0].Count() then (0, n)
    else
      var r := Locate(segs[1..], n - segs[0].Count());
      (r.0 + 1, r.1)
  }

  /** What the lookup answers: zero for a page past the end. */
  function Lookup(segs: seq<Segment>, n: nat): nat {
    if segs == [] then 0
    else if n < segs[0].Count() then PageAddress(segs[0], n)
    else Lookup(segs[1..], n - segs[0].Count())
  }

  lemma {:induction false} LookupLocates(segs: seq<Segment>, n: nat)
    ensures n >= |Flatten(segs)| ==> Lookup(segs, n) == 0
    ensures n < |Flatten(segs)| ==> Lookup(segs, n) == PageAddress(segs[Locate(segs, n).0], Locate(segs, n).1)
  {
    if segs != [] && n >= segs[0].Count() { LookupLocates(segs[1..], n - segs[0].Count()); }
  }

  lemma AddressExact(seg: Segment, n: nat)
    requires seg.Valid() && n < seg.Count()
    ensures PageAddress(seg, n) == seg.phys + n * PAGE_SIZE <==> n < 0x8_0000
  {
    assert n * PAGE_SIZE < seg.length;
    var a := seg.phys + n * PAGE_SIZE;
    if n >= 0x8_0000 {
      assert ToInt32(n * PAGE_SIZE) == n * PAGE_SIZE - TWO_32;
      if a >= TWO_32 {
        assert (a - TWO_32) % TWO_64 == a - TWO_32;
      } else {
        assert (a - TWO_32 + TWO_64) % TWO_64 == a - TWO_32 + TWO_64;
      }
    }
  }

  /**
   The lookup gives the page of the flat array exactly when the page lies in the first 2 GiB of its
   segment: beyond, the 32-bit offset has turned negative.
  */
  lemma LookupExact(segs: seq<Segment>, n: nat)
    requires ValidList(segs) && n < |Flatten(segs)|
    ensures Lookup(segs, n) == Flatten(segs)[n] <==> Locate(segs, n).1 < 0x8_0000
  {
    LookupLocates(segs, n);
    AddressExact(segs[Locate(segs, n).0], Locate(segs, n).1);
  }

  /** A lookup that misses: the page 2 GiB into a segment of that size and one page. */
  lemma LookupMisses(phys: nat)
    requires phys + TWO_31 + PAGE_SIZE <= TWO_64
    ensures var segs := [Segment(phys, TWO_31 + PAGE_SIZE)];
      ValidList(segs) && |Flatten(segs)| == 0x8_0001 && Lookup(segs, 0x8_0000) != Flatten(segs)[0x8_0000]
  {
    var segs := [Segment(phys, TWO_31 + PAGE_SIZE)];
    assert segs[1..] == [];
    LookupExact(segs, 0x8_0000);
  }

  method GetPageAddress(segs: seq<Segment>, pageNum: nat) returns (address: nat)
    requires ValidList(segs) && |Flatten(segs)| < TWO_31 && pageNum < TWO_31
    ensures address == Lookup(segs, pageNum)
  {
    address := 0;
    var i, pageStart := 0, 0;
    while i < |segs|
      invariant 0 <= i <= |segs| && pageStart <= pageNum && address == 0
      invariant pageStart + |Flatten(segs[i..])| == |Flatten(segs)|
      invariant Lookup(segs, pageNum) == Lookup(segs[i..], pageNum - pageStart)
    {
      assert segs[i..][1..] == segs[i + 1..];
      var pageCnt := segs[i].Count();
      if pageStart + pageCnt - 1 >= pageNum {
        address := PageAddress(segs[i], pageNum - pageStart);
        break;
      }
      i, pageStart := i + 1, pageStart + pageCnt;
    }
  }

  // ---------------------------------------------------------------- contiguous runs

  /** One call of the visitor: its first page, the number of pages and the address. */
  datatype Run = Run(start: nat, count: nat, address: nat)

  function Runs(segs: seq<Segment>, start: nat): (runs: seq<Run>)
    ensures |runs| == |segs|
  {
    if segs == [] then []
    else [Run(start, segs[0].Count(), segs[0].phys)] + Runs(segs[1..], start + segs[0].Count())
  }

  /** Where run `k` ends. */
  function RunEnd(runs: seq<Run>, k: nat): nat
    requires k < |runs|
  {
    runs[k].start + runs[k].count
  }

  /** Run `k` starts where the one before ends, the first at `start`. */
  predicate Follows(runs: seq<Run>, start: nat, k: nat)
    requires k < |runs|
  {
    runs[k].start == if k == 0 then start else RunEnd(runs, k - 1)
  }

  lemma {:induction false} RunFollows(segs: seq<Segment>, start: nat, k: nat)
    requires k < |segs|
    ensures Follows(Runs(segs, start), start, k)
    ensures k == |segs| - 1 ==> RunEnd(Runs(segs, start), k) == start + |Flatten(segs)|
  {
    if k > 0 {
      RunFollows(segs[1..], start + segs[0].Count(), k - 1);
    } else if |segs| == 1 {
      assert Flatten(segs[1..]) == [];
    }
  }

  /** The runs follow one another from the first page to the last. */
  lemma RunsPartition(segs: seq<Segment>, start: nat)
    ensures var runs := Runs(segs, start);
      && (forall k :: 0 <= k < |runs| ==> Follows(runs, start, k))
      && (segs != [] ==> RunEnd(runs, |runs| - 1) == start + |Flatten(segs)|)
  {
    forall k | 0 <= k < |segs| ensures Follows(Runs(segs, start), start, k) { RunFollows(segs, start, k); }
    if segs != [] { RunFollows(segs, start, |segs| - 1); }
  }

  /** Each page of a run is at the address the flat array gives. */
  lemma {:induction false} RunsCover(segs: seq<Segment>, start: nat, k: nat, j: nat)
    requires k < |segs| && j < segs[k].Count()
    ensures var run := Runs(segs, start)[k];
      && start <= run.start && run.count == segs[k].Count() && run.start + j < start + |Flatten(segs)|
      && Flatten(segs)[run.start - start + j] == run.address + j * PAGE_SIZE
  {
    if k > 0 { RunsCover(segs[1..], start + segs[0].Count(), k - 1, j); }
  }

  lemma {:induction false} RunIs(segs: seq<Segment>, start: nat, k: nat)
    requires k < |segs|
    ensures Runs(segs, start)[k].count == segs[k].Count() && Runs(segs, start)[k].address == segs[k].phys
  {
    if k > 0 { RunIs(segs[1..], start + segs[0].Count(), k - 1); }
  }

  /** The caller's visitor: it records its calls and may answer anything. */
  class Visitor {
    ghost var calls: seq<Run>
    ghost var answers: seq<int>

    method Visit(start: nat, count: nat, address: nat) returns (answer: int)
      modifies this
      ensures calls == old(calls) + [Run(start, count, address)] && answers == old(answers) + [answer]
    {
      answer := *;
      calls, answers := calls + [Run(start, count, address)], answers + [answer];
    }
  }

  /** Visit the runs in order until the visitor answers other than zero; `given` is what it answered. */
  method ForEachContiguous(segs: seq<Segment>, visitor: Visitor) returns (ghost given: seq<int>)
    modifies visitor
    ensures |given| <= |segs| && visitor.calls == old(visitor.calls) + Runs(segs, 0)[..|given|]
    ensures visitor.answers == old(visitor.answers) + given
    ensures forall k :: 0 <= k < |given| - 1 ==> given[k] == 0
    ensures |given| == |segs| || (given != [] && given[|given| - 1] != 0)
  {
    ghost var runs := Runs(segs, 0);
    var i, pageStart := 0, 0;
    given := [];
    while i < |segs|
      invariant 0 <= i == |given| <= |segs| && pageStart == if i == 0 then 0 else RunEnd(runs, i - 1)
      invariant visitor.calls == old(visitor.calls) + runs[..i] && visitor.answers == old(visitor.answers) + given
      invariant forall k :: 0 <= k < i ==> given[k] == 0
    {
      var pageCnt := segs[i].Count();
      RunIs(segs, 0, i);
      RunFollows(segs, 0, i);
      assert runs[..i + 1] == runs[..i] + [Run(pageStart, pageCnt, segs[i].phys)];
      var answer := visitor.Visit(pageStart, pageCnt, segs[i].phys);
      given := given + [answer];
      if answer != 0 {
        break;
      }
      i, pageStart := i + 1, pageStart + pageCnt;
    }
  }
}
