/**
 The residency bookkeeping of one open file as the driver keeps it: a counted list of resident objects
 and four snapshots of it that batches may use while the list moves on. The class refines the machine of
 ResidentState, and counts the references that the file holds on an object.
*/
module ResidentFile {
  import opened Common
  import opened ResidentList
  import opened ResidentState

  function Occurrences(s: seq<Gem>, g: Gem): nat {
    if s == [] then 0
    else Occurrences(s[..|s| - 1], g) + if s[|s| - 1] == g then 1 else 0
  }

  lemma {:induction false} OccurrencesConcat(s: seq<Gem>, t: seq<Gem>, g: Gem)
    ensures Occurrences(s + t, g) == Occurrences(s, g) + Occurrences(t, g)
  {
    if t == [] {
      assert s + t == s;
    } else {
      assert (s + t)[..|s + t| - 1] == s + t[..|t| - 1];
      OccurrencesConcat(s, t[..|t| - 1], g);
    }
  }

  lemma RemoveObjs(l: seq<Node>, k: nat, g: Gem)
    requires k < |l|
    ensures Occurrences(Objs(l), g) == Occurrences(Objs(l[..k] + l[k + 1..]), g) + if l[k].obj == g then 1 else 0
  {
    var a, b := Objs(l), Objs(l[..k] + l[k + 1..]);
    assert a == a[..k + 1] + a[k + 1..] && b == a[..k] + a[k + 1..];
    OccurrencesConcat(a[..k + 1], a[k + 1..], g);
    OccurrencesConcat(a[..k], a[k + 1..], g);
    assert a[..k + 1][..k] == a[..k];
  }

  /** How often an object occurs in the snapshots together. */
  function Uses(cs: seq<Cache>, g: Gem): nat {
    if cs == [] then 0 else Occurrences(cs[0].Snapshot(), g) + Uses(cs[1..], g)
  }

  lemma {:induction false} NoOccurrence(s: seq<Gem>, g: Gem)
    requires g !in s
    ensures Occurrences(s, g) == 0
  {
    if s != [] { NoOccurrence(s[..|s| - 1], g); }
  }

  lemma {:induction false} UsesAbsent(cs: seq<Cache>, g: Gem)
    requires forall i :: 0 <= i < |cs| ==> g !in cs[i].Snapshot()
    ensures Uses(cs, g) == 0
  {
    if cs != [] {
      NoOccurrence(cs[0].Snapshot(), g);
      UsesAbsent(cs[1..], g);
    }
  }

  lemma UsesNone(cs: seq<Cache>, g: Gem)
    requires forall i :: 0 <= i < |cs| ==> cs[i].Snapshot() == []
    ensures Uses(cs, g) == 0
  {
    UsesAbsent(cs, g);
  }

  /** What one snapshot gains or loses is what the snapshots together gain or lose. */
  lemma {:induction false} UsesUpdate(cs: seq<Cache>, i: nat, c: Cache, g: Gem)
    requires i < |cs|
    ensures Uses(cs[i := c], g) + Occurrences(cs[i].Snapshot(), g) == Uses(cs, g) + Occurrences(c.Snapshot(), g)
  {
    if i == 0 {
      assert cs[i := c][1..] == cs[1..];
    } else {
      assert cs[i := c][1..] == cs[1..][i - 1 := c];
      UsesUpdate(cs[1..], i - 1, c, g);
    }
  }

  class File {
    var residents: seq<Node>
    var residentCnt: nat
    var dirty: nat
    var caches: seq<Cache>
    /** An object chosen once and for all, and the references this file holds on it. */
    ghost const g: Gem
    ghost var refs: nat
    /** References on it taken by a lookup that is still in progress. */
    ghost var lookups: nat
    /** The states of the file from its opening, and the calls between them. */
    ghost var run: seq<State>
    ghost var calls: seq<Call>

    function View(): State
      reads this`residents, this`dirty, this`caches
    {
      State(residents, dirty, caches)
    }

    predicate CachesValid()
      reads this`caches
    {
      |caches| == NCACHES && AllValid(caches)
    }

    /** The references held are those of the list, of the snapshots and of a lookup, no more and no less. */
    ghost predicate Balanced()
      reads this`residents, this`caches, this`refs, this`lookups
    {
      refs == Occurrences(Objs(residents), g) + Uses(caches, g) + lookups
    }

    /** Everything but the stamps. */
    ghost predicate Consistent()
      reads this`residents, this`residentCnt, this`dirty, this`caches, this`refs, this`lookups
    {
      CachesValid() && Balanced() && lookups == 0 && Proper(residents) && residentCnt == |residents| && dirty < TWO_32
    }

    ghost predicate Valid()
      reads this`residents, this`residentCnt, this`dirty, this`caches, this`refs, this`lookups
    {
      Consistent() && Coherent(View())
    }

    ghost predicate OnRun()
      reads this`residents, this`dirty, this`caches, this`run, this`calls
    {
      IsRun(run, calls) && run[|calls|] == View()
    }

    /** What a call made in the state `s`, with `run` and `calls` behind it, does. */
    ghost predicate Called(s: State, run: seq<State>, calls: seq<Call>, call: Call)
      reads this
    {
      Consistent() && Served(run, calls, s, call, View()) && this.calls == calls + [call] && this.run == run + [View()]
    }

    constructor (ghost g: Gem)
      ensures Valid() && View() == NEW_FILE && this.g == g && refs == 0
      ensures OnRun() && run == [NEW_FILE] && Changes(run) == 0
    {
      residents, residentCnt, dirty, refs, lookups, this.g := [], 0, 0, 0, 0, g;
      caches := UNUSED;
      run, calls := [NEW_FILE], [];
      new;
      assert forall i :: 0 <= i < NCACHES ==> caches[i].Snapshot() == [];
      UsesNone(caches, g);
    }

    /** Note a call that has just been served, and was made in the state `s`. */
    ghost method Record(s: State, call: Call)
      requires WellFormed(s) && Coherent(s) && Consistent() && Step(s, call, View())
      modifies this`run, this`calls
      ensures Called(s, old(run), old(calls), call)
    {
      CallServed(run, calls, s, call, View());
      run, calls := run + [View()], calls + [call];
    }

    method Get(o: Gem)
      modifies this`refs
      ensures refs == old(refs) + if o == g then 1 else 0
    {
      if o == g { refs := refs + 1; }
    }

    method Put(o: Gem)
      requires o == g ==> refs > 0
      modifies this`refs
      ensures refs == old(refs) - if o == g then 1 else 0
    {
      if o == g { refs := refs - 1; }
    }

    /** The index of the object's node, or the length of the list. */
    method Find(obj: Gem) returns (k: nat)
      ensures k <= |residents| && (k < |residents| ==> residents[k].obj == obj)
      ensures forall j :: 0 <= j < k ==> residents[j].obj != obj
    {
      k := 0;
      while k < |residents|
        invariant k <= |residents| && forall j :: 0 <= j < k ==> residents[j].obj != obj
      {
        if residents[k].obj == obj { return; }
        k := k + 1;
      }
    }

    /** The write "only append is safe": past the end of the snapshot and inside the buffer. */
    method Append(i: nat, obj: Gem)
      requires CachesValid() && i < NCACHES && caches[i].count < caches[i].caps && Balanced()
      modifies this`caches, this`refs
      ensures CachesValid() && Balanced()
      ensures var c := old(caches)[i];
        && caches == old(caches)[i := c.(slots := Some(c.slots.value[c.count := obj]), dirty := dirty, count := c.count + 1)]
        && caches[i].Snapshot() == c.Snapshot() + [obj]
    {
      var c := caches[i];
      var d := c.(slots := Some(c.slots.value[c.count := obj]), dirty := dirty, count := c.count + 1);
      assert d.Snapshot()[..c.count] == c.Snapshot();
      UsesUpdate(caches, i, d, g);
      Get(obj);
      caches := caches[i := d];
    }

    /** Give back the references of a snapshot, one by one. */
    method PutAll(c: Cache)
      requires c.Valid() && Occurrences(c.Snapshot(), g) <= refs
      modifies this`refs
      ensures refs == old(refs) - Occurrences(c.Snapshot(), g)
    {
      ghost var snap := c.Snapshot();
      var k := 0;
      while k < c.count
        invariant k <= c.count
        invariant refs == old(refs) - Occurrences(snap[..k], g)
      {
        assert snap[..k + 1][..k] == snap[..k];
        OccurrencesConcat(snap[..k + 1], snap[k + 1..], g);
        assert snap[..k + 1] + snap[k + 1..] == snap;
        Put(c.slots.value[k]);
        k := k + 1;
      }
      assert snap[..k] == snap;
    }

    /** Drop a snapshot and its references. The stamp stays. */
    method Invalidate(i: nat)
      requires CachesValid() && i < NCACHES && caches[i].inUse == 0 && Balanced()
      modifies this`caches, this`refs
      ensures CachesValid() && Balanced()
      ensures caches == old(caches)[i := old(caches)[i].(count := 0)]
    {
      var c := caches[i];
      UsesUpdate(caches, i, c.(count := 0), g);
      if c.slots.Some? {
        PutAll(c);
        caches := caches[i := c.(count := 0)];
      }
    }

    /** Copy the list into the buffer of a dropped snapshot, taking a reference for each entry. */
    method FillFrom(c: Cache) returns (d: Cache)
      requires c.Valid() && c.count == 0 && c.caps >= |residents| == residentCnt
      modifies this`refs
      ensures d.Valid() && d.Snapshot() == Objs(residents)
      ensures d == c.(slots := d.slots, count := residentCnt, dirty := dirty)
      ensures c.slots.Some? ==> d.slots.Some?
      ensures refs == old(refs) + Occurrences(Objs(residents), g)
    {
      d := c;
      ghost var objs := Objs(residents);
      var k := 0;
      while k < |residents|
        invariant k <= |residents| && d.Valid() && d == c.(slots := d.slots)
        invariant c.slots.Some? ==> d.slots.Some?
        invariant d.slots.Some? ==> d.slots.value[..k] == objs[..k]
        invariant refs == old(refs) + Occurrences(objs[..k], g)
      {
        assert objs[..k + 1][..k] == objs[..k];
        Get(residents[k].obj);
        var slots := d.slots.value[k := residents[k].obj];
        assert slots[..k + 1] == objs[..k] + [objs[k]] == objs[..k + 1];
        d := d.(slots := Some(slots));
        k := k + 1;
      }
      assert objs[..k] == objs;
      d := d.(count := residentCnt, dirty := dirty);
    }

    /** Buffers for at least as many entries as the list has; old ones that are too small go. */
    method Reserve(c: Cache) returns (d: Cache)
      requires c.Valid() && c.count == 0
      ensures d.Valid() && d == c.(caps := d.caps, slots := d.slots) && d.Snapshot() == []
      ensures d.caps >= residentCnt && (residentCnt > 0 ==> d.slots.Some?)
      ensures d.caps == c.caps || (d.caps >= 2 * residentCnt && d.caps % 64 == 0)
    {
      d := c;
      if c.caps < residentCnt {
        var caps := (residentCnt + 31) / 32 * 32 * 2;
        d := c.(caps := caps, slots := Some(seq(caps, j => Gem(0, 0))));
      }
    }

    /** Take a fresh copy of the list into a cache that nobody uses, growing its buffer if need be. */
    method UpdateCache(i: nat)
      requires Consistent() && i < NCACHES && caches[i].inUse == 0
      modifies this`caches, this`refs
      ensures Consistent() && caches == old(caches)[i := caches[i]]
      ensures caches[i].Snapshot() == Objs(residents) && caches[i].dirty == dirty && caches[i].inUse == 0
      ensures residents != [] ==> caches[i].slots.Some?
    {
      Invalidate(i);
      var c := Reserve(caches[i]);
      var d := FillFrom(c);
      UsesUpdate(caches, i, d, g);
      caches := caches[i := d];
    }

    /** Append to one snapshot if it was up to date and has room; otherwise it stays behind. */
    method TryAppend(i: nat, obj: Gem)
      requires CachesValid() && Balanced() && i < NCACHES && dirty < TWO_32
      requires caches[i].dirty == LastStamp(dirty) ==> caches[i].count + 1 == residentCnt
      modifies this`caches, this`refs
      ensures CachesValid() && Balanced()
      ensures caches == old(caches)[i := Appended(old(caches)[i], dirty, residentCnt, obj)]
    {
      var c := caches[i];
      AppendedIs(c, dirty, residentCnt, obj);
      if c.dirty == LastStamp(dirty) && c.caps >= residentCnt {
        Append(i, obj);
      }
    }

    method AppendEach(obj: Gem)
      requires CachesValid() && Balanced() && dirty < TWO_32
      requires forall i :: 0 <= i < NCACHES && caches[i].dirty == LastStamp(dirty) ==> caches[i].count + 1 == residentCnt
      modifies this`caches, this`refs
      ensures CachesValid() && Balanced()
      ensures caches == AppendedAll(old(caches), dirty, residentCnt, obj)
    {
      for i := 0 to NCACHES
        invariant CachesValid() && Balanced()
        invariant forall j :: i <= j < NCACHES ==> caches[j] == old(caches)[j]
        invariant forall j :: 0 <= j < i ==> caches[j] == Appended(old(caches)[j], dirty, residentCnt, obj)
      {
        TryAppend(i, obj);
      }
    }

    /** Drop every snapshot that nobody uses. */
    method InvalidateUnused()
      requires CachesValid() && Balanced()
      modifies this`caches, this`refs
      ensures CachesValid() && Balanced() && caches == DroppedAll(old(caches))
    {
      for i := 0 to NCACHES
        invariant CachesValid() && Balanced()
        invariant forall j :: i <= j < NCACHES ==> caches[j] == old(caches)[j]
        invariant forall j :: 0 <= j < i ==> caches[j] == Dropped(old(caches)[j])
      {
        if caches[i].inUse == 0 {
          Invalidate(i);
        }
      }
    }

    /** Everything but the references of lookups in progress, and but for `l` as the list. */
    ghost predicate Sound(l: seq<Node>)
      reads this`residents, this`residentCnt, this`dirty, this`caches, this`refs, this`lookups
    {
      CachesValid() && Balanced() && Proper(l) && residentCnt == |residents| && dirty < TWO_32
    }

    /** A listed object is asked for once more, or once less; the objects listed stay the same. */
    method Recount(k: nat, cnt: nat)
      requires k < |residents| && Sound(residents[k := Node(residents[k].obj, cnt)])
      modifies this`residents
      ensures Sound(residents) && View() == old(View()).(residents := old(residents)[k := Node(old(residents)[k].obj, cnt)])
    {
      SameObjs(residents, residents[k := Node(residents[k].obj, cnt)]);
      residents := residents[k := Node(residents[k].obj, cnt)];
    }

    /** A lookup by handle takes a reference on the object it finds. */
    method Lookup(obj: Gem)
      requires Consistent()
      modifies this`refs, this`lookups
      ensures Sound(residents) && lookups == if obj == g then 1 else 0
    {
      Get(obj);
      if obj == g { lookups := lookups + 1; }
    }

    method EndLookup(obj: Gem)
      requires Sound(residents) && lookups == if obj == g then 1 else 0
      modifies this`refs, this`lookups
      ensures Consistent()
    {
      Put(obj);
      if obj == g { lookups := lookups - 1; }
    }

    /** Put the object at the tail of the list, which keeps the reference of the lookup. */
    method AddNode(obj: Gem)
      requires CachesValid() && Balanced() && residentCnt == |residents| && (obj == g ==> lookups > 0)
      requires obj !in Objs(residents)
      modifies this`residents, this`residentCnt, this`dirty, this`lookups
      ensures CachesValid() && Balanced() && lookups == old(lookups) - if obj == g then 1 else 0
      ensures residents == old(residents) + [Node(obj, 1)] && Objs(residents) == Objs(old(residents)) + [obj]
      ensures residentCnt == |residents| && dirty == NextStamp(old(dirty))
    {
      assert Objs(residents + [Node(obj, 1)]) == Objs(residents) + [obj];
      assert (Objs(residents) + [obj])[..|residents|] == Objs(residents);
      residentCnt := residentCnt + 1;
      dirty := NextStamp(dirty);
      residents := residents + [Node(obj, 1)];
      if obj == g { lookups := lookups - 1; }
    }

    /** Take the object at an index off the list and give back the list's reference. */
    method RemoveNode(k: nat)
      requires CachesValid() && Balanced() && residentCnt == |residents| && k < |residents|
      modifies this`residents, this`residentCnt, this`refs
      ensures CachesValid() && Balanced() && residentCnt == |residents|
      ensures residents == old(residents)[..k] + old(residents)[k + 1..]
    {
      var obj := residents[k].obj;
      ghost var uses, occ := Uses(caches, g), Occurrences(Objs(residents), g);
      RemoveObjs(residents, k, g);
      residents := residents[..k] + residents[k + 1..];
      assert occ == Occurrences(Objs(residents), g) + if obj == g then 1 else 0;
      Put(obj);
      residentCnt := residentCnt - 1;
      assert uses == Uses(caches, g);
    }

    /** A new resident object: on the list, and on every snapshot that was up to date and has room. */
    method Enlist(obj: Gem)
      requires Sound(residents + [Node(obj, 1)]) && Coherent(View()) && obj !in Objs(residents)
      requires lookups == if obj == g then 1 else 0
      modifies this`residents, this`residentCnt, this`dirty, this`caches, this`refs, this`lookups
      ensures Consistent()
      ensures var more, stamp := old(residents) + [Node(obj, 1)], NextStamp(old(dirty));
        View() == State(more, stamp, AppendedAll(old(caches), stamp, |more|, obj))
    {
      assert forall i :: 0 <= i < NCACHES && caches[i].dirty == dirty ==> UpToDate(caches[i], dirty, Objs(residents));
      AddNode(obj);
      AppendEach(obj);
    }

    /** The last request for an object is gone. */
    method Delist(k: nat, ghost rest: seq<Node>)
      requires k < |residents| && rest == residents[..k] + residents[k + 1..] && Sound(rest)
      modifies this`residents, this`residentCnt, this`dirty, this`caches, this`refs
      ensures Sound(residents) && View() == State(rest, NextStamp(old(dirty)), DroppedAll(old(caches)))
    {
      RemoveNode(k);
      dirty := NextStamp(dirty);
      InvalidateUnused();
    }

    /** The object's node is at index `k`: one request more. */
    method MakeListed(obj: Gem, k: nat)
      requires k < |residents| && residents[k].obj == obj && forall j :: 0 <= j < k ==> residents[j].obj != obj
      requires Sound(residents) && Proper(Bump(residents, obj)) && lookups == if obj == g then 1 else 0
      modifies this`residents, this`refs, this`lookups
      ensures Consistent() && View() == AfterMake(old(View()), obj)
    {
      ghost var s := View();
      BumpFound(residents, obj, k);
      Recount(k, residents[k].cnt + 1);
      EndLookup(obj);
      MakesListed(s, obj, k, View());
    }

    /** The object has no node yet. */
    method MakeNew(obj: Gem)
      requires forall j :: 0 <= j < |residents| ==> residents[j].obj != obj
      requires Sound(residents) && Proper(Bump(residents, obj)) && Coherent(View()) && lookups == if obj == g then 1 else 0
      modifies this`residents, this`residentCnt, this`dirty, this`caches, this`refs, this`lookups
      ensures Consistent() && View() == AfterMake(old(View()), obj)
    {
      ghost var s := View();
      Unlisted(residents, obj);
      Enlist(obj);
      MakesNew(s, obj, View());
    }

    /** Serve a make-resident request for an object that a lookup holds. */
    method MakeFound(obj: Gem)
      requires Sound(residents) && Coherent(View()) && lookups == if obj == g then 1 else 0
      modifies this`residents, this`residentCnt, this`dirty, this`caches, this`refs, this`lookups
      ensures Consistent() && View() == AfterMake(old(View()), obj)
    {
      var k := Find(obj);
      StaysProper(residents, obj);
      if k < |residents| {
        MakeListed(obj, k);
      } else {
        MakeNew(obj);
      }
    }

    /** One more request to keep the object of a handle resident; None when the handle names none. */
    method MakeResident(lookup: Option<Gem>) returns (found: bool)
      requires Valid()
      modifies this
      ensures found <==> lookup.Some?
      ensures Called(old(View()), old(run), old(calls), if found then Ask(Make(lookup.value)) else NoSuchHandle)
      ensures UseKept(old(View()), View())
    {
      ghost var s := View();
      found := lookup.Some?;
      if !found {
        Record(s, NoSuchHandle);
        return;
      }
      Lookup(lookup.value);
      MakeFound(lookup.value);
      StepKeepsUse(s, Ask(Make(lookup.value)), View());
      Record(s, Ask(Make(lookup.value)));
    }

    /** The object's node is at index `k`: one request less, or the last one gone. */
    method EvictListed(obj: Gem, k: nat)
      requires k < |residents| && residents[k].obj == obj && forall j :: 0 <= j < k ==> residents[j].obj != obj
      requires Sound(residents) && Proper(Unbump(residents, obj))
      modifies this`residents, this`residentCnt, this`dirty, this`caches, this`refs
      ensures Sound(residents) && View() == AfterEvict(old(View()), obj)
    {
      EvictAt(View(), obj, k);
      if residents[k].cnt > 1 {
        Recount(k, residents[k].cnt - 1);
      } else {
        Delist(k, residents[..k] + residents[k + 1..]);
      }
    }

    /** Serve an evict for an object that a lookup holds. */
    method EvictFound(obj: Gem)
      requires Sound(residents) && lookups == if obj == g then 1 else 0
      modifies this`residents, this`residentCnt, this`dirty, this`caches, this`refs, this`lookups
      ensures Consistent() && View() == AfterEvict(old(View()), obj)
    {
      var k := Find(obj);
      StaysProper(residents, obj);
      if k < |residents| {
        EvictListed(obj, k);
      } else {
        Unlisted(residents, obj);
      }
      EndLookup(obj);
    }

    /** One request less; the last one takes the object off the list and drops the snapshots not in use. */
    method Evict(lookup: Option<Gem>) returns (found: bool)
      requires Valid()
      modifies this
      ensures found <==> lookup.Some?
      ensures Called(old(View()), old(run), old(calls), if found then Ask(Request.Evict(lookup.value)) else NoSuchHandle)
      ensures UseKept(old(View()), View())
    {
      ghost var s := View();
      found := lookup.Some?;
      if !found {
        Record(s, NoSuchHandle);
        return;
      }
      Lookup(lookup.value);
      EvictFound(lookup.value);
      StepKeepsUse(s, Ask(Request.Evict(lookup.value)), View());
      Record(s, Ask(Request.Evict(lookup.value)));
    }

    /** When the change count wraps to zero, a snapshot never used passes for up to date. */
    method FirstWrap(obj: Gem)
      requires Valid() && dirty == TWO_32 - 1 && caches[0] == NO_CACHE && obj !in Objs(residents)
      modifies this
      ensures residents != [] && |caches| == NCACHES && caches[0].dirty == dirty && caches[0].Snapshot() == [] && !Coherent(View())
    {
      MakeForm(View(), obj);
      var found := MakeResident(Some(obj));
      assert NO_CACHE.Snapshot() == [] && Objs(residents) != [];
      assert !UpToDate(caches[0], dirty, Objs(residents));
    }

    // ---------------------------------------------------------------- batches

    /** Give a batch a snapshot of the list: one that is up to date, else one refreshed in an unused slot, else none. */
    method Pin() returns (slot: nat)
      requires Valid()
      modifies this`caches, this`refs, this`run, this`calls
      ensures Called(old(View()), old(run), old(calls), Call.Pin) && Valid() && slot <= NCACHES
      ensures slot < NCACHES ==> Pinned(old(View()), View(), slot)
      ensures slot == NCACHES ==> NonePinned(View()) && View() == old(View())
    {
      ghost var s := View();
      slot := NCACHES;
      if residentCnt > 0 {
        slot := FindUpToDate();
        if slot < NCACHES {
          assert UpToDate(caches[slot], dirty, Objs(residents));
          Hold(slot, caches[slot].inUse + 1);
        } else {
          slot := PinUnused();
        }
      }
      assert slot < NCACHES ==> Pinned(s, View(), slot);
      Record(s, Call.Pin);
    }

    /** Refresh a cache that nobody uses and take it. */
    method PinUnused() returns (slot: nat)
      requires Consistent() && residents != []
      modifies this`caches, this`refs
      ensures Consistent() && slot <= NCACHES
      ensures slot < NCACHES ==>
        && caches[slot].slots.Some? && caches[slot].Snapshot() == Objs(residents) && old(caches)[slot].inUse == 0
        && caches == old(caches)[slot := caches[slot]] && caches[slot].inUse == 1 && caches[slot].dirty == dirty
      ensures slot == NCACHES ==> caches == old(caches) && forall i :: 0 <= i < NCACHES ==> caches[i].inUse > 0
    {
      slot := FindUnused();
      if slot < NCACHES {
        UpdateCache(slot);
        Hold(slot, 1);
      }
    }

    method FindUpToDate() returns (i: nat)
      requires |caches| == NCACHES
      ensures i <= NCACHES && (i < NCACHES ==> caches[i].dirty == dirty)
      ensures forall j :: 0 <= j < i ==> caches[j].dirty != dirty
    {
      i := 0;
      while i < NCACHES && caches[i].dirty != dirty
        invariant i <= NCACHES && forall j :: 0 <= j < i ==> caches[j].dirty != dirty
      {
        i := i + 1;
      }
    }

    method FindUnused() returns (i: nat)
      requires |caches| == NCACHES
      ensures i <= NCACHES && (i < NCACHES ==> caches[i].inUse == 0)
      ensures forall j :: 0 <= j < i ==> caches[j].inUse > 0
    {
      i := 0;
      while i < NCACHES && caches[i].inUse > 0
        invariant i <= NCACHES && forall j :: 0 <= j < i ==> caches[j].inUse > 0
      {
        i := i + 1;
      }
    }

    method Hold(i: nat, inUse: nat)
      requires Consistent() && i < NCACHES
      modifies this`caches
      ensures Consistent() && caches == old(caches)[i := old(caches)[i].(inUse := inUse)]
    {
      UsesUpdate(caches, i, caches[i].(inUse := inUse), g);
      caches := caches[i := caches[i].(inUse := inUse)];
    }

    /** A batch is done with its snapshot; the last user of a stale one drops it. */
    method Unpin(i: nat)
      requires Valid() && i < NCACHES && caches[i].inUse > 0
      modifies this`caches, this`refs, this`run, this`calls
      ensures Called(old(View()), old(run), old(calls), Call.Unpin(i)) && Valid() && View() == AfterUnpin(old(View()), i)
      ensures old(caches)[i].inUse == 1 && old(caches)[i].dirty < dirty ==> caches[i].inUse == 0 && caches[i].Snapshot() == []
    {
      ghost var s := View();
      Hold(i, caches[i].inUse - 1);
      if caches[i].inUse == 0 && caches[i].dirty < dirty {
        Invalidate(i);
      }
      Record(s, Call.Unpin(i));
    }

    /**
     On a run with fewer than 2^32 changes, the file holds no reference on an object that is neither listed
     nor in a snapshot in use.
    */
    lemma NoStrayReference()
      requires Consistent() && OnRun() && Changes(run) < TWO_32
      requires g !in Objs(residents) && forall i :: 0 <= i < NCACHES && caches[i].inUse > 0 ==> g !in caches[i].Snapshot()
      ensures refs == 0
    {
      RunOnlyListed(run, calls);
      NoOccurrence(Objs(residents), g);
      forall i | 0 <= i < NCACHES ensures g !in caches[i].Snapshot() {
        assert View().caches[i] == caches[i];
      }
      UsesAbsent(caches, g);
    }

    // ---------------------------------------------------------------- end of the file

    method EmptyList()
      requires CachesValid() && Balanced() && residentCnt == |residents|
      modifies this`residents, this`residentCnt, this`refs
      ensures CachesValid() && Balanced() && residents == [] && residentCnt == 0
    {
      while residents != []
        invariant Balanced() && residentCnt == |residents|
        decreases |residents|
      {
        RemoveNode(0);
      }
      residentCnt := 0;
    }

    method InvalidateAll()
      requires CachesValid() && Balanced() && forall i :: 0 <= i < NCACHES ==> caches[i].inUse == 0
      modifies this`caches, this`refs
      ensures CachesValid() && Balanced()
      ensures forall i :: 0 <= i < NCACHES ==> caches[i] == old(caches)[i].(count := 0)
    {
      for i := 0 to NCACHES
        invariant CachesValid() && Balanced()
        invariant forall j :: i <= j < NCACHES ==> caches[j] == old(caches)[j]
        invariant forall j :: 0 <= j < i ==> caches[j] == old(caches)[j].(count := 0)
      {
        Invalidate(i);
      }
    }

    /**
     Give everything back. The buffers go but their capacities and stamps stay: the file is fit for
     further use exactly when no snapshot ever had a buffer.
    */
    method Cleanup()
      requires Valid() && forall i :: 0 <= i < NCACHES ==> caches[i].inUse == 0
      modifies this
      ensures residents == [] && residentCnt == 0 && refs == 0 && dirty == old(dirty)
      ensures |caches| == NCACHES
      ensures forall i :: 0 <= i < NCACHES ==> caches[i] == old(caches)[i].(count := 0, slots := None)
      ensures Valid() <==> forall i :: 0 <= i < NCACHES ==> caches[i].caps == 0
    {
      EmptyList();
      InvalidateAll();
      UsesNone(caches, g);
      var cs := caches;
      caches := seq(NCACHES, i requires 0 <= i < NCACHES => cs[i].(slots := None));
      UsesNone(caches, g);
      assert forall i :: 0 <= i < NCACHES ==> (caches[i].Valid() <==> caches[i].caps == 0);
    }
  }
}
