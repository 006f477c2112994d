/**
 The residency bookkeeping of one file as a value: the list, its change count and the four snapshots, and
 what each request makes of them. A snapshot is stamped with the change count of the list it copies; a
 stamp equal to the file's is taken to mean "up to date". The count is kept in 32 bits.
*/
module ResidentState {
  import opened Common
  import opened ResidentList

  /**
   One of the four snapshot records embedded in the file. `slots` stands for its two parallel
   buffers, None for no buffer: slot i is gem_list[i] with its private handle resident_list[i].
  */
  datatype Cache = Cache(inUse: nat, dirty: nat, caps: nat, count: nat, slots: Option<seq<Gem>>) {
    predicate Valid() {
      && count <= caps
      && (slots.None? ==> caps == 0)
      && (slots.Some? ==> |slots.value| == caps)
    }

    /** The entries a user of the snapshot reads. */
    function Snapshot(): seq<Gem> {
      if slots.Some? && count <= |slots.value| then slots.value[..count] else []
    }
  }

  const NO_CACHE := Cache(0, 0, 0, 0, None)
  const NCACHES: nat := 4

  predicate AllValid(cs: seq<Cache>) { forall i :: 0 <= i < |cs| ==> cs[i].Valid() }

  datatype State = State(residents: seq<Node>, dirty: nat, caches: seq<Cache>)

  const UNUSED := [NO_CACHE, NO_CACHE, NO_CACHE, NO_CACHE]
  const NEW_FILE := State([], 0, UNUSED)

  predicate WellFormed(s: State) {
    |s.caches| == NCACHES && AllValid(s.caches) && Proper(s.residents) && s.dirty < TWO_32
  }

  /** An up-to-date stamp means an exact copy. */
  predicate UpToDate(c: Cache, dirty: nat, objs: seq<Gem>) { c.dirty == dirty ==> c.Snapshot() == objs }

  predicate Coherent(s: State) {
    forall i :: 0 <= i < |s.caches| ==> UpToDate(s.caches[i], s.dirty, Objs(s.residents))
  }

  /** The count has not wrapped since any of the stamps was given. */
  predicate StampsPast(s: State) { forall i :: 0 <= i < |s.caches| ==> s.caches[i].dirty <= s.dirty }

  // ---------------------------------------------------------------- the requests

  function NextStamp(dirty: nat): nat { if dirty == TWO_32 - 1 then 0 else dirty + 1 }

  function LastStamp(dirty: nat): nat { if dirty == 0 then TWO_32 - 1 else dirty - 1 }

  /** A snapshot after an object was added to the list, which now has `cnt` objects and the stamp `dirty`. */
  function Appended(c: Cache, dirty: nat, cnt: nat, obj: Gem): Cache {
    if c.dirty == LastStamp(dirty) && c.caps >= cnt && c.slots.Some? && c.count < |c.slots.value| then
      c.(slots := Some(c.slots.value[c.count := obj]), dirty := dirty, count := c.count + 1)
    else c
  }

  /** A snapshot after an object left the list. */
  function Dropped(c: Cache): Cache { if c.inUse == 0 then c.(count := 0) else c }

  function AppendedAll(cs: seq<Cache>, dirty: nat, cnt: nat, obj: Gem): (ds: seq<Cache>)
    ensures |ds| == |cs| && forall i :: 0 <= i < |cs| ==> ds[i] == Appended(cs[i], dirty, cnt, obj)
  {
    seq(|cs|, i requires 0 <= i < |cs| => Appended(cs[i], dirty, cnt, obj))
  }

  function DroppedAll(cs: seq<Cache>): (ds: seq<Cache>)
    ensures |ds| == |cs| && forall i :: 0 <= i < |cs| ==> ds[i] == Dropped(cs[i])
  {
    seq(|cs|, i requires 0 <= i < |cs| => Dropped(cs[i]))
  }

  function AfterMake(s: State, obj: Gem): State {
    var l := Bump(s.residents, obj);
    if |l| == |s.residents| then s.(residents := l)
    else State(l, NextStamp(s.dirty), AppendedAll(s.caches, NextStamp(s.dirty), |l|, obj))
  }

  function AfterEvict(s: State, obj: Gem): State {
    var l := Unbump(s.residents, obj);
    if |l| == |s.residents| then s.(residents := l)
    else State(l, NextStamp(s.dirty), DroppedAll(s.caches))
  }

  /** A batch takes a snapshot: one that is up to date as it is, or one not in use that is refreshed. */
  predicate Taken(c: Cache, d: Cache, dirty: nat, objs: seq<Gem>) {
    && d.Valid() && d.slots.Some? && d.Snapshot() == objs && d.dirty == dirty
    && if c.dirty == dirty then d == c.(inUse := c.inUse + 1) else c.inUse == 0 && d.inUse == 1
  }

  predicate Pinned(s: State, t: State, slot: nat) {
    && slot < |s.caches| == |t.caches| && s.residents != []
    && t == s.(caches := s.caches[slot := t.caches[slot]])
    && Taken(s.caches[slot], t.caches[slot], s.dirty, Objs(s.residents))
  }

  /** No snapshot is to be had: there is nothing to copy, or every snapshot is in use and stale. */
  predicate NonePinned(s: State) {
    s.residents == [] || forall i :: 0 <= i < |s.caches| ==> s.caches[i].inUse > 0 && s.caches[i].dirty != s.dirty
  }

  /** A batch is done with snapshot `i`; the last user of a stale one drops it. */
  function AfterUnpin(s: State, i: nat): State
    requires i < |s.caches| && s.caches[i].inUse > 0
  {
    var c := s.caches[i].(inUse := s.caches[i].inUse - 1);
    s.(caches := s.caches[i := if c.dirty < s.dirty then Dropped(c) else c])
  }

  datatype Call = Ask(r: Request) | NoSuchHandle | Pin | Unpin(i: nat)

  ghost predicate Step(s: State, call: Call, t: State) {
    match call
    case Ask(Make(o)) => t == AfterMake(s, o)
    case Ask(Evict(o)) => t == AfterEvict(s, o)
    case NoSuchHandle => t == s
    case Pin => (NonePinned(s) && t == s) || exists slot: nat :: Pinned(s, t, slot)
    case Unpin(i) => i < |s.caches| && s.caches[i].inUse > 0 && t == AfterUnpin(s, i)
  }

  /** The list gained or lost an object. */
  predicate Changed(s: State, t: State) { |s.residents| != |t.residents| }

  // ---------------------------------------------------------------- one request

  lemma {:induction false} UnbumpLength(l: seq<Node>, o: Gem)
    ensures |l| - 1 <= |Unbump(l, o)| <= |l|
    ensures |Unbump(l, o)| == |l| ==> forall i :: 0 <= i < |l| ==> Unbump(l, o)[i].obj == l[i].obj
  {
    if l != [] && l[0].obj != o { UnbumpLength(l[1..], o); }
  }

  lemma AppendedSnapshot(c: Cache, dirty: nat, cnt: nat, obj: Gem)
    requires c.Valid()
    ensures var d := Appended(c, dirty, cnt, obj);
      && d.Valid() && c.Snapshot() <= d.Snapshot()
      && (d == c || (d.dirty == dirty && d.Snapshot() == c.Snapshot() + [obj]))
  {
    var d := Appended(c, dirty, cnt, obj);
    if d != c { assert d.slots.value[..c.count] == c.slots.value[..c.count]; }
  }

  lemma AppendedIs(c: Cache, dirty: nat, cnt: nat, obj: Gem)
    requires c.Valid() && (c.dirty == LastStamp(dirty) ==> c.count + 1 == cnt)
    ensures c.dirty == LastStamp(dirty) && c.caps >= cnt ==> c.count < c.caps
    ensures Appended(c, dirty, cnt, obj) ==
      if c.dirty == LastStamp(dirty) && c.caps >= cnt then c.(slots := Some(c.slots.value[c.count := obj]), dirty := dirty, count := c.count + 1) else c
  {
  }

  lemma MakesListed(s: State, obj: Gem, k: nat, t: State)
    requires k < |s.residents| && s.residents[k].obj == obj && forall j :: 0 <= j < k ==> s.residents[j].obj != obj
    requires t == s.(residents := s.residents[k := Node(obj, s.residents[k].cnt + 1)])
    ensures t == AfterMake(s, obj)
  {
    BumpFound(s.residents, obj, k);
  }

  lemma MakesNew(s: State, obj: Gem, t: State)
    requires forall j :: 0 <= j < |s.residents| ==> s.residents[j].obj != obj
    requires var more, stamp := s.residents + [Node(obj, 1)], NextStamp(s.dirty);
      t == State(more, stamp, AppendedAll(s.caches, stamp, |more|, obj))
    ensures t == AfterMake(s, obj)
  {
    Unlisted(s.residents, obj);
  }

  lemma MakeForm(s: State, obj: Gem)
    requires WellFormed(s)
    ensures var t := AfterMake(s, obj);
      && WellFormed(t) && (Changed(s, t) <==> obj !in Objs(s.residents))
      && Objs(t.residents) == Objs(s.residents) + (if Changed(s, t) then [obj] else [])
      && t.dirty == (if Changed(s, t) then NextStamp(s.dirty) else s.dirty)
  {
    BumpObjs(s.residents, obj);
    StaysProper(s.residents, obj);
    var t := AfterMake(s, obj);
    forall i | 0 <= i < NCACHES && Changed(s, t) ensures t.caches[i].Valid() {
      AppendedSnapshot(s.caches[i], t.dirty, |t.residents|, obj);
    }
  }

  lemma EvictForm(s: State, obj: Gem)
    requires WellFormed(s)
    ensures var t := AfterEvict(s, obj);
      && WellFormed(t) && (!Changed(s, t) ==> Objs(t.residents) == Objs(s.residents) && t.caches == s.caches)
      && t.dirty == (if Changed(s, t) then NextStamp(s.dirty) else s.dirty)
  {
    var l := Unbump(s.residents, obj);
    UnbumpLength(s.residents, obj);
    StaysProper(s.residents, obj);
    if |l| == |s.residents| { SameObjs(l, s.residents); }
  }

  lemma EvictAt(s: State, obj: Gem, k: nat)
    requires k < |s.residents| && s.residents[k].obj == obj && forall j :: 0 <= j < k ==> s.residents[j].obj != obj
    ensures var l, rest := s.residents, s.residents[..k] + s.residents[k + 1..];
      if l[k].cnt > 1 then Unbump(l, obj) == l[k := Node(obj, l[k].cnt - 1)] && AfterEvict(s, obj) == s.(residents := l[k := Node(obj, l[k].cnt - 1)])
      else Unbump(l, obj) == rest && AfterEvict(s, obj) == State(rest, NextStamp(s.dirty), DroppedAll(s.caches))
  {
    UnbumpFound(s.residents, obj, k);
  }

  /** The buffers and the list stay in shape, whatever the stamps say. */
  lemma StepForm(s: State, call: Call, t: State)
    requires WellFormed(s) && Step(s, call, t)
    ensures WellFormed(t) && t.dirty == if Changed(s, t) then NextStamp(s.dirty) else s.dirty
  {
    match call
    case Ask(Make(o)) => MakeForm(s, o);
    case Ask(Evict(o)) => EvictForm(s, o);
    case _ =>
  }

  /**
   No stamp will lie after the call: a snapshot that bears the next stamp already is, as the call leaves
   it, the list as the call leaves it. An evict empties the snapshots that nobody uses.
  */
  predicate Harmless(s: State, call: Call) {
    match call
    case Ask(Make(o)) =>
      o in Objs(s.residents) ||
      forall c :: c in s.caches && c.dirty == NextStamp(s.dirty) ==> c.Snapshot() == Objs(s.residents) + [o]
    case Ask(Evict(o)) =>
      |Unbump(s.residents, o)| == |s.residents| ||
      forall c :: c in s.caches && c.dirty == NextStamp(s.dirty) ==> Dropped(c).Snapshot() == Objs(Unbump(s.residents, o))
    case _ => true
  }

  lemma MakeExact(s: State, obj: Gem)
    requires WellFormed(s) && Coherent(s)
    ensures Coherent(AfterMake(s, obj)) <==> Harmless(s, Ask(Make(obj)))
  {
    MakeForm(s, obj);
    var t := AfterMake(s, obj);
    if Changed(s, t) {
      forall i | 0 <= i < NCACHES
        ensures UpToDate(t.caches[i], t.dirty, Objs(t.residents)) <==>
          (s.caches[i].dirty == t.dirty ==> s.caches[i].Snapshot() == Objs(t.residents))
      {
        AppendedSnapshot(s.caches[i], t.dirty, |t.residents|, obj);
        assert UpToDate(s.caches[i], s.dirty, Objs(s.residents));
      }
      assert forall i :: 0 <= i < NCACHES ==> s.caches[i] in s.caches;
    }
  }

  lemma EvictExact(s: State, obj: Gem)
    requires WellFormed(s) && Coherent(s)
    ensures Coherent(AfterEvict(s, obj)) <==> Harmless(s, Ask(Evict(obj)))
  {
    EvictForm(s, obj);
    assert forall i :: 0 <= i < NCACHES ==> s.caches[i] in s.caches;
  }

  /** A call on a file with truthful stamps leaves them truthful if and only if it is harmless. */
  lemma StepExact(s: State, call: Call, t: State)
    requires WellFormed(s) && Coherent(s) && Step(s, call, t)
    ensures Coherent(t) <==> Harmless(s, call)
  {
    match call
    case Ask(Make(o)) => MakeExact(s, o);
    case Ask(Evict(o)) => EvictExact(s, o);
    case NoSuchHandle =>
    case Pin => assert forall i :: 0 <= i < NCACHES ==> UpToDate(s.caches[i], s.dirty, Objs(s.residents));
    case Unpin(j) => assert forall i :: 0 <= i < NCACHES ==> UpToDate(s.caches[i], s.dirty, Objs(s.residents));
  }

  /** Short of the wrap every call is harmless, since the next stamp is new. */
  lemma StepPast(s: State, call: Call, t: State)
    requires WellFormed(s) && StampsPast(s) && Step(s, call, t) && (s.dirty < TWO_32 - 1 || !Changed(s, t))
    ensures StampsPast(t) && Harmless(s, call)
  {
    match call
    case Ask(Make(o)) => MakeForm(s, o);
    case Ask(Evict(o)) => EvictForm(s, o);
    case _ =>
  }

  // ---------------------------------------------------------------- whole runs

  ghost predicate IsRun(run: seq<State>, calls: seq<Call>) {
    && |run| == |calls| + 1 && run[0] == NEW_FILE
    && forall k :: 0 <= k < |calls| ==> Step(run[k], calls[k], run[k + 1])
  }

  /** How often the list gained or lost an object. */
  function Changes(run: seq<State>): nat {
    if |run| <= 1 then 0
    else Changes(run[..|run| - 1]) + if Changed(run[|run| - 2], run[|run| - 1]) then 1 else 0
  }

  function Asked(calls: seq<Call>): seq<Request> {
    if calls == [] then []
    else Asked(calls[..|calls| - 1]) + match calls[|calls| - 1] case Ask(r) => [r] case _ => []
  }

  lemma RunPrefix(run: seq<State>, calls: seq<Call>)
    requires IsRun(run, calls) && calls != []
    ensures IsRun(run[..|calls|], calls[..|calls| - 1])
    ensures Step(run[|calls| - 1], calls[|calls| - 1], run[|calls|])
  {
  }

  /** A call changes the list as the request it makes, if any, would. */
  lemma StepServes(s: State, call: Call, t: State, calls: seq<Call>)
    requires Step(s, call, t) && s.residents == Serve(Asked(calls))
    ensures t.residents == Serve(Asked(calls + [call]))
  {
    var rs := Asked(calls);
    assert (calls + [call])[..|calls|] == calls;
    if call.Ask? {
      assert Asked(calls + [call]) == rs + [call.r];
      assert (rs + [call.r])[..|rs|] == rs;
    } else {
      assert Asked(calls + [call]) == rs;
    }
  }

  lemma NextIsModular(n: nat)
    ensures NextStamp(n % TWO_32) == (n + 1) % TWO_32
  {
  }

  /** After any run the list is what the requests make of it, and the stamp counts its changes modulo 2^32. */
  lemma {:induction false} RunServes(run: seq<State>, calls: seq<Call>)
    requires IsRun(run, calls)
    ensures var s := run[|calls|];
      WellFormed(s) && s.residents == Serve(Asked(calls)) && s.dirty == Changes(run) % TWO_32
  {
    if calls == [] {
      assert Asked(calls) == [];
    } else {
      var n := |calls| - 1;
      RunPrefix(run, calls);
      RunServes(run[..n + 1], calls[..n]);
      StepForm(run[n], calls[n], run[n + 1]);
      StepServes(run[n], calls[n], run[n + 1], calls[..n]);
      assert calls[..n] + [calls[n]] == calls;
      NextIsModular(Changes(run[..n + 1]));
    }
  }

  lemma {:induction false} RunForm(run: seq<State>, calls: seq<Call>, k: nat)
    requires IsRun(run, calls) && k < |run|
    ensures WellFormed(run[k])
  {
    if k > 0 {
      RunForm(run, calls, k - 1);
      StepForm(run[k - 1], calls[k - 1], run[k]);
    }
  }

  /** Fewer than 2^32 changes of the list, with any other calls between them, leave every stamp truthful. */
  lemma {:induction false} RunCoherent(run: seq<State>, calls: seq<Call>)
    requires IsRun(run, calls) && Changes(run) < TWO_32
    ensures var s := run[|calls|]; Coherent(s) && StampsPast(s) && s.dirty == Changes(run)
  {
    if calls != [] {
      var n := |calls| - 1;
      RunPrefix(run, calls);
      RunCoherent(run[..n + 1], calls[..n]);
      RunServes(run[..n + 1], calls[..n]);
      StepForm(run[n], calls[n], run[n + 1]);
      StepPast(run[n], calls[n], run[n + 1]);
      StepExact(run[n], calls[n], run[n + 1]);
    }
  }

  ghost predicate Truthful(run: seq<State>) { forall k :: 0 <= k < |run| ==> Coherent(run[k]) }

  ghost predicate AllHarmless(run: seq<State>, calls: seq<Call>)
    requires |run| == |calls| + 1
  {
    forall k :: 0 <= k < |calls| ==> Harmless(run[k], calls[k])
  }

  lemma LastCall(run: seq<State>, calls: seq<Call>)
    requires |run| == |calls| + 1 > 1
    ensures var n := |calls| - 1;
      && (Truthful(run) <==> Truthful(run[..n + 1]) && Coherent(run[n + 1]))
      && (AllHarmless(run, calls) <==> AllHarmless(run[..n + 1], calls[..n]) && Harmless(run[n], calls[n]))
      && (Truthful(run[..n + 1]) ==> Coherent(run[n]))
  {
    var n := |calls| - 1;
    assert forall k :: 0 <= k <= n ==> run[..n + 1][k] == run[k];
    assert forall k :: 0 <= k < n ==> calls[..n][k] == calls[k];
  }

  /** Over any run, however long, the stamps are truthful throughout if and only if every call was harmless. */
  lemma {:induction false} RunExact(run: seq<State>, calls: seq<Call>)
    requires IsRun(run, calls)
    ensures Truthful(run) <==> AllHarmless(run, calls)
  {
    if calls != [] {
      var n := |calls| - 1;
      RunPrefix(run, calls);
      RunExact(run[..n + 1], calls[..n]);
      RunServes(run[..n + 1], calls[..n]);
      LastCall(run, calls);
      if Coherent(run[n]) { StepExact(run[n], calls[n], run[n + 1]); }
    }
  }

  lemma RunExtend(run: seq<State>, calls: seq<Call>, call: Call, t: State)
    requires IsRun(run, calls) && Step(run[|calls|], call, t)
    ensures IsRun(run + [t], calls + [call])
    ensures Changes(run + [t]) == Changes(run) + if Changed(run[|calls|], t) then 1 else 0
  {
    assert (run + [t])[..|run|] == run;
  }

  /**
   What is known of a call made in the state `s`, with `run` and `calls` behind it: it keeps the stamps
   truthful exactly when it is harmless, as it is in every run with fewer than 2^32 changes of the list.
  */
  ghost predicate Served(run: seq<State>, calls: seq<Call>, s: State, call: Call, t: State) {
    && Step(s, call, t) && (Coherent(t) <==> Harmless(s, call))
    && (IsRun(run, calls) && run[|calls|] == s ==>
          && IsRun(run + [t], calls + [call]) && (Changes(run + [t]) < TWO_32 ==> Coherent(t))
          && Changes(run + [t]) == Changes(run) + if Changed(s, t) then 1 else 0)
  }

  lemma CallServed(run: seq<State>, calls: seq<Call>, s: State, call: Call, t: State)
    requires WellFormed(s) && Coherent(s) && Step(s, call, t)
    ensures Served(run, calls, s, call, t)
  {
    StepExact(s, call, t);
    if IsRun(run, calls) && run[|calls|] == s {
      RunExtend(run, calls, call, t);
      if Changes(run + [t]) < TWO_32 { RunCoherent(run + [t], calls + [call]); }
    }
  }

  // ---------------------------------------------------------------- what the snapshots hold

  /** A snapshot that was up to date and has room is up to date again after an object was added. */
  lemma MakeRefreshes(s: State, obj: Gem, i: nat)
    requires WellFormed(s) && Coherent(s) && obj !in Objs(s.residents)
    requires i < NCACHES && s.caches[i].dirty == s.dirty && s.caches[i].caps > |s.residents|
    ensures var t := AfterMake(s, obj); t.caches[i].dirty == t.dirty && t.caches[i].Snapshot() == Objs(t.residents)
  {
    MakeForm(s, obj);
    AppendedSnapshot(s.caches[i], NextStamp(s.dirty), |s.residents| + 1, obj);
    assert UpToDate(s.caches[i], s.dirty, Objs(s.residents));
  }

  /** A snapshot that nobody uses holds listed objects only. */
  ghost predicate OnlyListed(s: State) {
    forall i, o :: 0 <= i < |s.caches| && s.caches[i].inUse == 0 && o in s.caches[i].Snapshot() ==> o in Objs(s.residents)
  }

  lemma MakeOnlyListed(s: State, obj: Gem)
    requires WellFormed(s) && OnlyListed(s)
    ensures OnlyListed(AfterMake(s, obj))
  {
    MakeForm(s, obj);
    var t := AfterMake(s, obj);
    forall i, o | 0 <= i < NCACHES && t.caches[i].inUse == 0 && o in t.caches[i].Snapshot() ensures o in Objs(t.residents) {
      AppendedSnapshot(s.caches[i], t.dirty, |t.residents|, obj);
    }
  }

  lemma StepOnlyListed(s: State, call: Call, t: State)
    requires WellFormed(s) && Coherent(s) && StampsPast(s) && OnlyListed(s) && Step(s, call, t)
    ensures OnlyListed(t)
  {
    match call
    case Ask(Make(o)) => MakeOnlyListed(s, o);
    case Ask(Evict(o)) => EvictForm(s, o);
    case NoSuchHandle =>
    case Pin =>
    case Unpin(i) => assert UpToDate(s.caches[i], s.dirty, Objs(s.residents));
  }

  /** After every run with fewer than 2^32 changes, a snapshot that nobody uses holds listed objects only. */
  lemma {:induction false} RunOnlyListed(run: seq<State>, calls: seq<Call>)
    requires IsRun(run, calls) && Changes(run) < TWO_32
    ensures OnlyListed(run[|calls|])
  {
    if calls != [] {
      var n := |calls| - 1;
      RunPrefix(run, calls);
      RunOnlyListed(run[..n + 1], calls[..n]);
      RunServes(run[..n + 1], calls[..n]);
      RunCoherent(run[..n + 1], calls[..n]);
      StepOnlyListed(run[n], calls[n], run[n + 1]);
    }
  }

  // ---------------------------------------------------------------- what a batch relies on

  /** The buffer stays, and so do the entries read from it. */
  predicate Extends(c: Cache, d: Cache) { c.caps == d.caps && c.Snapshot() <= d.Snapshot() }

  lemma StepExtends(s: State, call: Call, t: State, i: nat)
    requires WellFormed(s) && Step(s, call, t) && i < NCACHES && s.caches[i].inUse > 0 && t.caches[i].inUse > 0
    ensures Extends(s.caches[i], t.caches[i])
  {
    if call.Ask? && call.r.Make? { AppendedSnapshot(s.caches[i], t.dirty, |t.residents|, call.r.o); }
  }

  /** Nobody's use of a snapshot begins or ends, and the snapshots in use are kept for their users. */
  predicate UseKept(s: State, t: State) {
    |s.caches| == |t.caches| && forall i :: 0 <= i < |s.caches| ==>
      t.caches[i].inUse == s.caches[i].inUse && (t.caches[i].inUse > 0 ==> Extends(s.caches[i], t.caches[i]))
  }

  lemma StepKeepsUse(s: State, call: Call, t: State)
    requires WellFormed(s) && Step(s, call, t) && (call.Ask? || call.NoSuchHandle?)
    ensures UseKept(s, t)
  {
    forall i | 0 <= i < NCACHES && s.caches[i].inUse > 0 && t.caches[i].inUse > 0 ensures Extends(s.caches[i], t.caches[i]) {
      StepExtends(s, call, t, i);
    }
  }

  lemma ExtendsOn(c: Cache, d: Cache, e: Cache)
    requires Extends(c, d) && Extends(d, e)
    ensures Extends(c, e)
  {
  }

  predicate InUseAt(s: State, i: nat) { i < |s.caches| && s.caches[i].inUse > 0 }

  lemma PinnedNext(run: seq<State>, calls: seq<Call>, i: nat, k: nat)
    requires IsRun(run, calls) && k < |calls| && InUseAt(run[k], i) && InUseAt(run[k + 1], i)
    ensures Extends(run[k].caches[i], run[k + 1].caches[i])
  {
    RunForm(run, calls, k);
    StepExtends(run[k], calls[k], run[k + 1], i);
  }

  /** While a snapshot is in use, its buffer and the entries read from it last, whatever else is called. */
  lemma {:induction false} PinnedLasts(run: seq<State>, calls: seq<Call>, i: nat, j: nat, k: nat)
    requires IsRun(run, calls) && j <= k < |run| && forall m :: j <= m <= k ==> InUseAt(run[m], i)
    ensures InUseAt(run[j], i) && InUseAt(run[k], i) && Extends(run[j].caches[i], run[k].caches[i])
    decreases k
  {
    if j < k {
      PinnedLasts(run, calls, i, j, k - 1);
      PinnedNext(run, calls, i, k - 1);
      ExtendsOn(run[j].caches[i], run[k - 1].caches[i], run[k].caches[i]);
    }
  }

  // ---------------------------------------------------------------- the wrap

  /** One object made resident and evicted, `n` times over. */
  lemma {:induction false} ToAndFro(n: nat, o: Gem) returns (run: seq<State>, calls: seq<Call>)
    requires 2 * n < TWO_32
    ensures IsRun(run, calls) && run[|calls|] == State([], 2 * n, UNUSED) && Changes(run) == 2 * n
  {
    if n == 0 {
      run, calls := [NEW_FILE], [];
    } else {
      run, calls := ToAndFro(n - 1, o);
      var s, t := State([Node(o, 1)], 2 * n - 1, UNUSED), State([], 2 * n, UNUSED);
      RunExtend(run, calls, Ask(Make(o)), s);
      run, calls := run + [s], calls + [Ask(Make(o))];
      RunExtend(run, calls, Ask(Evict(o)), t);
      run, calls := run + [t], calls + [Ask(Evict(o))];
    }
  }

  /** A run from a new file whose 2^32nd change makes snapshots never used pass for copies of a list of two. */
  lemma WrapReached(a: Gem, b: Gem) returns (run: seq<State>, calls: seq<Call>)
    requires a != b
    ensures IsRun(run, calls) && Changes(run) == TWO_32
    ensures var s := run[|calls|]; s == State([Node(a, 1), Node(b, 1)], 0, UNUSED) && !Coherent(s)
  {
    run, calls := ToAndFro(TWO_31 - 1, a);
    var s, t := State([Node(a, 1)], TWO_32 - 1, UNUSED), State([Node(a, 1), Node(b, 1)], 0, UNUSED);
    RunExtend(run, calls, Ask(Make(a)), s);
    run, calls := run + [s], calls + [Ask(Make(a))];
    assert Bump(s.residents, b) == [Node(a, 1)] + Bump([], b) == t.residents;
    RunExtend(run, calls, Ask(Make(b)), t);
    run, calls := run + [t], calls + [Ask(Make(b))];
    assert NO_CACHE.Snapshot() == [];
    assert !UpToDate(t.caches[0], t.dirty, Objs(t.residents));
  }
}
