/**
 The fence driver: any thread may enqueue a fence under the driver lock; one worker thread moves
 the queue to a private list, signals the fences that are back and counts them off. The counters
 are changed beside the lists, so the states between a list operation and its counter are states
 of this machine too.
*/
module FenceDriver {
  datatype Mode = Unset | Poll | Interrupt

  /** A fence, with how often it was enqueued, signaled and put for the queue so far. */
  datatype Fence = Fence(wantsInterrupt: bool, mode: Mode, back: bool, enqueued: nat, signals: nat, puts: nat)

  /** The holder of the driver lock in the middle of enqueuing a fence. */
  datatype Enqueuer = NoOne | Added(f: nat) | Counted(f: nat)

  datatype Worker =
    | Waiting                                   // about to take the queue over
    | Walking(i: nat)                           // at index i of the process list
    | Tested(i: nat) | Unpolled(i: nat)         // its fence is back; its poll mode is counted off
    | Deleted(f: nat, i: nat) | CountedOff(f: nat, i: nat) | Signaled(f: nat, i: nat)
    | Passed                                    // the end of the process list

  datatype Driver = Driver(
    canFreeze: bool, fences: seq<Fence>, queue: seq<nat>, work: seq<nat>,
    fenceCount: int, pollCount: int, enqueuer: Enqueuer, worker: Worker)

  datatype Step =
    | Back(f: nat)                              // the hardware passes a fence
    | Enqueue(f: nat) | CountIn | SetMode       // enable_signaling, once the fence tested as not back
    | Splice | Test | CountPoll | Delete | CountOff | Signal | Put | EndOfList   // the worker's pass
    | Retry | Resplice | SpliceBack | NextTurn  // and what follows it

  predicate Can(d: Driver, e: Step) {
    match e
    case Back(f) => f < |d.fences|
    case Enqueue(f) =>
      f < |d.fences| && d.enqueuer.NoOne? && !d.fences[f].back && d.fences[f].enqueued == 0
    case CountIn => d.enqueuer.Added?
    case SetMode => d.enqueuer.Counted? && d.enqueuer.f < |d.fences|
    case Splice => d.worker.Waiting? && d.enqueuer.NoOne?
    case Test => d.worker.Walking? && d.worker.i < |d.work| && d.work[d.worker.i] < |d.fences|
    case CountPoll => d.worker.Tested? && d.worker.i < |d.work| && d.work[d.worker.i] < |d.fences|
    case Delete => d.worker.Unpolled? && d.worker.i < |d.work|
    case CountOff => d.worker.Deleted?
    case Signal => d.worker.CountedOff? && d.worker.f < |d.fences|
    case Put => d.worker.Signaled? && d.worker.f < |d.fences|
    case EndOfList => d.worker.Walking? && d.worker.i == |d.work|
    case Retry => d.worker.Passed? && d.canFreeze && d.work != []
    case Resplice => d.worker.Passed? && d.canFreeze && d.work == [] && d.queue != []
    case SpliceBack => d.worker.Passed? && d.canFreeze && d.enqueuer.NoOne?
    case NextTurn => d.worker.Passed? && !d.canFreeze
  }

  function Next(d: Driver, e: Step): Driver
    requires Can(d, e)
  {
    match e
    case Back(f) => d.(fences := d.fences[f := d.fences[f].(back := true)])
    case Enqueue(f) =>
      d.(fences := d.fences[f := d.fences[f].(enqueued := 1)], queue := d.queue + [f], enqueuer := Added(f))
    case CountIn => d.(fenceCount := d.fenceCount + 1, enqueuer := Counted(d.enqueuer.f))
    case SetMode =>
      var f := d.enqueuer.f;
      var mode := if d.fences[f].wantsInterrupt then Interrupt else Poll;
      d.(fences := d.fences[f := d.fences[f].(mode := mode)],
         pollCount := d.pollCount + (if mode == Poll then 1 else 0), enqueuer := NoOne)
    case Splice => d.(work := d.queue + d.work, queue := [], worker := Walking(0))
    case Test =>
      var i := d.worker.i;
      d.(worker := if d.fences[d.work[i]].back then Tested(i) else Walking(i + 1))
    case CountPoll =>
      var i := d.worker.i;
      d.(pollCount := d.pollCount - (if d.fences[d.work[i]].mode == Poll then 1 else 0), worker := Unpolled(i))
    case Delete =>
      var i := d.worker.i;
      d.(work := d.work[..i] + d.work[i + 1..], worker := Deleted(d.work[i], i))
    case CountOff => d.(fenceCount := d.fenceCount - 1, worker := CountedOff(d.worker.f, d.worker.i))
    case Signal =>
      var f := d.worker.f;
      d.(fences := d.fences[f := d.fences[f].(signals := d.fences[f].signals + 1)], worker := Signaled(f, d.worker.i))
    case Put =>
      var f := d.worker.f;
      d.(fences := d.fences[f := d.fences[f].(puts := d.fences[f].puts + 1)], worker := Walking(d.worker.i))
    case EndOfList => d.(worker := Passed)
    case Retry => d.(worker := Walking(0))
    case Resplice => d.(worker := Waiting)
    case SpliceBack => d.(queue := d.work + d.queue, work := [], worker := Waiting)
    case NextTurn => d.(worker := Waiting)
  }

  // ---------------------------------------------------------------- counting

  /** How many fences of a list are in poll mode. */
  function Polled(fences: seq<Fence>, l: seq<nat>): nat {
    if l == [] then 0
    else (if l[0] < |fences| && fences[l[0]].mode == Poll then 1 else 0) + Polled(fences, l[1..])
  }

  lemma {:induction false} PolledConcat(fences: seq<Fence>, l: seq<nat>, m: seq<nat>)
    ensures Polled(fences, l + m) == Polled(fences, l) + Polled(fences, m)
  {
    if l == [] {
      assert l + m == m;
    } else {
      assert (l + m)[1..] == l[1..] + m;
      PolledConcat(fences, l[1..], m);
    }
  }

  /** Fences outside a list, and changes other than of the mode, do not matter to it. */
  lemma {:induction false} PolledSame(fences: seq<Fence>, gences: seq<Fence>, l: seq<nat>)
    requires |fences| == |gences|
    requires forall f :: f in l && f < |fences| ==> fences[f].mode == gences[f].mode
    ensures Polled(fences, l) == Polled(gences, l)
  {
    if l != [] {
      assert l[0] in l;
      assert forall f :: f in l[1..] ==> f in l;
      PolledSame(fences, gences, l[1..]);
    }
  }

  lemma PolledRemove(fences: seq<Fence>, l: seq<nat>, i: nat)
    requires i < |l|
    ensures Polled(fences, l) == Polled(fences, l[..i] + l[i + 1..]) + Polled(fences, [l[i]])
  {
    assert l == l[..i] + ([l[i]] + l[i + 1..]);
    PolledConcat(fences, l[..i], [l[i]] + l[i + 1..]);
    PolledConcat(fences, [l[i]], l[i + 1..]);
    PolledConcat(fences, l[..i], l[i + 1..]);
  }

  // ---------------------------------------------------------------- invariant

  predicate Distinct(l: seq<nat>) { forall i, j :: 0 <= i < j < |l| ==> l[i] != l[j] }

  /** The fence the worker has taken off its list and not finished with. */
  predicate InHand(d: Driver, f: nat) {
    (d.worker.Deleted? || d.worker.CountedOff? || d.worker.Signaled?) && d.worker.f == f
  }

  predicate Listed(d: Driver, f: nat) { f in d.queue || f in d.work }

  predicate Lists(d: Driver) {
    && Distinct(d.queue) && Distinct(d.work)
    && (forall f :: f in d.queue ==> f < |d.fences| && f !in d.work && !InHand(d, f))
    && (forall f :: f in d.work ==> f < |d.fences| && !InHand(d, f))
    && (d.worker.Deleted? || d.worker.CountedOff? || d.worker.Signaled? ==>
          d.worker.f < |d.fences| && d.worker.i <= |d.work| && d.fences[d.worker.f].back)
    && (d.worker.Walking? ==> d.worker.i <= |d.work|)
    && (d.worker.Tested? || d.worker.Unpolled? ==> d.worker.i < |d.work| && d.work[d.worker.i] < |d.fences| && d.fences[d.work[d.worker.i]].back)
    && (!d.enqueuer.NoOne? ==> d.queue != [] && d.queue[|d.queue| - 1] == d.enqueuer.f)
  }

  /** Where a fence is in its life. */
  predicate LifeOk(d: Driver, f: nat)
    requires f < |d.fences|
  {
    var x := d.fences[f];
    && (x.enqueued == 0 ==> !Listed(d, f) && !InHand(d, f) && x.signals == 0 && x.puts == 0)
    && x.enqueued <= 1
    && (Listed(d, f) ==> x.signals == 0 && x.puts == 0)
    && (Listed(d, f) && d.enqueuer == NoOne ==> x.mode == if x.wantsInterrupt then Interrupt else Poll)
    && (Listed(d, f) && d.enqueuer != NoOne && d.enqueuer.f != f ==> x.mode == if x.wantsInterrupt then Interrupt else Poll)
    && (x.enqueued == 0 || (d.enqueuer != NoOne && d.enqueuer.f == f) ==> x.mode == Unset)
    && (InHand(d, f) ==> x.puts == 0 && x.signals == if d.worker.Signaled? then 1 else 0)
    && (x.enqueued == 1 && !Listed(d, f) && !InHand(d, f) ==> x.signals == 1 && x.puts == 1)
    && (x.signals > 0 ==> x.back)
  }

  predicate Lives(d: Driver) { forall f :: 0 <= f < |d.fences| ==> LifeOk(d, f) }

  predicate Counts(d: Driver) {
    && d.fenceCount == |d.queue| + |d.work|
         - (if d.enqueuer.Added? then 1 else 0) + (if d.worker.Deleted? then 1 else 0)
    && d.pollCount == Polled(d.fences, d.queue) + Polled(d.fences, d.work)
         - (if d.worker.Unpolled? && d.worker.i < |d.work| then Polled(d.fences, [d.work[d.worker.i]]) else 0)
  }

  predicate Inv(d: Driver) { Lists(d) && Lives(d) && Counts(d) }

  lemma DistinctConcat(l: seq<nat>, m: seq<nat>)
    requires Distinct(l) && Distinct(m) && forall f :: f in l ==> f !in m
    ensures Distinct(l + m)
  {
    forall i, j | 0 <= i < j < |l + m| ensures (l + m)[i] != (l + m)[j] {
      if i < |l| <= j {
        assert l[i] in l && m[j - |l|] in m;
      }
    }
  }

  lemma DistinctRemove(l: seq<nat>, i: nat)
    requires Distinct(l) && i < |l|
    ensures Distinct(l[..i] + l[i + 1..]) && l[i] !in l[..i] + l[i + 1..]
    ensures forall f :: f in l[..i] + l[i + 1..] ==> f in l
  {
    var m := l[..i] + l[i + 1..];
    assert forall k :: 0 <= k < |m| ==> m[k] == l[if k < i then k else k + 1];
  }

  lemma SpliceLists(d: Driver, e: Step)
    requires Lists(d) && (e.Splice? || e.SpliceBack?) && Can(d, e)
    ensures Lists(Next(d, e))
  {
    DistinctConcat(d.queue, d.work);
    DistinctConcat(d.work, d.queue);
  }

  lemma DeleteLists(d: Driver)
    requires Lists(d) && Can(d, Delete)
    ensures Lists(Next(d, Delete))
  {
    var t := Next(d, Delete);
    DistinctRemove(d.work, d.worker.i);
    assert t.work == d.work[..d.worker.i] + d.work[d.worker.i + 1..];
    assert t.worker.f !in t.work && t.worker.f in d.work;
    forall f | f in t.work ensures f < |t.fences| && !InHand(t, f) { assert f in d.work; }
  }

  lemma EnqueuerLists(d: Driver, e: Step)
    requires Lists(d) && Lives(d) && Can(d, e) && (e.Enqueue? || e.CountIn? || e.SetMode?)
    ensures Lists(Next(d, e))
  {
    if e.Enqueue? { assert LifeOk(d, e.f); }
  }

  lemma StepLists(d: Driver, e: Step)
    requires Lists(d) && Lives(d) && Can(d, e)
    ensures Lists(Next(d, e))
  {
    match e
    case Enqueue(_) | CountIn | SetMode => EnqueuerLists(d, e);
    case Delete => DeleteLists(d);
    case Splice | SpliceBack => SpliceLists(d, e);
    case Test => assert d.work[d.worker.i] in d.work;
    case _ =>
  }

  lemma DeleteLife(d: Driver, f: nat)
    requires Lists(d) && Can(d, Delete) && f < |d.fences| && LifeOk(d, f)
    ensures LifeOk(Next(d, Delete), f)
  {
    var t, i := Next(d, Delete), d.worker.i;
    assert d.work == d.work[..i] + [d.work[i]] + d.work[i + 1..];
    DistinctRemove(d.work, i);
    assert f in d.work <==> f in t.work || f == d.work[i];
  }

  lemma StepLife(d: Driver, e: Step, f: nat)
    requires Lists(d) && Can(d, e) && f < |d.fences| && LifeOk(d, f)
    ensures f < |Next(d, e).fences| && LifeOk(Next(d, e), f)
  {
    if e.Delete? { DeleteLife(d, f); }
  }

  lemma StepLives(d: Driver, e: Step)
    requires Lists(d) && Lives(d) && Can(d, e)
    ensures Lives(Next(d, e))
  {
    forall f | 0 <= f < |d.fences| ensures f < |Next(d, e).fences| && LifeOk(Next(d, e), f) { StepLife(d, e, f); }
  }

  /** The poll members of both lists are counted the same before and after a step that leaves their modes alone. */
  lemma PolledKept(d: Driver, gences: seq<Fence>)
    requires |d.fences| == |gences|
    requires forall f :: 0 <= f < |d.fences| ==> d.fences[f].mode == gences[f].mode
    ensures Polled(d.fences, d.queue) == Polled(gences, d.queue)
    ensures Polled(d.fences, d.work) == Polled(gences, d.work)
    ensures d.worker.Unpolled? && d.worker.i < |d.work| ==>
      Polled(d.fences, [d.work[d.worker.i]]) == Polled(gences, [d.work[d.worker.i]])
  {
    PolledSame(d.fences, gences, d.queue);
    PolledSame(d.fences, gences, d.work);
    if d.worker.Unpolled? && d.worker.i < |d.work| { PolledSame(d.fences, gences, [d.work[d.worker.i]]); }
  }

  lemma EnqueueCounts(d: Driver, f: nat)
    requires Inv(d) && Can(d, Enqueue(f))
    ensures Counts(Next(d, Enqueue(f)))
  {
    var t := Next(d, Enqueue(f));
    assert LifeOk(d, f);
    PolledKept(d, t.fences);
    PolledConcat(t.fences, d.queue, [f]);
    assert Polled(t.fences, [f]) == 0;
  }

  /** The fence whose mode is set stands at the tail of the queue, and nowhere else. */
  lemma SetModePolled(d: Driver, t: Driver)
    requires Inv(d) && Can(d, SetMode) && t == Next(d, SetMode)
    ensures Polled(t.fences, t.queue) == Polled(d.fences, d.queue) + t.pollCount - d.pollCount
  {
    var f, rest := d.enqueuer.f, d.queue[..|d.queue| - 1];
    assert LifeOk(d, f) && d.queue == rest + [f];
    PolledConcat(d.fences, rest, [f]);
    PolledConcat(t.fences, rest, [f]);
    assert forall k :: 0 <= k < |rest| ==> rest[k] == d.queue[k];
    PolledSame(d.fences, t.fences, rest);
  }

  lemma SetModeCounts(d: Driver)
    requires Inv(d) && Can(d, SetMode)
    ensures Counts(Next(d, SetMode))
  {
    var t := Next(d, SetMode);
    SetModePolled(d, t);
    PolledSame(d.fences, t.fences, d.work);
    if d.worker.Unpolled? { PolledSame(d.fences, t.fences, [d.work[d.worker.i]]); }
  }

  lemma ListCounts(d: Driver, e: Step)
    requires Inv(d) && Can(d, e) && (e.Splice? || e.SpliceBack? || e.Delete? || e.CountPoll?)
    ensures Counts(Next(d, e))
  {
    match e
    case Splice => PolledConcat(d.fences, d.queue, d.work);
    case SpliceBack => PolledConcat(d.fences, d.work, d.queue);
    case Delete => PolledRemove(d.fences, d.work, d.worker.i);
    case CountPoll => assert d.work[d.worker.i] in d.work;
  }

  lemma FenceCounts(d: Driver, e: Step)
    requires Inv(d) && Can(d, e) && (e.Back? || e.Signal? || e.Put?)
    ensures Counts(Next(d, e))
  {
    PolledKept(d, Next(d, e).fences);
  }

  lemma StepCounts(d: Driver, e: Step)
    requires Inv(d) && Can(d, e)
    ensures Counts(Next(d, e))
  {
    match e
    case Back(_) | Signal | Put => FenceCounts(d, e);
    case Enqueue(f) => EnqueueCounts(d, f);
    case SetMode => SetModeCounts(d);
    case Splice | SpliceBack | Delete | CountPoll => ListCounts(d, e);
    case _ =>
  }

  lemma StepInv(d: Driver, e: Step)
    requires Inv(d) && Can(d, e)
    ensures Inv(Next(d, e))
  {
    StepLists(d, e);
    StepLives(d, e);
    StepCounts(d, e);
  }

  // ---------------------------------------------------------------- whole runs

  /** A driver whose fences are new. */
  predicate Fresh(d: Driver) {
    && d.queue == [] && d.work == [] && d.fenceCount == 0 && d.pollCount == 0
    && d.enqueuer == NoOne && d.worker == Waiting
    && forall f :: 0 <= f < |d.fences| ==>
      d.fences[f].mode == Unset && d.fences[f].enqueued == 0 && d.fences[f].signals == 0 && d.fences[f].puts == 0
  }

  /** States and the steps between them. */
  predicate IsPath(ds: seq<Driver>, es: seq<Step>) {
    |ds| == |es| + 1 && forall k :: 0 <= k < |es| ==> Can(ds[k], es[k]) && ds[k + 1] == Next(ds[k], es[k])
  }

  predicate IsRun(run: seq<Driver>, es: seq<Step>) { IsPath(run, es) && Fresh(run[0]) }

  lemma {:induction false} PathInv(ds: seq<Driver>, es: seq<Step>, k: nat)
    requires IsPath(ds, es) && k < |ds| && Inv(ds[0])
    ensures Inv(ds[k])
  {
    if k > 0 {
      PathInv(ds, es, k - 1);
      StepInv(ds[k - 1], es[k - 1]);
    }
  }

  lemma RunInv(run: seq<Driver>, es: seq<Step>, k: nat)
    requires IsRun(run, es) && k < |run|
    ensures Inv(run[k])
  {
    PathInv(run, es, k);
  }

  /** In every run the counters are the lists' lengths and poll members, but for the one fence whose counter is still to follow. */
  lemma CountersMatchLists(run: seq<Driver>, es: seq<Step>, k: nat)
    requires IsRun(run, es) && k < |run|
    ensures var d := run[k];
      && -1 <= d.fenceCount - (|d.queue| + |d.work|) <= 1
      && (!d.enqueuer.Added? && !d.worker.Deleted? ==> d.fenceCount == |d.queue| + |d.work|)
      && (!d.worker.Unpolled? ==> d.pollCount == Polled(d.fences, d.queue + d.work))
      && d.fenceCount >= 0 && d.pollCount >= 0
  {
    RunInv(run, es, k);
    var d := run[k];
    PolledConcat(d.fences, d.queue, d.work);
    if d.worker.Unpolled? { PolledRemove(d.fences, d.work, d.worker.i); }
  }

  /** In every run an enqueued fence is signaled at most once and put at most once, in this order, and only after the hardware passed it. */
  lemma SignaledOnceWhenBack(run: seq<Driver>, es: seq<Step>, k: nat, f: nat)
    requires IsRun(run, es) && k < |run| && f < |run[k].fences|
    ensures var x := run[k].fences[f];
      && x.puts <= x.signals <= x.enqueued <= 1
      && (x.signals == 1 ==> x.back)
  {
    RunInv(run, es, k);
    assert LifeOk(run[k], f);
  }

  /** A fence is signaled by a step only right after the worker's test found it back. */
  lemma SignalFollowsTest(run: seq<Driver>, es: seq<Step>, k: nat)
    requires IsRun(run, es) && k < |es| && es[k].Signal?
    ensures run[k].worker.f < |run[k].fences| && run[k].fences[run[k].worker.f].back
    ensures run[k].fences[run[k].worker.f].signals == 0 && !Listed(run[k], run[k].worker.f)
  {
    RunInv(run, es, k);
    assert LifeOk(run[k], run[k].worker.f);
  }

  /** Nothing is lost: an enqueued fence is on a list, in the worker's hand, or signaled and put. */
  lemma NothingLost(run: seq<Driver>, es: seq<Step>, k: nat, f: nat)
    requires IsRun(run, es) && k < |run| && f < |run[k].fences| && run[k].fences[f].enqueued == 1
    ensures var d := run[k];
      Listed(d, f) || InHand(d, f) || (d.fences[f].signals == 1 && d.fences[f].puts == 1)
    ensures run[k].queue == [] && run[k].work == [] && (run[k].worker.Waiting? || run[k].worker.Passed?) ==>
      run[k].fences[f].signals == 1 && run[k].fences[f].puts == 1 && run[k].fenceCount == 0 && run[k].pollCount == 0
  {
    RunInv(run, es, k);
    assert LifeOk(run[k], f);
  }

  // ---------------------------------------------------------------- one pass of the worker

  predicate InPass(e: Step) {
    e.Test? || e.CountPoll? || e.Delete? || e.CountOff? || e.Signal? || e.Put? || e.EndOfList?
  }

  predicate ByOthers(e: Step) { e.Back? || e.Enqueue? || e.CountIn? || e.SetMode? }

  /** A bound on the steps the worker still has to take to the end of its list. */
  function PassWork(d: Driver): int {
    match d.worker
    case Walking(i) => 6 * (|d.work| - i) + 1
    case Tested(i) => 6 * (|d.work| - i)
    case Unpolled(i) => 6 * (|d.work| - i) - 1
    case Deleted(_, i) => 6 * (|d.work| - i) + 4
    case CountedOff(_, i) => 6 * (|d.work| - i) + 3
    case Signaled(_, i) => 6 * (|d.work| - i) + 2
    case _ => 0
  }

  lemma WorkLeft(d: Driver)
    requires Lists(d)
    ensures PassWork(d) >= 0
  {
  }

  lemma StepPasses(d: Driver, e: Step)
    requires Lists(d) && Can(d, e)
    ensures InPass(e) ==> PassWork(Next(d, e)) < PassWork(d)
    ensures ByOthers(e) ==> PassWork(Next(d, e)) == PassWork(d)
  {
  }

  /** Within a pass the worker is never stuck. */
  lemma PassMoves(d: Driver)
    requires Lists(d) && !d.worker.Waiting? && !d.worker.Passed?
    ensures exists e :: InPass(e) && Can(d, e)
  {
    match d.worker
    case Walking(i) =>
      if i < |d.work| { assert d.work[i] in d.work && Can(d, Test); } else { assert Can(d, EndOfList); }
    case Tested(_) => assert Can(d, CountPoll);
    case Unpolled(_) => assert Can(d, Delete);
    case Deleted(_, _) => assert Can(d, CountOff);
    case CountedOff(_, _) => assert Can(d, Signal);
    case Signaled(_, _) => assert Can(d, Put);
  }

  /** The index the worker's pass has come to: the fences before it were tested and found not back. */
  function Pos(d: Driver): nat {
    match d.worker
    case Waiting => 0
    case Passed => |d.work|
    case Walking(i) => i
    case Tested(i) => i
    case Unpolled(i) => i
    case Deleted(_, i) => i
    case CountedOff(_, i) => i
    case Signaled(_, i) => i
  }

  /** A fence that is back and was taken over from the queue: the pass has finished with it, or it is still ahead. */
  predicate Due(d: Driver, f: nat) {
    && f < |d.fences| && d.fences[f].enqueued == 1 && d.fences[f].back && f !in d.queue
    && Pos(d) <= |d.work| && f !in d.work[..Pos(d)]
  }

  lemma StepDue(d: Driver, e: Step, f: nat)
    requires Inv(d) && Can(d, e) && Due(d, f) && (InPass(e) || ByOthers(e))
    ensures Due(Next(d, e), f)
  {
    var t := Next(d, e);
    if e.Test? && t.worker.Walking? { assert t.work[..Pos(t)] == d.work[..Pos(d)] + [d.work[Pos(d)]]; }
    if e.Delete? { assert t.work[..Pos(t)] == d.work[..Pos(d)]; }
  }

  function PassSteps(es: seq<Step>): nat {
    if es == [] then 0 else PassSteps(es[..|es| - 1]) + if InPass(es[|es| - 1]) then 1 else 0
  }

  lemma {:induction false} PathWorks(ds: seq<Driver>, es: seq<Step>)
    requires IsPath(ds, es) && Inv(ds[0]) && forall e :: e in es ==> InPass(e) || ByOthers(e)
    ensures Inv(ds[|es|]) && PassSteps(es) + PassWork(ds[|es|]) <= PassWork(ds[0])
    ensures !ds[0].worker.Waiting? ==> !ds[|es|].worker.Waiting?
  {
    PathInv(ds, es, |es|);
    if es != [] {
      var n := |es| - 1;
      assert IsPath(ds[..n + 1], es[..n]);
      PathWorks(ds[..n + 1], es[..n]);
      assert es[n] in es;
      StepPasses(ds[n], es[n]);
    }
  }

  lemma {:induction false} PathDue(ds: seq<Driver>, es: seq<Step>, f: nat)
    requires IsPath(ds, es) && Inv(ds[0]) && Due(ds[0], f) && forall e :: e in es ==> InPass(e) || ByOthers(e)
    ensures Due(ds[|es|], f)
  {
    if es != [] {
      var n := |es| - 1;
      assert IsPath(ds[..n + 1], es[..n]);
      PathDue(ds[..n + 1], es[..n], f);
      PathInv(ds, es, n);
      assert es[n] in es;
      StepDue(ds[n], es[n], f);
    }
  }

  /** A pass: what the worker does after it took the queue over in state `d`, or began again, with the steps of others between. */
  ghost predicate IsPass(d: Driver, begin: Step, ds: seq<Driver>, es: seq<Step>) {
    && Inv(d) && (begin.Splice? || begin.Retry?) && Can(d, begin)
    && IsPath(ds, es) && ds[0] == Next(d, begin) && forall e :: e in es ==> InPass(e) || ByOthers(e)
  }

  /** Until the worker is at the end of its list it can go on. */
  lemma PassGoesOn(d: Driver, begin: Step, ds: seq<Driver>, es: seq<Step>)
    requires IsPass(d, begin, ds, es)
    ensures ds[|es|].worker.Passed? || exists e :: InPass(e) && Can(ds[|es|], e)
  {
    StepInv(d, begin);
    PathWorks(ds, es);
    if !ds[|es|].worker.Passed? { PassMoves(ds[|es|]); }
  }

  /** It takes the worker at most six steps a fence and one. */
  lemma PassEnds(d: Driver, begin: Step, ds: seq<Driver>, es: seq<Step>)
    requires IsPass(d, begin, ds, es)
    ensures PassSteps(es) <= 6 * (|d.queue| + |d.work|) + 1
  {
    StepInv(d, begin);
    PathWorks(ds, es);
    WorkLeft(ds[|es|]);
  }

  predicate Done(d: Driver, f: nat) { f < |d.fences| && d.fences[f].signals == 1 && d.fences[f].puts == 1 }

  /**
   At its end it has signaled and put, once, every fence that was back when it began and on the worker's list
   or taken over from the queue, whatever the others on its list are waiting for.
  */
  lemma PassSignalsAll(d: Driver, begin: Step, ds: seq<Driver>, es: seq<Step>, f: nat)
    requires IsPass(d, begin, ds, es) && ds[|es|].worker.Passed?
    requires f in d.work || (f in d.queue && begin.Splice?)
    requires f < |d.fences| && d.fences[f].back
    ensures Done(ds[|es|], f)
  {
    assert LifeOk(d, f);
    StepInv(d, begin);
    PathDue(ds, es, f);
    PathInv(ds, es, |es|);
    var t := ds[|es|];
    assert t.work[..|t.work|] == t.work;
    assert LifeOk(t, f);
  }
}
