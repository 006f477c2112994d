/**
 The recursive mutex: an inner lock, and an owner and a count beside it that are read and
 written without any other protection. Every read and every write is a step of its own.
*/
module RecursiveMutex {
  import opened Common

  /** Where a thread stands in lock, trylock or unlock. */
  datatype Pc =
    | Out                          // between calls
    | WantInner(try: bool)         // not the owner, about to take the inner lock
    | WriteOwner | WriteCount      // inner lock taken
    | Recount                      // the owner again, about to read the count
    | WriteMore(read: int)         // about to write the count it read, plus one
    | WriteLess(read: int)         // unlocking: about to write the count it read, minus one
    | ClearOwner | ReleaseInner    // the count reached zero

  /** `depth` is how many calls of the thread have locked and not yet unlocked. */
  datatype Thread = Thread(pc: Pc, depth: nat)

  datatype Mutex = Mutex(owner: Option<nat>, count: int, inner: Option<nat>, threads: seq<Thread>)

  function Create(n: nat): Mutex { Mutex(None, 0, None, seq(n, i => Thread(Out, 0))) }

  datatype Step =
    | TestOwner(t: nat, try: bool) | TakeInner(t: nat) | FailTry(t: nat)
    | SetOwner(t: nat) | SetCount(t: nat)
    | ReadCount(t: nat) | Increment(t: nat)
    | Unlock(t: nat) | Decrement(t: nat) | Disown(t: nat) | Release(t: nat)

  predicate Can(m: Mutex, e: Step) {
    e.t < |m.threads| &&
    var th := m.threads[e.t];
    match e
    case TestOwner(_, _) => th.pc.Out?
    case TakeInner(_) => th.pc.WantInner? && m.inner.None?
    case FailTry(_) => th.pc == WantInner(true) && m.inner.Some?
    case SetOwner(_) => th.pc.WriteOwner?
    case SetCount(_) => th.pc.WriteCount?
    case ReadCount(_) => th.pc.Recount?
    case Increment(_) => th.pc.WriteMore?
    case Unlock(_) => th.pc.Out? && th.depth > 0      // only a thread that holds the mutex unlocks it
    case Decrement(_) => th.pc.WriteLess?
    case Disown(_) => th.pc.ClearOwner?
    case Release(_) => th.pc.ReleaseInner?
  }

  function Next(m: Mutex, e: Step): Mutex
    requires Can(m, e)
  {
    var th := m.threads[e.t];
    match e
    case TestOwner(t, try) => Set(m, t, Thread(if m.owner == Some(t) then Recount else WantInner(try), th.depth))
    case TakeInner(t) => Set(m, t, Thread(WriteOwner, th.depth)).(inner := Some(t))
    case FailTry(t) => Set(m, t, Thread(Out, th.depth))
    case SetOwner(t) => Set(m, t, Thread(WriteCount, th.depth)).(owner := Some(t))
    case SetCount(t) => Set(m, t, Thread(Out, 1)).(count := 1)
    case ReadCount(t) => Set(m, t, Thread(WriteMore(m.count), th.depth))
    case Increment(t) => Set(m, t, Thread(Out, th.depth + 1)).(count := th.pc.read + 1)
    case Unlock(t) => Set(m, t, Thread(WriteLess(m.count), th.depth))
    case Decrement(t) =>
      Set(m, t, if th.pc.read - 1 == 0 then Thread(ClearOwner, th.depth)
                else Thread(Out, if th.depth > 0 then th.depth - 1 else 0)).(count := th.pc.read - 1)
    case Disown(t) => Set(m, t, Thread(ReleaseInner, th.depth)).(owner := None)
    case Release(t) => Set(m, t, Thread(Out, 0)).(inner := None)
  }

  function Set(m: Mutex, t: nat, th: Thread): Mutex
    requires t < |m.threads|
  {
    m.(threads := m.threads[t := th])
  }

  // ---------------------------------------------------------------- invariant

  /** The thread is past the inner lock. */
  predicate Inside(th: Thread) { th.depth > 0 || !(th.pc.Out? || th.pc.WantInner?) }

  /** What the shared fields are while thread `t` is inside, according to where it stands. */
  predicate Agrees(m: Mutex, t: nat)
    requires t < |m.threads|
  {
    var th := m.threads[t];
    match th.pc
    case Out | Recount => m.owner == Some(t) && m.count == th.depth > 0
    case WriteMore(v) => m.owner == Some(t) && v == m.count == th.depth > 0
    case WriteLess(v) => m.owner == Some(t) && v == m.count == th.depth > 0
    case WantInner(_) => false
    case WriteOwner => m.owner.None? && m.count == 0 && th.depth == 0
    case WriteCount => m.owner == Some(t) && m.count == 0 && th.depth == 0
    case ClearOwner => m.owner == Some(t) && m.count == 0 && th.depth == 1
    case ReleaseInner => m.owner.None? && m.count == 0 && th.depth == 1
  }

  predicate Inv(m: Mutex) {
    && (forall t :: 0 <= t < |m.threads| ==> (Inside(m.threads[t]) <==> m.inner == Some(t)))
    && (m.inner.None? ==> m.owner.None? && m.count == 0)
    && (m.inner.Some? ==> m.inner.value < |m.threads| && Agrees(m, m.inner.value))
  }

  lemma StepInv(m: Mutex, e: Step)
    requires Inv(m) && Can(m, e)
    ensures Inv(Next(m, e))
  {
    assert Inside(m.threads[e.t]) <==> m.inner == Some(e.t);
  }

  predicate IsRun(run: seq<Mutex>, es: seq<Step>, n: nat) {
    && |run| == |es| + 1 && run[0] == Create(n)
    && forall k :: 0 <= k < |es| ==> Can(run[k], es[k]) && run[k + 1] == Next(run[k], es[k])
  }

  lemma {:induction false} RunInv(run: seq<Mutex>, es: seq<Step>, n: nat, k: nat)
    requires IsRun(run, es, n) && k < |run|
    ensures Inv(run[k]) && |run[k].threads| == n
  {
    if k > 0 {
      RunInv(run, es, n, k - 1);
      StepInv(run[k - 1], es[k - 1]);
    }
  }

  // ---------------------------------------------------------------- what the mutex promises

  /** In every run at most one thread is inside. */
  lemma MutualExclusion(run: seq<Mutex>, es: seq<Step>, n: nat, k: nat, t: nat, u: nat)
    requires IsRun(run, es, n) && k < |run| && t < |run[k].threads| && u < |run[k].threads|
    requires Inside(run[k].threads[t]) && Inside(run[k].threads[u])
    ensures t == u
  {
    RunInv(run, es, n, k);
  }

  /** The test of the owner, made with no lock held, answers whether the thread already holds the mutex. */
  lemma OwnerTestSound(run: seq<Mutex>, es: seq<Step>, n: nat, k: nat)
    requires IsRun(run, es, n) && k < |es| && es[k].TestOwner?
    ensures var t := es[k].t; run[k].owner == Some(t) <==> run[k].threads[t].depth > 0
  {
    RunInv(run, es, n, k);
    var m, t := run[k], es[k].t;
    assert Inside(m.threads[t]) <==> m.inner == Some(t);
  }

  /** Only the thread that holds the inner lock writes the owner, the count or the lock. */
  lemma OnlyHolderWrites(run: seq<Mutex>, es: seq<Step>, n: nat, k: nat)
    requires IsRun(run, es, n) && k < |es|
    requires run[k + 1].owner != run[k].owner || run[k + 1].count != run[k].count
    ensures run[k].inner == Some(es[k].t) && run[k + 1].inner == Some(es[k].t)
  {
    RunInv(run, es, n, k);
    var m, t := run[k], es[k].t;
    assert Inside(m.threads[t]) <==> m.inner == Some(t);
  }

  /** Between calls, the count is the nesting depth of the thread that holds the mutex, and zero if none does. */
  lemma CountIsDepth(run: seq<Mutex>, es: seq<Step>, n: nat, k: nat, t: nat)
    requires IsRun(run, es, n) && k < |run| && t < |run[k].threads| && run[k].threads[t].pc.Out?
    ensures run[k].threads[t].depth > 0 ==> run[k].owner == Some(t) && run[k].count == run[k].threads[t].depth
    ensures (forall u :: 0 <= u < |run[k].threads| ==> run[k].threads[u] == Thread(Out, 0)) ==>
              run[k].owner.None? && run[k].inner.None? && run[k].count == 0
  {
    RunInv(run, es, n, k);
    assert Inside(run[k].threads[t]) <==> run[k].inner == Some(t);
  }

  /** A trylock fails only while another thread is inside; a nested one never does. */
  lemma TryFailsOnlyForOthers(run: seq<Mutex>, es: seq<Step>, n: nat, k: nat)
    requires IsRun(run, es, n) && k < |es| && es[k].FailTry?
    ensures run[k].threads[es[k].t].depth == 0
    ensures exists u :: 0 <= u < |run[k].threads| && u != es[k].t && Inside(run[k].threads[u])
  {
    RunInv(run, es, n, k);
    var m, t := run[k], es[k].t;
    assert Inside(m.threads[t]) <==> m.inner == Some(t);
    assert Inside(m.threads[m.inner.value]);
  }

  /** No deadlock of its own: unless every thread is between calls, some thread can take a step of its call. */
  lemma SomeoneMoves(m: Mutex, t: nat)
    requires Inv(m) && t < |m.threads| && !m.threads[t].pc.Out?
    ensures (exists e :: Can(m, e) && e.t == t) || (exists u: nat :: u < |m.threads| && u != t && Inside(m.threads[u]))
  {
    assert Inside(m.threads[t]) <==> m.inner == Some(t);
    match m.threads[t].pc
    case WantInner(_) =>
      if m.inner.None? { assert Can(m, TakeInner(t)); } else { assert Inside(m.threads[m.inner.value]); }
    case WriteOwner => assert Can(m, SetOwner(t));
    case WriteCount => assert Can(m, SetCount(t));
    case Recount => assert Can(m, ReadCount(t));
    case WriteMore(_) => assert Can(m, Increment(t));
    case WriteLess(_) => assert Can(m, Decrement(t));
    case ClearOwner => assert Can(m, Disown(t));
    case ReleaseInner => assert Can(m, Release(t));
  }
}
