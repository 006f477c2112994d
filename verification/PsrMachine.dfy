/**
 The panel self refresh (PSR) controller as a state machine over its atomic steps.

 The steps of acquire, release and the timer may fall between any two steps of the thread that
 holds the PSR mutex; that thread's walk from state to state is cut at its hardware step and at
 its exchange of the request word. The class in PsrController refines this machine.
*/
module PsrMachine {
  /** The panel states, in the order of the driver's numbering. */
  datatype State = Disabled | Inactive | Exit | Transition | Active | EphyOff | IgaOff | DclkOff

  function Depth(s: State): nat {
    match s
    case Disabled => 0 case Inactive => 1 case Exit => 2 case Transition => 3
    case Active => 4 case EphyOff => 5 case IgaOff => 6 case DclkOff => 7
  }

  /** The request word: three bits, or'ed in by any thread and exchanged with zero by the walker. */
  datatype Request = Request(inactive: bool, active: bool, leqIgaOff: bool) {
    function Or(that: Request): Request {
      Request(inactive || that.inactive, active || that.active, leqIgaOff || that.leqIgaOff)
    }
  }

  const NONE := Request(false, false, false)
  const TO_INACTIVE := Request(true, false, false)
  const TO_ACTIVE := Request(false, true, false)
  const TO_LEQ_IGA_OFF := Request(false, false, true)

  const ENABLE_REF: nat := 0
  const FLIP_REF: nat := 1
  const CURSOR_REF: nat := 2
  const VBLANK_REF: nat := 5
  const MAX_REF: nat := 6

  const ACTIVE_FAIL_THRESHOLD: nat := 5

  /** Where the holder of the PSR mutex stands. */
  datatype Mode =
    | Idle                          // nobody holds the mutex
    | Testing(dst: State)           // at the head of the walking loop
    | Fetching(dst: State)          // a step was taken, the request word not yet read
    | Recovering(reenable: bool)    // disabled, about to be enabled again (or not)

  datatype Psr = Psr(
    enabled: bool, state: State, refs: set<nat>, pending: Request,
    timer: bool, fails: nat, mode: Mode)

  const INIT := Psr(false, Disabled, {}, NONE, false, 0, Idle)

  datatype Status = Ok | ToActiveFail | ToInactiveFail | ToActiveCritical

  // ---------------------------------------------------------------- effects

  /** The state a request word asks for, INACTIVE before LEQ_IGA_OFF before ACTIVE. */
  function Target(request: Request, state: State): (dst: State)
    requires request != NONE
  {
    if request.inactive then Inactive
    else if request.leqIgaOff then
      if Depth(state) <= Depth(IgaOff) then state else IgaOff
    else DclkOff
  }

  predicate RaisesRequest(refs: set<nat>, r: nat) {
    refs == {} || (refs == {VBLANK_REF} && r != VBLANK_REF)
  }

  function AfterAcquire(s: Psr, r: nat): Psr {
    if !s.enabled || r >= MAX_REF then s
    else
      var held := s.(refs := s.refs + {r});
      if !RaisesRequest(s.refs, r) then held
      else held.(timer := false,
                 pending := s.pending.Or(if r == VBLANK_REF then TO_LEQ_IGA_OFF else TO_INACTIVE))
  }

  function AfterRelease(s: Psr, r: nat): Psr {
    if !s.enabled || r >= MAX_REF then s
    else s.(refs := s.refs - {r}, timer := s.timer || s.refs == {r})
  }

  function AfterTimer(s: Psr): Psr {
    s.(timer := false, pending := if s.enabled then s.pending.Or(TO_ACTIVE) else s.pending)
  }

  function AfterDisable(s: Psr): Psr { s.(enabled := false, state := Disabled) }

  function AfterEnable(s: Psr, ok: bool): Psr {
    if s.state == Disabled && ok then s.(enabled := true, state := Inactive) else s
  }

  /** One step of the walk. `ok` is the outcome of the retry loop, where the step has one. */
  function AfterStep(s: Psr, deeper: bool, ok: bool): (Psr, Status) {
    if deeper then
      match s.state
      case Inactive => (s.(state := Transition), Ok)
      case Transition =>
        if ok then (s.(state := Active, fails := if s.fails > 0 then s.fails - 1 else 0), Ok)
        else (s.(fails := s.fails + 1),
              if s.fails + 1 >= ACTIVE_FAIL_THRESHOLD then ToActiveCritical else ToActiveFail)
      case Active => (s.(state := EphyOff), Ok)
      case EphyOff => (s.(state := IgaOff), Ok)
      case IgaOff => (s.(state := DclkOff), Ok)
      case _ => (s, Ok)
    else
      match s.state
      case DclkOff => (s.(state := IgaOff), Ok)
      case IgaOff => (s.(state := EphyOff), Ok)
      case EphyOff => (s.(state := Active), Ok)
      case Active | Transition | Exit =>
        if ok then (s.(state := Inactive), Ok) else (s.(state := Exit), ToInactiveFail)
      case _ => (s, Ok)
  }

  // ---------------------------------------------------------------- the machine

  datatype Event =
    // other threads and interrupts
    | Acquire(r: nat) | Release(r: nat) | TimerFires
    // the holder of the mutex
    | Begin | Finish | Walk(ok: bool) | Fetch | Recover(ok: bool)
    | Enable(ok: bool) | Disable | ResetDown

  predicate IsEnvironment(e: Event) { e.Acquire? || e.Release? || e.TimerFires? }

  /** When an event may happen. */
  predicate Can(s: Psr, e: Event) {
    match e
    case Acquire(_) | Release(_) => true
    case TimerFires => s.timer
    case Begin | Enable(_) | Disable | ResetDown => s.mode.Idle?
    case Finish => s.mode.Testing? && s.mode.dst == s.state
    case Walk(_) => s.mode.Testing? && s.mode.dst != s.state
    case Fetch => s.mode.Fetching?
    case Recover(_) => s.mode.Recovering?
  }

  function Next(s: Psr, e: Event): Psr
    requires Can(s, e)
  {
    match e
    case Acquire(r) => AfterAcquire(s, r)
    case Release(r) => AfterRelease(s, r)
    case TimerFires => AfterTimer(s)
    case Begin =>
      var read := s.(pending := NONE);
      if s.enabled && s.pending != NONE && Target(s.pending, s.state) != s.state
      then read.(mode := Testing(Target(s.pending, s.state)))
      else read
    case Finish => s.(mode := Idle)
    case Walk(ok) =>
      var (t, status) := AfterStep(s, Depth(s.mode.dst) > Depth(s.state), ok);
      if status == Ok then t.(mode := Fetching(s.mode.dst))
      else AfterDisable(t).(mode := Recovering(status != ToActiveCritical))
    case Fetch =>
      var dst := if s.pending == NONE then s.mode.dst else Target(s.pending, s.state);
      s.(pending := NONE, mode := Testing(dst))
    case Recover(ok) =>
      (if s.mode.reenable then AfterEnable(s, ok) else s).(mode := Idle)
    case Enable(ok) => AfterEnable(s.(fails := 0), ok)
    case Disable => AfterDisable(s)
    case ResetDown => (if s.enabled then AfterDisable(s) else s).(mode := Recovering(true))
  }

  /** The state after a list of events, the last of them last. */
  function Exec(es: seq<Event>): (s: Psr)
    requires Legal(es)
    decreases |es|, 1
  {
    if es == [] then INIT else Next(Exec(es[..|es| - 1]), es[|es| - 1])
  }

  predicate Legal(es: seq<Event>)
    decreases |es|, 0
  {
    es == [] || (Legal(es[..|es| - 1]) && Can(Exec(es[..|es| - 1]), es[|es| - 1]))
  }

  lemma ExecAppend(es: seq<Event>, e: Event)
    requires Legal(es) && Can(Exec(es), e)
    ensures Legal(es + [e]) && Exec(es + [e]) == Next(Exec(es), e)
  {
    assert (es + [e])[..|es|] == es;
  }

  lemma Append(es: seq<Event>, e: Event) returns (more: seq<Event>)
    requires Legal(es) && Can(Exec(es), e)
    ensures more == es + [e] && Legal(more) && Exec(more) == Next(Exec(es), e)
  {
    more := es + [e];
    ExecAppend(es, e);
  }

  // ---------------------------------------------------------------- invariant

  /** Where the panel will rest if no further request comes. */
  function Bound(s: Psr): State {
    match s.mode
    case Testing(dst) => dst
    case Fetching(dst) => dst
    case _ => s.state
  }

  predicate HoldsDisplay(s: Psr) { exists r :: r in s.refs && r != VBLANK_REF }

  /** The display is lit, or a request that will light it is pending. */
  predicate DisplaySafe(s: Psr) {
    && (s.timer ==> s.refs == {})
    && (HoldsDisplay(s) ==>
          s.pending.inactive || (!s.pending.active && Bound(s) in {Disabled, Inactive}))
    && (VBLANK_REF in s.refs ==>
          || s.pending.inactive || s.pending.leqIgaOff
          || (!s.pending.active && Depth(Bound(s)) <= Depth(IgaOff)))
  }

  /** Target and state of a walk are always such that every step comes nearer. */
  predicate WalkSound(s: Psr) {
    match s.mode
    case Idle => s.state != Exit
    case Testing(dst) =>
      s.enabled && s.state != Exit && (dst in {s.state, Inactive, DclkOff} || (dst == IgaOff && s.state == DclkOff))
    case Fetching(dst) => s.enabled && s.state != Exit && dst in {s.state, Inactive, DclkOff}
    case Recovering(_) => s.state == Disabled
  }

  predicate Inv(s: Psr) {
    && DisplaySafe(s) && WalkSound(s)
    && (s.enabled <==> s.state != Disabled)
    && (forall r :: r in s.refs ==> r < MAX_REF)
    && (HoldsDisplay(s) && s.pending.leqIgaOff ==> s.pending.inactive)
  }

  lemma RefsCases(s: Psr)
    ensures HoldsDisplay(s) || s.refs == {} || s.refs == {VBLANK_REF}
  {
    if !HoldsDisplay(s) && s.refs != {} {
      var r :| r in s.refs;
      assert r == VBLANK_REF;
    }
  }

  lemma EnvironmentKeepsInv(s: Psr, e: Event)
    requires Inv(s) && Can(s, e) && IsEnvironment(e)
    ensures Inv(Next(s, e))
  {
    var t := Next(s, e);
    if e.Acquire? && s.enabled && e.r < MAX_REF {
      assert e.r in t.refs;
      RefsCases(s);
      if HoldsDisplay(s) { var r :| r in s.refs && r != VBLANK_REF; assert r in t.refs; }
    }
    if HoldsDisplay(t) && e.Release? { var r :| r in t.refs && r != VBLANK_REF; assert r in s.refs; }
  }

  lemma HolderKeepsInv(s: Psr, e: Event)
    requires Inv(s) && Can(s, e) && !IsEnvironment(e)
    ensures Inv(Next(s, e))
  {
    var t := Next(s, e);
    assert HoldsDisplay(t) <==> HoldsDisplay(s);
  }

  /** Every state of every run is display-safe and sound for walking. */
  lemma {:induction false} RunKeepsInv(es: seq<Event>)
    requires Legal(es)
    ensures Inv(Exec(es))
  {
    if es != [] {
      var before, e := es[..|es| - 1], es[|es| - 1];
      RunKeepsInv(before);
      if IsEnvironment(e) { EnvironmentKeepsInv(Exec(before), e); } else { HolderKeepsInv(Exec(before), e); }
    }
  }

  /** At rest: a display reference finds the panel lit or a request pending; the resting state is never Exit. */
  lemma RestingStates(es: seq<Event>)
    requires Legal(es) && Exec(es).mode.Idle?
    ensures var s := Exec(es);
      && s.state != Exit && (s.enabled <==> s.state != Disabled)
      && (s.timer ==> s.refs == {})
      && (HoldsDisplay(s) ==> s.pending.inactive || (!s.pending.active && s.state in {Disabled, Inactive}))
      && (s.refs == {VBLANK_REF} ==>
            s.pending.inactive || s.pending.leqIgaOff || (!s.pending.active && Depth(s.state) <= Depth(IgaOff)))
  {
    RunKeepsInv(es);
  }

  // ---------------------------------------------------------------- a display reference holds the panel

  /** The panel is lit, or PSR is off, which leaves it lit too. */
  predicate Lit(s: Psr) { s.state in {Disabled, Inactive} }

  /** Reference `r` is held, and the panel is bound to be lit for it: no request can take it elsewhere. */
  predicate Held(s: Psr, r: nat) {
    && r in s.refs && r != VBLANK_REF && (s.pending == NONE || s.pending.inactive)
    && Bound(s) in {Disabled, Inactive}
  }

  /** The first reading of the request word after an acquire binds the panel to the reference. */
  lemma ReadingHolds(s: Psr, e: Event, r: nat)
    requires Inv(s) && (e.Begin? || e.Fetch?) && Can(s, e)
    requires r in s.refs && r != VBLANK_REF
    ensures Held(Next(s, e), r)
  {
    assert HoldsDisplay(s);
  }

  lemma HeldKept(s: Psr, e: Event, r: nat)
    requires Inv(s) && Can(s, e) && Held(s, r) && e != Release(r)
    ensures Held(Next(s, e), r)
  {
    assert HoldsDisplay(s);
    assert s.refs != {} && s.refs != {VBLANK_REF};
  }

  lemma {:induction false} LegalPrefix(es: seq<Event>, n: nat)
    requires Legal(es) && n <= |es|
    ensures Legal(es[..n])
  {
    if n == |es| {
      assert es[..n] == es;
    } else {
      LegalPrefix(es[..|es| - 1], n);
      assert es[..|es| - 1][..n] == es[..n];
    }
  }

  /** Once held, the panel stays so until the reference is released: at rest it is lit. */
  lemma {:induction false} HeldLasts(es: seq<Event>, n: nat, r: nat)
    requires Legal(es) && n <= |es|
    requires Legal(es[..n]) && Held(Exec(es[..n]), r)
    requires Release(r) !in es[n..]
    ensures Held(Exec(es), r)
    ensures Exec(es).mode.Idle? ==> Lit(Exec(es))
    decreases |es|
  {
    if n == |es| {
      assert es[..n] == es;
    } else {
      var before, e := es[..|es| - 1], es[|es| - 1];
      LastEvent(es, n);
      HeldLasts(before, n, r);
      RunKeepsInv(before);
      HeldKept(Exec(before), e, r);
    }
  }

  lemma LastEvent(es: seq<Event>, n: nat)
    requires n < |es|
    ensures var before, e := es[..|es| - 1], es[|es| - 1];
      before[..n] == es[..n] && es[n..] == before[n..] + [e]
  {
  }

  lemma ReferenceKept(s: Psr, e: Event, r: nat)
    requires Can(s, e) && r in s.refs && e != Release(r)
    ensures r in Next(s, e).refs
  {
  }

  /** A reference stays in the mask until it is released. */
  lemma {:induction false} ReferenceLasts(es: seq<Event>, n: nat, r: nat)
    requires Legal(es) && n <= |es| && Legal(es[..n]) && r in Exec(es[..n]).refs
    requires Release(r) !in es[n..]
    ensures r in Exec(es).refs
    decreases |es|
  {
    if n == |es| {
      assert es[..n] == es;
    } else {
      var before, e := es[..|es| - 1], es[|es| - 1];
      LastEvent(es, n);
      ReferenceLasts(before, n, r);
      ReferenceKept(Exec(before), e, r);
    }
  }

  // ---------------------------------------------------------------- a waiting acquire

  /** A walk begun after the acquire, by whichever thread, ends with the panel lit. */
  lemma LitAfterWalk(es: seq<Event>, n: nat, m: nat, r: nat)
    requires Legal(es) && n <= m < |es| && Legal(es[..n]) && es[m] == Begin && Exec(es).mode.Idle?
    requires r in Exec(es[..n]).refs && r != VBLANK_REF && Release(r) !in es[n..]
    ensures Held(Exec(es), r) && Lit(Exec(es))
  {
    var before := es[..m];
    LegalPrefix(es, m);
    LegalPrefix(es, m + 1);
    assert before[..n] == es[..n] && es[..m + 1] == before + [Begin] && es[..m + 1][..m] == before;
    assert forall e :: e in before[n..] || e in es[m + 1..] ==> e in es[n..];
    ReferenceLasts(before, n, r);
    RunKeepsInv(before);
    ReadingHolds(Exec(before), Begin, r);
    HeldLasts(es, m + 1, r);
  }

  /**
   The run `es` ends when a waiting acquire, its `n`-th event, returns. One that raised a request waits
   for the mutex and walks; one that raised none returns at once. It may begin at any time, also while
   another thread holds the mutex.
  */
  predicate Returns(es: seq<Event>, n: nat, r: nat)
    requires Legal(es) && n < |es| && Legal(es[..n])
  {
    && es[n] == Acquire(r) && Release(r) !in es[n + 1..]
    && if RaisesRequest(Exec(es[..n]).refs, r) then Begin in es[n + 1..] && Exec(es).mode.Idle? else |es| == n + 1
  }

  /**
   It returns with a lit panel if and only if it raised a request or the panel was lit anyway, and with
   the panel bound to be lit if and only if it raised a request or the panel was on its way there.
  */
  lemma WaitingAcquire(es: seq<Event>, n: nat, r: nat)
    requires Legal(es) && n < |es| && Legal(es[..n]) && Returns(es, n, r)
    requires Exec(es[..n]).enabled && r < MAX_REF && r != VBLANK_REF
    ensures var s := Exec(es[..n]);
      && (Lit(Exec(es)) <==> RaisesRequest(s.refs, r) || Lit(s))
      && (Held(Exec(es), r) <==> RaisesRequest(s.refs, r) || Bound(s) in {Disabled, Inactive})
  {
    var s := Exec(es[..n]);
    RunKeepsInv(es[..n]);
    LegalPrefix(es, n + 1);
    assert es[..n + 1][..n] == es[..n];
    assert r in Exec(es[..n + 1]).refs;
    if RaisesRequest(s.refs, r) {
      var m :| n + 1 <= m < |es| && es[m] == Begin;
      LitAfterWalk(es, n + 1, m, r);
    } else {
      RefsCases(s);
      assert es[..n + 1] == es;
    }
  }

  /** A list of events may happen, one after the other, from `s` on; and what they lead to. */
  predicate CanAll(s: Psr, es: seq<Event>)
    decreases es
  {
    es == [] || (Can(s, es[0]) && CanAll(Next(s, es[0]), es[1..]))
  }

  function After(s: Psr, es: seq<Event>): Psr
    requires CanAll(s, es)
    decreases es
  {
    if es == [] then s else After(Next(s, es[0]), es[1..])
  }

  lemma {:induction false} AppendAll(es: seq<Event>, more: seq<Event>)
    requires Legal(es) && CanAll(Exec(es), more)
    ensures Legal(es + more) && Exec(es + more) == After(Exec(es), more)
    decreases more
  {
    if more == [] {
      assert es + more == es;
    } else {
      ExecAppend(es, more[0]);
      AppendAll(es + [more[0]], more[1..]);
      assert es + [more[0]] + more[1..] == es + more;
    }
  }

  /** The last `k` steps of the walk from INACTIVE down to DCLK_OFF, undisturbed. */
  function Sinking(k: nat): seq<Event> { if k == 0 then [Finish] else [Walk(true), Fetch] + Sinking(k - 1) }

  lemma {:induction false} SinkFrom(s: Psr, k: nat)
    requires k <= 5 && s.pending == NONE && s.mode == Testing(DclkOff) && s.fails == 0
    requires s.state == [DclkOff, IgaOff, EphyOff, Active, Transition, Inactive][k]
    ensures CanAll(s, Sinking(k)) && After(s, Sinking(k)) == s.(state := DclkOff, mode := Idle)
    decreases k
  {
    if k > 0 {
      var t := Next(s, Walk(true));
      SinkFrom(Next(t, Fetch), k - 1);
      TwoMore(s, Walk(true), Fetch, Sinking(k - 1));
    } else {
      assert Sinking(0) == [Finish] && Sinking(0)[1..] == [];
    }
  }

  lemma TwoMore(s: Psr, d: Event, e: Event, es: seq<Event>)
    requires Can(s, d) && Can(Next(s, d), e) && CanAll(Next(Next(s, d), e), es)
    ensures CanAll(s, [d, e] + es) && After(s, [d, e] + es) == After(Next(Next(s, d), e), es)
  {
    assert ([d, e] + es)[1..] == [e] + es && ([e] + es)[1..] == es;
  }

  /** A run that ends with the panel resting at DCLK_OFF. */
  lemma Sunk() returns (es: seq<Event>)
    ensures Legal(es) && Exec(es) == Psr(true, DclkOff, {}, NONE, false, 0, Idle)
  {
    es := [];
    es := Append(es, Enable(true));
    es := Append(es, Acquire(ENABLE_REF));
    assert Exec(es).refs == {ENABLE_REF};
    es := Append(es, Release(ENABLE_REF));
    assert Exec(es).refs == {};
    es := Append(es, Begin);
    es := Append(es, TimerFires);
    es := Append(es, Begin);
    SinkFrom(Exec(es), 5);
    AppendAll(es, Sinking(5));
    es := es + Sinking(5);
  }

  /**
   A run to the failing case: the panel rests at DCLK_OFF, a cursor reference has raised the request to
   light it, and a flip that waits, the last event, raises none and returns at once.
  */
  lemma WaitingFlipReturnsDark() returns (es: seq<Event>)
    ensures Legal(es) && |es| > 0 && Returns(es, |es| - 1, FLIP_REF)
    ensures var s := Exec(es); s.mode.Idle? && s.enabled && s.state == DclkOff && FLIP_REF in s.refs
  {
    es := Sunk();
    es := Append(es, Acquire(CURSOR_REF));
    assert Exec(es).refs == {CURSOR_REF};
    es := Append(es, Acquire(FLIP_REF));
    assert es[..|es|] == es;
  }

  // ---------------------------------------------------------------- termination of the walk

  function Distance(s: Psr): nat
    requires s.mode.Testing? || s.mode.Fetching?
  {
    if Depth(s.state) < Depth(s.mode.dst) then Depth(s.mode.dst) - Depth(s.state)
    else Depth(s.state) - Depth(s.mode.dst)
  }

  /** Every step of a walk ends it or comes nearer to the target. */
  lemma WalkComesNearer(s: Psr, ok: bool)
    requires Inv(s) && Can(s, Walk(ok))
    ensures var t := Next(s, Walk(ok));
      t.mode.Recovering? || (t.mode == Fetching(s.mode.dst) && Distance(t) < Distance(s))
  {}

  /** A bound on the steps the holder of the mutex still has to take if no further request comes. */
  function Work(s: Psr): nat {
    match s.mode
    case Idle => 0
    case Recovering(_) => 1
    case Testing(_) => (if s.pending == NONE then 0 else 16) + 2 * Distance(s) + 1
    case Fetching(_) => (if s.pending == NONE then 0 else 16) + 2 * Distance(s) + 2
  }

  predicate TakesMutex(e: Event) { e.Begin? || e.Enable? || e.Disable? || e.ResetDown? }

  /** The steps in a run of the thread that holds the mutex, and the events of others that may raise a request. */
  function HolderSteps(es: seq<Event>): nat {
    if es == [] then 0 else HolderSteps(es[..|es| - 1]) + if IsEnvironment(es[|es| - 1]) then 0 else 1
  }

  function Requests(es: seq<Event>): nat {
    if es == [] then 0
    else Requests(es[..|es| - 1]) + if es[|es| - 1].Acquire? || es[|es| - 1].TimerFires? then 1 else 0
  }

  lemma StepDoesWork(s: Psr, e: Event)
    requires Inv(s) && Can(s, e) && !TakesMutex(e)
    ensures var t := Next(s, e);
      if !IsEnvironment(e) then Work(t) < Work(s)
      else Work(t) <= Work(s) + if e.Acquire? || e.TimerFires? then 16 else 0
  {
    if e.Walk? { WalkComesNearer(s, e.ok); }
  }

  /**
   From any point of a run until the mutex is taken again, its holder takes no more steps than the work
   then left and sixteen for each request that others may have raised: every walk ends.
  */
  lemma {:induction false} WalkEnds(es: seq<Event>, n: nat)
    requires Legal(es) && n <= |es| && Legal(es[..n])
    requires forall e :: e in es[n..] ==> !TakesMutex(e)
    ensures HolderSteps(es[n..]) + Work(Exec(es)) <= Work(Exec(es[..n])) + 16 * Requests(es[n..])
    decreases |es|
  {
    if n == |es| {
      assert es[..n] == es && es[n..] == [];
    } else {
      var before, e := es[..|es| - 1], es[|es| - 1];
      LastEvent(es, n);
      WalkEnds(before, n);
      RunKeepsInv(before);
      StepDoesWork(Exec(before), e);
      assert es[n..][..|es[n..]| - 1] == before[n..];
    }
  }

  /** A walk that begins takes its thread at most fifteen steps, and sixteen for each request raised meanwhile. */
  lemma WalkBounded(es: seq<Event>, n: nat)
    requires Legal(es) && n < |es| && Legal(es[..n]) && es[n] == Begin
    requires forall e :: e in es[n + 1..] ==> !TakesMutex(e)
    ensures HolderSteps(es[n + 1..]) <= 15 + 16 * Requests(es[n + 1..])
  {
    LegalPrefix(es, n + 1);
    assert es[..n + 1][..n] == es[..n];
    RunKeepsInv(es[..n]);
    BeginWork(Exec(es[..n]));
    WalkEnds(es, n + 1);
  }

  lemma BeginWork(s: Psr)
    requires Inv(s) && Can(s, Begin)
    ensures Work(Next(s, Begin)) <= 15
  {
  }

  /** Why Exit must never be a resting state: a walk deeper from Exit would step in place for ever. */
  lemma ExitWouldSpin(s: Psr, ok: bool)
    requires s.mode == Testing(DclkOff) && s.state == Exit && s.pending == NONE
    ensures Can(s, Walk(ok)) && Next(Next(s, Walk(ok)), Fetch) == s
  {}
}
