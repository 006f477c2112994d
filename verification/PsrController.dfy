/**
 The PSR controller as the driver writes it: fields updated in place, retry loops around the
 hardware calls, and a walking loop whose target other threads may change at every turn.
 A ghost log of events ties every method to the machine of PsrMachine.
*/
module PsrController {
  import opened Common
  import opened PsrMachine

  /** The CBIOS calls the controller makes. `Op2_5` is the call from state 2 to state 5 (Exit), and so on. */
  datatype Op =
    | Op0_1 | Op1_0 | Op1_2 | Op2_0 | Op2_3 | Op2_5 | Op3_0 | Op3_5 | Op5_0 | Op5_1
    | Op3_3_1 | Op3_1_3_2 | Op3_2_3_3 | Op3_3_3_2 | Op3_2_3_1 | Op3_1_3

  function From(op: Op): State {
    match op
    case Op0_1 => Disabled
    case Op1_0 | Op1_2 => Inactive
    case Op2_0 | Op2_3 | Op2_5 => Transition
    case Op5_0 | Op5_1 => Exit
    case Op3_0 | Op3_5 | Op3_3_1 => Active
    case Op3_1_3_2 | Op3_1_3 => EphyOff
    case Op3_2_3_3 | Op3_2_3_1 => IgaOff
    case Op3_3_3_2 => DclkOff
  }

  function To(op: Op): State {
    match op
    case Op0_1 | Op5_1 => Inactive
    case Op1_0 | Op2_0 | Op3_0 | Op5_0 => Disabled
    case Op1_2 => Transition
    case Op2_3 | Op3_1_3 => Active
    case Op2_5 | Op3_5 => Exit
    case Op3_3_1 | Op3_2_3_1 => EphyOff
    case Op3_1_3_2 | Op3_3_3_2 => IgaOff
    case Op3_2_3_3 => DclkOff
  }

  /** Only these three calls report an outcome; the driver takes the others to succeed. */
  predicate MayFail(op: Op) { op in {Op0_1, Op2_3, Op5_1} }

  /** The hardware state after a list of calls; None when a call came in a state it is not made for. */
  function Replay(calls: seq<(Op, bool)>): Option<State> {
    if calls == [] then Some(Disabled)
    else
      var (op, ok) := calls[|calls| - 1];
      match Replay(calls[..|calls| - 1])
      case None => None
      case Some(s) => if s != From(op) then None else if ok then Some(To(op)) else Some(s)
  }

  /** A replayable list is a path: each call was made in the state its predecessors led to. */
  lemma {:induction false} ReplayIsPath(calls: seq<(Op, bool)>, i: nat)
    requires Replay(calls).Some? && i < |calls|
    ensures Replay(calls[..i]) == Some(From(calls[i].0))
    ensures Replay(calls[..i + 1]) == Some(if calls[i].1 then To(calls[i].0) else From(calls[i].0))
    decreases |calls|
  {
    if i == |calls| - 1 {
      assert calls[..i + 1] == calls;
    } else {
      var before := calls[..|calls| - 1];
      ReplayIsPath(before, i);
      assert before[..i] == calls[..i] && before[..i + 1] == calls[..i + 1];
    }
  }

  function Refused(op: Op, n: nat): seq<(Op, bool)> { seq(n, i => (op, false)) }

  /** A call made again and again: refused, and at last accepted, in at most `limit` tries; or refused in all of them. */
  ghost predicate Tried(before: seq<(Op, bool)>, after: seq<(Op, bool)>, op: Op, limit: nat, ok: bool) {
    if ok then exists n: nat :: n < limit && after == before + Refused(op, n) + [(op, true)]
    else after == before + Refused(op, limit)
  }

  function ExitCall(s: State): seq<(Op, bool)> {
    if s == Active then [(Op3_5, true)] else if s == Transition then [(Op2_5, true)] else []
  }

  /** The last calls made are `n` refused ones. */
  predicate GaveUp(calls: seq<(Op, bool)>, op: Op, n: nat) { n <= |calls| && calls[|calls| - n..] == Refused(op, n) }

  lemma TriedInVain(before: seq<(Op, bool)>, after: seq<(Op, bool)>, op: Op, limit: nat)
    requires Tried(before, after, op, limit, false)
    ensures GaveUp(after, op, limit)
  {
  }

  /** The panel hardware: which calls may fail, and how often, is its own choice. */
  class Hardware {
    var state: State
    ghost var calls: seq<(Op, bool)>

    ghost predicate Valid() reads this { Replay(calls) == Some(state) }

    constructor ()
      ensures Valid() && state == Disabled
    {
      state, calls := Disabled, [];
    }

    method Call(op: Op) returns (ok: bool)
      requires Valid() && state == From(op)
      modifies this
      ensures Valid() && calls == old(calls) + [(op, ok)]
      ensures state == if ok then To(op) else From(op)
      ensures !MayFail(op) ==> ok
    {
      ok := *;
      ok := ok || !MayFail(op);
      if ok { state := To(op); }
      calls := calls + [(op, ok)];
      assert calls[..|calls| - 1] == old(calls);
    }
  }

  class Controller {
    var enabled: bool
    var forceOff: bool
    var outputType: int
    var state: State
    var refs: set<nat>
    var pending: Request
    var timer: bool
    var fails: nat
    const hw: Hardware

    ghost var mode: Mode
    ghost var events: seq<Event>

    ghost function View(): Psr
      reads this`enabled, this`state, this`refs, this`pending, this`timer, this`fails, this`mode
    {
      Psr(enabled, state, refs, pending, timer, fails, mode)
    }

    /** The controller's state mirrors the hardware, and every call so far was made in the state it is for. */
    ghost predicate Mirrors() reads this`state, hw { hw.Valid() && hw.state == state }

    /** The fields are where the logged run of the machine has led. */
    ghost predicate OnRun()
      reads this`enabled, this`state, this`refs, this`pending, this`timer, this`fails, this`mode, this`events
    {
      Legal(events) && Exec(events) == View()
    }

    ghost predicate Valid() reads this, hw { Mirrors() && OnRun() }

    /** PSR is on, or activation failed too often, or the hardware has just refused a thousand times to be enabled. */
    ghost predicate OnIfPossible() reads this`enabled, this`fails, hw { enabled || fails >= 5 || GaveUp(hw.calls, Op0_1, 1000) }

    constructor (forceOff: bool)
      ensures Valid() && View() == INIT && events == []
      ensures this.forceOff == forceOff && fresh(hw)
    {
      enabled, this.forceOff, outputType, state, refs := false, forceOff, 0, Disabled, {};
      pending, timer, fails, mode, events := NONE, false, 0, Idle, [];
      hw := new Hardware();
    }

    /** Record an event whose effect the fields now show. */
    ghost method Log(e: Event)
      requires Legal(events) && Can(Exec(events), e) && View() == Next(Exec(events), e)
      modifies this`events
      ensures events == old(events) + [e] && OnRun()
    {
      ExecAppend(events, e);
      events := events + [e];
    }

    // ---------------------------------------------------------------- other threads and interrupts

    /** The locked part and the request of psr_acquire_display, as one step. */
    method AcquireStep(r: nat) returns (acquired: bool, request: bool)
      requires OnRun()
      modifies this`refs, this`timer, this`pending, this`events
      ensures OnRun() && events == old(events) + [Acquire(r)]
      ensures acquired <==> enabled && r < MAX_REF
      ensures request <==> acquired && RaisesRequest(old(refs), r)
    {
      acquired, request := false, false;
      if enabled && r < MAX_REF {
        acquired := true;
        var op := if r == VBLANK_REF then TO_LEQ_IGA_OFF else TO_INACTIVE;
        if refs == {} {
          request := true;
        } else if refs == {VBLANK_REF} && op != TO_LEQ_IGA_OFF {
          request := true;
        }
        refs := refs + {r};
        if request {
          timer := false;
          pending := pending.Or(op);
        }
      }
      Log(Acquire(r));
    }

    method ReleaseDisplay(r: nat)
      requires OnRun()
      modifies this`refs, this`timer, this`events
      ensures OnRun() && events == old(events) + [Release(r)]
    {
      if enabled && r < MAX_REF {
        var request := refs == {r};
        refs := refs - {r};
        if request { timer := true; }
      }
      Log(Release(r));
    }

    method TimerExpires()
      requires OnRun() && timer
      modifies this`timer, this`pending, this`events
      ensures OnRun() && events == old(events) + [TimerFires]
    {
      timer := false;
      if enabled { pending := pending.Or(TO_ACTIVE); }
      Log(TimerFires);
    }

    /** What other threads do in one gap of the walk. A timer that is not armed does not fire. */
    method Interfere(es: seq<Event>, ghost r: nat)
      requires OnRun() && forall e :: e in es ==> IsEnvironment(e)
      modifies this`refs, this`timer, this`pending, this`events
      ensures OnRun() && Grew(old(events), events, Release(r) in es, r)
      ensures es == [] ==> View() == old(View())
    {
      for i := 0 to |es|
        invariant OnRun() && Grew(old(events), events, Release(r) in es, r)
        invariant i == 0 ==> View() == old(View())
      {
        assert IsEnvironment(es[i]);
        match es[i] {
          case Acquire(r') => var _, _ := AcquireStep(r');
          case Release(r') => ReleaseDisplay(r');
          case TimerFires => if timer { TimerExpires(); }
        }
      }
    }

    // ---------------------------------------------------------------- hardware steps

    /** A hardware call that the driver takes to succeed, and the state it leads to. */
    method Move(op: Op)
      requires Mirrors() && state == From(op) && !MayFail(op)
      modifies this`state, hw
      ensures Mirrors() && state == To(op) && hw.calls == old(hw.calls) + [(op, true)]
    {
      var _ := hw.Call(op);
      state := To(op);
    }

    /** A hardware call repeated until it succeeds, at most `limit` times. */
    method Retry(op: Op, limit: nat) returns (ok: bool)
      requires Mirrors() && state == From(op)
      modifies this`state, hw
      ensures Mirrors() && state == if ok then To(op) else From(op)
      ensures Tried(old(hw.calls), hw.calls, op, limit, ok)
    {
      var cnt := 0;
      ok := false;
      while cnt < limit
        invariant Mirrors() && state == From(op) && !ok
        invariant 0 <= cnt <= limit && hw.calls == old(hw.calls) + Refused(op, cnt)
      {
        var done := hw.Call(op);
        if done {
          state := To(op);
          return true;
        }
        assert Refused(op, cnt + 1) == Refused(op, cnt) + [(op, false)];
        cnt := cnt + 1;
      }
    }

    /** From DISABLED the enabling call is made until it is accepted, up to a thousand times. */
    method OpEnable() returns (ghost ok: bool)
      requires Mirrors()
      modifies this`state, this`enabled, hw
      ensures Mirrors() && View() == AfterEnable(old(View()), ok)
      ensures if old(state) == Disabled then Tried(old(hw.calls), hw.calls, Op0_1, 1000, ok) else hw.calls == old(hw.calls)
      ensures old(state) == Disabled && state == Disabled ==> GaveUp(hw.calls, Op0_1, 1000)
    {
      ok := false;
      if state != Disabled { return; }
      var done := Retry(Op0_1, 1000);
      if done { enabled := true; } else { TriedInVain(old(hw.calls), hw.calls, Op0_1, 1000); }
      ok := done;
    }

    /** From the deeper states up to ACTIVE. */
    method Surface()
      requires Mirrors()
      modifies this`state, hw
      ensures Mirrors() && state == if old(state) in {DclkOff, IgaOff, EphyOff} then Active else old(state)
    {
      if state == DclkOff { Move(Op3_3_3_2); }
      if state == IgaOff { Move(Op3_2_3_1); }
      if state == EphyOff { Move(Op3_1_3); }
    }

    /** Reaches DISABLED from every state, one call for each state on the way. */
    method OpDisable()
      requires Mirrors()
      modifies this`state, this`enabled, hw
      ensures Mirrors() && View() == AfterDisable(old(View()))
    {
      enabled := false;
      if state == Disabled { return; }
      Surface();
      if state == Active { Move(Op3_0); }
      else if state == Transition { Move(Op2_0); }
      else if state == Inactive { Move(Op1_0); }
      else if state == Exit { Move(Op5_0); }
    }

    /** Activation, tried up to forty times. */
    method Activate() returns (status: Status, ok: bool)
      requires Mirrors() && state == Transition
      modifies this`state, this`fails, hw
      ensures Mirrors() && (View(), status) == AfterStep(old(View()), true, ok)
      ensures Tried(old(hw.calls), hw.calls, Op2_3, 40, ok) && (!ok ==> GaveUp(hw.calls, Op2_3, 40))
    {
      ok := Retry(Op2_3, 40);
      status := Ok;
      if ok {
        if fails > 0 { fails := fails - 1; }
      } else {
        TriedInVain(old(hw.calls), hw.calls, Op2_3, 40);
        fails := fails + 1;
        status := if fails >= ACTIVE_FAIL_THRESHOLD then ToActiveCritical else ToActiveFail;
      }
    }

    /** A step to a deeper state. */
    method Deepen() returns (status: Status, ghost ok: bool)
      requires Mirrors()
      modifies this`state, this`fails, hw
      ensures Mirrors() && (View(), status) == AfterStep(old(View()), true, ok)
      ensures old(state) == Transition ==> Tried(old(hw.calls), hw.calls, Op2_3, 40, ok)
      ensures status == Ok || (status != ToInactiveFail && GaveUp(hw.calls, Op2_3, 40))
    {
      status, ok := Ok, true;
      if state == Inactive { Move(Op1_2); }
      else if state == Transition {
        var done;
        status, done := Activate();
        ok := done;
      }
      else if state == Active { Move(Op3_3_1); }
      else if state == EphyOff { Move(Op3_1_3_2); }
      else if state == IgaOff { Move(Op3_2_3_3); }
    }

    /** The call into EXIT from its neighbours. */
    method ToExit()
      requires Mirrors()
      modifies this`state, hw
      ensures Mirrors() && state == if old(state) in {Active, Transition} then Exit else old(state)
      ensures hw.calls == old(hw.calls) + ExitCall(old(state))
    {
      if state == Active { Move(Op3_5); }
      else if state == Transition { Move(Op2_5); }
    }

    /** The way out of EXIT, tried up to forty times. */
    method LeaveExit() returns (ok: bool)
      requires Mirrors() && state == Exit
      modifies this`state, hw
      ensures Mirrors() && state == (if ok then Inactive else Exit)
      ensures Tried(old(hw.calls), hw.calls, Op5_1, 40, ok) && (!ok ==> GaveUp(hw.calls, Op5_1, 40))
    {
      ok := Retry(Op5_1, 40);
      if !ok { TriedInVain(old(hw.calls), hw.calls, Op5_1, 40); }
    }

    /** A step to a less deep state. EXIT, which is no resting state, is left in the same step. */
    method Lift() returns (status: Status, ghost ok: bool)
      requires Mirrors()
      modifies this`state, hw
      ensures Mirrors() && (View(), status) == AfterStep(old(View()), false, ok)
      ensures old(state) in {Active, Transition, Exit} ==> Tried(old(hw.calls) + ExitCall(old(state)), hw.calls, Op5_1, 40, ok)
      ensures status == Ok || (status == ToInactiveFail && GaveUp(hw.calls, Op5_1, 40))
    {
      status, ok := Ok, true;
      if state == DclkOff { Move(Op3_3_3_2); }
      else if state == IgaOff { Move(Op3_2_3_1); }
      else if state == EphyOff { Move(Op3_1_3); }
      else { ToExit(); }
      if state == Exit {
        var done := LeaveExit();
        ok := done;
        if !done { status := ToInactiveFail; }
      }
    }

    /** One step of the walk; the ghost result is the outcome of its retry loop. */
    method SingleStep(deeper: bool) returns (status: Status, ghost ok: bool)
      requires Mirrors()
      modifies this`state, this`fails, hw
      ensures Mirrors() && (View(), status) == AfterStep(old(View()), deeper, ok)
      ensures deeper && old(state) == Transition ==> Tried(old(hw.calls), hw.calls, Op2_3, 40, ok)
      ensures !deeper && old(state) in {Active, Transition, Exit} ==> Tried(old(hw.calls) + ExitCall(old(state)), hw.calls, Op5_1, 40, ok)
      ensures status != Ok ==> GaveUp(hw.calls, if status == ToInactiveFail then Op5_1 else Op2_3, 40)
    {
      if deeper {
        status, ok := Deepen();
      } else {
        status, ok := Lift();
      }
    }

    /** Exchange the request word with zero and read the state it asks for. */
    method GetDstState() returns (dst: Option<State>)
      modifies this`pending
      ensures pending == NONE
      ensures dst == if old(pending) == NONE then None else Some(Target(old(pending), state))
    {
      var operation := pending;
      pending := NONE;
      dst := None;
      if operation.inactive {
        dst := Some(Inactive);
      } else if operation.leqIgaOff {
        dst := if Depth(state) <= Depth(IgaOff) then Some(state) else Some(IgaOff);
      } else if operation.active {
        dst := Some(DclkOff);
      }
    }

    // ---------------------------------------------------------------- under the mutex

    /** Read the request word and, if it asks for another state, begin to walk there. */
    method Start() returns (target: State, walking: bool)
      requires Valid() && mode.Idle?
      modifies this`pending, this`mode, this`events
      ensures Valid() && events == old(events) + [Begin]
      ensures mode == if walking then Testing(target) else Idle
      ensures pending == NONE
    {
      var dst := GetDstState();
      walking := enabled && dst.Some? && dst.value != state;
      target := if dst.Some? then dst.value else Inactive;
      mode := if walking then Testing(target) else Idle;
      Log(Begin);
    }

    /** After a step that failed: disable the panel, and enable it again unless it failed too often. */
    method Fall(ghost ok: bool, status: Status) returns (ghost up: bool)
      requires Mirrors() && Legal(events) && Can(Exec(events), Walk(ok)) && status != Ok
      requires Next(Exec(events), Walk(ok)) == AfterDisable(View()).(mode := Recovering(status != ToActiveCritical))
      modifies this`state, this`enabled, this`mode, this`events, hw
      ensures Valid() && mode.Idle? && events == old(events) + [Walk(ok), Recover(up)]
      ensures status != ToActiveCritical && !enabled ==> GaveUp(hw.calls, Op0_1, 1000)
    {
      OpDisable();
      mode := Recovering(status != ToActiveCritical);
      Log(Walk(ok));
      up := Recovery(status != ToActiveCritical);
      assert events == old(events) + [Walk(ok), Recover(up)];
    }

    /** The end of a recovery. */
    method Recovery(reenable: bool) returns (ghost up: bool)
      requires Valid() && mode == Recovering(reenable) && state == Disabled
      modifies this`state, this`enabled, this`mode, this`events, hw
      ensures Valid() && mode.Idle? && events == old(events) + [Recover(up)]
      ensures state == if reenable && up then Inactive else Disabled
      ensures reenable && state == Disabled ==> GaveUp(hw.calls, Op0_1, 1000)
    {
      up := false;
      if reenable { up := OpEnable(); }
      mode := Idle;
      Log(Recover(up));
    }

    /** One step toward the target. */
    method Turn(target: State, ghost r: nat) returns (failed: bool)
      requires Valid() && mode == Testing(target) && state != target
      modifies this`state, this`enabled, this`fails, this`mode, this`events, hw
      ensures Valid() && Grew(old(events), events, false, r)
      ensures failed ==> mode.Idle? && OnIfPossible()
      ensures !failed ==> mode == Fetching(target) && Distance(View()) < old(Distance(View()))
    {
      RunKeepsInv(events);
      ghost var before := View();
      var status, ok := SingleStep(Depth(target) > Depth(state));
      WalkComesNearer(before, ok);
      failed := status != Ok;
      if failed {
        ghost var up := Fall(ok, status);
      } else {
        mode := Fetching(target);
        Log(Walk(ok));
      }
    }

    /** Read the request word again and retarget the walk. */
    method Retarget(target: State) returns (dst: State)
      requires Valid() && mode == Fetching(target)
      modifies this`pending, this`mode, this`events
      ensures Valid() && mode == Testing(dst) && events == old(events) + [Fetch]
      ensures pending == NONE && (old(pending) == NONE ==> dst == target)
    {
      var newState := GetDstState();
      dst := if newState.Some? then newState.value else target;
      mode := Testing(dst);
      Log(Fetch);
    }

    method Arrive()
      requires Valid() && mode == Testing(state)
      modifies this`mode, this`events
      ensures Valid() && mode.Idle? && events == old(events) + [Finish]
    {
      mode := Idle;
      Log(Finish);
    }

    /** One turn of the walking loop, `es` being what other threads do before the request word is read again. */
    method Cycle(target: State, es: seq<Event>, ghost r: nat) returns (walking: bool, dst: State)
      requires Valid() && mode == Testing(target) && state != target
      requires forall e :: e in es ==> IsEnvironment(e)
      modifies this, hw
      ensures Valid() && Grew(old(events), events, Release(r) in es, r)
      ensures !walking ==> mode.Idle? && OnIfPossible()
      ensures walking ==> mode == Testing(dst) && pending == NONE
      ensures walking && es == [] && old(pending) == NONE ==> Distance(View()) < old(Distance(View()))
      ensures forceOff == old(forceOff) && outputType == old(outputType)
    {
      dst := target;
      var failed := Turn(target, r);
      walking := !failed;
      if failed { return; }
      Interfere(es, r);
      dst := Retarget(target);
    }

    /**
     Walk on to `target`, and to wherever requests that come meanwhile retarget the walk. `env[k]` is what
     other threads do after the k-th step and before the request word is read again; after the last of
     them they are silent.
    */
    method WalkOn(target: State, env: seq<seq<Event>>, ghost r: nat)
      requires Valid() && mode == Testing(target) && EnvironmentOnly(env)
      modifies this, hw
      ensures Valid() && mode.Idle? && OnIfPossible() && Grew(old(events), events, Releases(env, r), r)
      ensures forceOff == old(forceOff) && outputType == old(outputType)
    {
      var gap, dst, walking := 0, target, true;
      while state != dst
        invariant Valid() && gap <= |env| && mode == Testing(dst)
        invariant Grew(old(events), events, Releases(env, r), r)
        invariant forceOff == old(forceOff) && outputType == old(outputType)
        decreases |env| - gap, pending != NONE, Distance(View())
      {
        var es := [];
        if gap < |env| {
          es := env[gap];
          gap := gap + 1;
        }
        walking, dst := Cycle(dst, es, r);
        if !walking { return; }
      }
      RunKeepsInv(events);
      Arrive();
    }

    /**
     Walk to the requested state. The walk terminates for every stream of concurrent events, every choice
     of the hardware and every reachable state.
    */
    method OperateTransState(env: seq<seq<Event>>, ghost r: nat)
      requires Valid() && mode.Idle? && EnvironmentOnly(env)
      modifies this, hw
      ensures Valid() && mode.Idle?
      ensures old(events) + [Begin] <= events && Grew(old(events), events, Releases(env, r), r)
      ensures old(enabled) ==> OnIfPossible()
      ensures forceOff == old(forceOff) && outputType == old(outputType)
    {
      var target, walking := Start();
      if walking { WalkOn(target, env, r); }
    }

    /** Wait for the mutex while its holder, who stands at `holder`, finishes. */
    method AwaitMutex(holder: Mode, env: seq<seq<Event>>, ghost r: nat)
      requires Valid() && mode == holder && EnvironmentOnly(env)
      modifies this, hw
      ensures Valid() && mode.Idle? && Grew(old(events), events, Releases(env, r), r)
      ensures forceOff == old(forceOff) && outputType == old(outputType)
    {
      match holder {
        case Idle =>
        case Testing(dst) => WalkOn(dst, env, r);
        case Fetching(dst) =>
          var target := Retarget(dst);
          WalkOn(target, env, r);
        case Recovering(reenable) =>
          RunKeepsInv(events);
          ghost var up := Recovery(reenable);
      }
    }

    /**
     Take a display reference, at any time: `holder` is where the holder of the mutex stands, `other` and
     `env` are what other threads do while this one waits for the mutex and while it walks. An acquire
     that waits and raises a request returns with the panel lit (or PSR off) for as long as the reference
     is held.
    */
    method AcquireDisplay(r: nat, waitDone: bool, holder: Mode, other: seq<seq<Event>>, env: seq<seq<Event>>)
      returns (acquired: bool)
      requires Valid() && mode == holder && EnvironmentOnly(other) && EnvironmentOnly(env)
      modifies this, hw
      ensures Valid() && (acquired <==> old(enabled) && r < MAX_REF)
      ensures old(events) + [Acquire(r)] <= events
      ensures !waitDone || !RaisesRequest(old(refs), r) || !acquired ==> events == old(events) + [Acquire(r)] && hw.calls == old(hw.calls)
      ensures waitDone && RaisesRequest(old(refs), r) && acquired ==> mode.Idle?
      ensures waitDone && acquired && r != VBLANK_REF && RaisesRequest(old(refs), r) && !Releases(other + env, r) ==>
                Held(View(), r) && Lit(View())
      ensures forceOff == old(forceOff) && outputType == old(outputType)
    {
      var request;
      acquired, request := AcquireStep(r);
      if request && waitDone {
        assert r in refs;
        ghost var n, held := |events|, events;
        AwaitMutex(holder, other, r);
        ghost var m := |events|;
        OperateTransState(env, r);
        if r != VBLANK_REF && !Releases(other + env, r) {
          assert forall k :: 0 <= k < |other| ==> other[k] == (other + env)[k];
          assert forall k :: 0 <= k < |env| ==> env[k] == (other + env)[|other| + k];
          assert events[..n] == held && events[m] == Begin;
          LitAfterWalk(events, n, m, r);
        }
      }
    }

    /** Turn PSR on, under the mutex. */
    method TurnOn(device: int)
      requires Valid() && mode.Idle? && state == Disabled
      modifies this`outputType, this`fails, this`state, this`enabled, this`events, hw
      ensures Valid() && outputType == device && fails == 0
      ensures state == (if enabled then Inactive else Disabled) && (!enabled ==> GaveUp(hw.calls, Op0_1, 1000))
    {
      RunKeepsInv(events);
      outputType := device;
      fails := 0;
      ghost var ok := OpEnable();
      Log(PsrMachine.Event.Enable(ok));
    }

    /** Turn PSR on; a reference taken and released at once starts the timer that lets the panel sleep. */
    method Enable(device: int)
      requires Valid() && mode.Idle?
      modifies this, hw
      ensures Valid() && mode.Idle? && forceOff == old(forceOff)
      ensures forceOff || old(enabled) ==> View() == old(View()) && events == old(events)
      ensures !forceOff && !old(enabled) && enabled ==>
                state == Inactive && outputType == device && fails == 0 && pending.inactive == (old(refs) in {{}, {VBLANK_REF}} || old(pending).inactive)
      ensures !forceOff && !old(enabled) && enabled && old(refs) == {} ==> timer && refs == {}
      ensures !forceOff && !old(enabled) && !enabled ==> GaveUp(hw.calls, Op0_1, 1000)
    {
      RunKeepsInv(events);
      if !forceOff && !enabled {
        TurnOn(device);
        var acquired := AcquireDisplay(ENABLE_REF, false, Idle, [], []);
        if acquired { ReleaseDisplay(ENABLE_REF); }
      }
    }

    method Disable()
      requires Valid() && mode.Idle?
      modifies this`enabled, this`state, this`events, hw
      ensures Valid() && !enabled && state == Disabled
      ensures events == old(events) + if old(enabled) then [PsrMachine.Event.Disable] else []
    {
      RunKeepsInv(events);
      if enabled {
        OpDisable();
        Log(PsrMachine.Event.Disable);
      }
    }

    /** Turn PSR off and on again, whether or not it was on. */
    method Reset() returns (ghost up: bool)
      requires Valid() && mode.Idle?
      modifies this`enabled, this`state, this`mode, this`events, hw
      ensures Valid() && mode.Idle? && state == if up then Inactive else Disabled
      ensures state == Disabled ==> GaveUp(hw.calls, Op0_1, 1000)
      ensures events == old(events) + [ResetDown, Recover(up)]
    {
      RunKeepsInv(events);
      if enabled { OpDisable(); }
      mode := Recovering(true);
      Log(ResetDown);
      up := Recovery(true);
      assert events == old(events) + [ResetDown, Recover(up)];
    }
  }

  predicate EnvironmentOnly(env: seq<seq<Event>>) {
    forall k, e :: 0 <= k < |env| && e in env[k] ==> IsEnvironment(e)
  }

  ghost predicate Releases(env: seq<seq<Event>>, r: nat) {
    exists k :: 0 <= k < |env| && Release(r) in env[k]
  }

  /** `to` continues `from`, and releases `r` there only if `allowed`. */
  ghost predicate Grew(from: seq<Event>, to: seq<Event>, allowed: bool, r: nat) {
    from <= to && (!allowed ==> Release(r) !in to[|from|..])
  }
}
