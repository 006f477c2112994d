/**
 The release of a display reference as the driver performs it: it clears the mask under a lock, and arms
 the timer after it. Other steps may fall between the two, so a release that emptied the mask has an
 arming still to come. The machine of PsrMachine takes the two as one step.
*/
module PsrRelease {
  import opened PsrMachine

  /** `arming` counts the releases between their two steps. */
  datatype Split = Split(psr: Psr, arming: nat)

  datatype Step = Other(e: Event) | Clear(r: nat) | Arm

  predicate CanStep(s: Split, e: Step) {
    match e
    case Other(e) => !e.Release? && Can(s.psr, e)
    case Clear(_) => true
    case Arm => s.arming > 0
  }

  function NextStep(s: Split, e: Step): Split
    requires CanStep(s, e)
  {
    match e
    case Other(e) => s.(psr := Next(s.psr, e))
    case Clear(r) =>
      if !s.psr.enabled || r >= MAX_REF then s
      else Split(s.psr.(refs := s.psr.refs - {r}), s.arming + if s.psr.refs == {r} then 1 else 0)
    case Arm => Split(s.psr.(timer := true), s.arming - 1)
  }

  predicate IsRun(run: seq<Split>, es: seq<Step>) {
    && |run| == |es| + 1 && run[0] == Split(INIT, 0)
    && forall k :: 0 <= k < |es| ==> CanStep(run[k], es[k]) && run[k + 1] == NextStep(run[k], es[k])
  }

  /** The one-step release is the two steps with nothing between them. */
  lemma ReleaseIsBothSteps(s: Psr, r: nat)
    ensures var cleared := NextStep(Split(s, 0), Clear(r));
      Split(Next(s, Release(r)), 0) == if cleared.arming > 0 then NextStep(cleared, Arm) else cleared
  {
  }

  // ---------------------------------------------------------------- when the split release is safe

  lemma ClearKeepsInv(s: Psr, r: nat)
    requires Inv(s)
    ensures Inv(s.(refs := s.refs - {r}))
  {
    var t := s.(refs := s.refs - {r});
    if HoldsDisplay(t) { var q :| q in t.refs && q != VBLANK_REF; assert q in s.refs; }
  }

  /** Arming keeps safety exactly when no reference is held at that moment. */
  lemma ArmExact(s: Psr)
    requires Inv(s)
    ensures Inv(s.(timer := true)) <==> s.refs == {}
    ensures DisplaySafe(s.(timer := true)) <==> s.refs == {}
  {
    var t := s.(timer := true);
    assert HoldsDisplay(t) <==> HoldsDisplay(s);
  }

  /** Every arming of a run finds the mask still empty. */
  predicate ArmsInTime(run: seq<Split>, es: seq<Step>)
    requires |run| == |es| + 1
  {
    forall k :: 0 <= k < |es| && es[k].Arm? ==> run[k].psr.refs == {}
  }

  lemma {:induction false} InTimeKeepsInv(run: seq<Split>, es: seq<Step>, k: nat)
    requires IsRun(run, es) && ArmsInTime(run, es) && k < |run|
    ensures Inv(run[k].psr)
  {
    if k > 0 {
      InTimeKeepsInv(run, es, k - 1);
      var s, e := run[k - 1].psr, es[k - 1];
      assert run[k] == NextStep(run[k - 1], e);
      match e
      case Other(e) => if IsEnvironment(e) { EnvironmentKeepsInv(s, e); } else { HolderKeepsInv(s, e); }
      case Clear(r) => ClearKeepsInv(s, r);
      case Arm => ArmExact(s);
    }
  }

  /** A run is display-safe throughout if and only if every release that arms the timer finds no reference held. */
  lemma SafeExact(run: seq<Split>, es: seq<Step>)
    requires IsRun(run, es)
    ensures (forall k :: 0 <= k < |run| ==> DisplaySafe(run[k].psr)) <==> ArmsInTime(run, es)
  {
    if ArmsInTime(run, es) {
      forall k | 0 <= k < |run| ensures DisplaySafe(run[k].psr) { InTimeKeepsInv(run, es, k); }
    } else {
      var k :| 0 <= k < |es| && es[k].Arm? && run[k].psr.refs != {};
      assert run[k + 1].psr == run[k].psr.(timer := true);
    }
  }

  // ---------------------------------------------------------------- a run that is not

  lemma Extend(run: seq<Split>, es: seq<Step>, e: Step) returns (run': seq<Split>, es': seq<Step>)
    requires IsRun(run, es) && CanStep(run[|es|], e)
    ensures IsRun(run', es') && es' == es + [e] && run'[|es'|] == NextStep(run[|es|], e)
    ensures run'[..|run|] == run
  {
    run', es' := run + [NextStep(run[|es|], e)], es + [e];
  }

  lemma {:induction false} ExtendAll(run: seq<Split>, es: seq<Step>, more: seq<Event>) returns (run': seq<Split>, es': seq<Step>)
    requires IsRun(run, es) && CanAll(run[|es|].psr, more) && forall e :: e in more ==> !e.Release?
    ensures IsRun(run', es') && es <= es' && run <= run'
    ensures run'[|es'|] == run[|es|].(psr := After(run[|es|].psr, more))
    decreases more
  {
    if more == [] {
      run', es' := run, es;
    } else {
      assert more[0] in more;
      run', es' := Extend(run, es, Other(more[0]));
      run', es' := ExtendAll(run', es', more[1..]);
    }
  }

  lemma {:induction false} NoReleases(k: nat)
    ensures forall e :: e in Sinking(k) ==> !e.Release?
  {
    if k > 0 { NoReleases(k - 1); }
  }

  /** A release clears the mask; a cursor reference is taken, and its request read, before the timer is armed. */
  lemma LateArm() returns (run: seq<Split>, es: seq<Step>)
    ensures IsRun(run, es) && es != [] && es[|es| - 1] == Arm && run[|es| - 1].psr.refs == {CURSOR_REF}
    ensures run[|es|] == Split(Psr(true, Inactive, {CURSOR_REF}, NONE, true, 0, Idle), 0)
  {
    run, es := [Split(INIT, 0)], [];
    run, es := Extend(run, es, Other(Enable(true)));
    run, es := Extend(run, es, Other(Acquire(FLIP_REF)));
    assert run[|es|].psr.refs == {FLIP_REF};
    run, es := Extend(run, es, Other(Begin));
    run, es := Extend(run, es, Clear(FLIP_REF));
    assert run[|es|].psr.refs == {};
    run, es := Extend(run, es, Other(Acquire(CURSOR_REF)));
    assert run[|es|].psr.refs == {CURSOR_REF};
    run, es := Extend(run, es, Other(Begin));
    run, es := Extend(run, es, Arm);
  }

  /** The timer then fires under the reference, and the panel comes to rest at DCLK_OFF. */
  lemma LateArmDarkens() returns (run: seq<Split>, es: seq<Step>)
    ensures IsRun(run, es) && !ArmsInTime(run, es)
    ensures var s := run[|es|].psr; s.mode.Idle? && s.state == DclkOff && s.pending == NONE && s.refs == {CURSOR_REF}
  {
    run, es := LateArm();
    var at := |es| - 1;
    assert es[at] == Arm && run[at].psr.refs == {CURSOR_REF};
    run, es := Extend(run, es, Other(TimerFires));
    run, es := Extend(run, es, Other(Begin));
    SinkFrom(run[|es|].psr, 5);
    NoReleases(5);
    run, es := ExtendAll(run, es, Sinking(5));
    assert es[at] == Arm && run[at].psr.refs == {CURSOR_REF};
  }
}
