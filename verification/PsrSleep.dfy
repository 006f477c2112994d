/**
 When the panel sleeps: what keeps it asleep, when an idle panel is left lit all the same, and when failed
 activations turn PSR off for good. All of it over the machine of PsrMachine.
*/
module PsrSleep {
  import opened PsrMachine

  // ---------------------------------------------------------------- failed activations

  /** An attempt to activate the panel. */
  predicate Activates(s: Psr, e: Event) {
    e.Walk? && s.mode.Testing? && s.state == Transition && Depth(s.mode.dst) > Depth(Transition)
  }

  /** Failed activations less successful ones since PSR was last turned on, never below zero. */
  function Level(es: seq<Event>): nat
    requires Legal(es)
    decreases |es|
  {
    if es == [] then 0
    else
      var before, e := es[..|es| - 1], es[|es| - 1];
      var n := Level(before);
      if e.Enable? then 0
      else if !Activates(Exec(before), e) then n
      else if !e.ok then n + 1
      else if n > 0 then n - 1 else 0
  }

  /** Failed activations since PSR was last turned on. */
  function Failures(es: seq<Event>): nat
    requires Legal(es)
    decreases |es|
  {
    if es == [] then 0
    else
      var before, e := es[..|es| - 1], es[|es| - 1];
      if e.Enable? then 0 else Failures(before) + if Activates(Exec(before), e) && !e.ok then 1 else 0
  }

  /** Those of them since the last successful one. */
  function Streak(es: seq<Event>): nat
    requires Legal(es)
    decreases |es|
  {
    if es == [] then 0
    else
      var before, e := es[..|es| - 1], es[|es| - 1];
      if e.Enable? then 0
      else if Activates(Exec(before), e) then (if e.ok then 0 else Streak(before) + 1)
      else Streak(before)
  }

  lemma {:induction false} LevelBounds(es: seq<Event>)
    requires Legal(es)
    ensures Streak(es) <= Level(es) <= Failures(es) && Exec(es).fails == Level(es)
  {
    if es != [] {
      var before, e := es[..|es| - 1], es[|es| - 1];
      LevelBounds(before);
      RunKeepsInv(before);
      FailsStep(Exec(before), e);
    }
  }

  lemma FailsStep(s: Psr, e: Event)
    requires Inv(s) && Can(s, e)
    ensures Next(s, e).fails ==
      if e.Enable? then 0
      else if !Activates(s, e) then s.fails
      else if !e.ok then s.fails + 1
      else if s.fails > 0 then s.fails - 1 else 0
  {
  }

  /**
   A step that fails disables the panel, to be enabled again at once unless it was an activation and five
   more have failed than succeeded. Five failures in a row are enough for that, and fewer than five never are.
  */
  lemma GivenUp(es: seq<Event>)
    requires Legal(es) && es != [] && es[|es| - 1].Walk? && Exec(es).mode.Recovering?
    ensures var before, e := es[..|es| - 1], es[|es| - 1]; var failed := Activates(Exec(before), e);
      && Exec(es).state == Disabled && !e.ok
      && (!Exec(es).mode.reenable <==> failed && Level(es) >= 5)
      && (failed && Streak(es) >= 5 ==> !Exec(es).mode.reenable)
      && (!Exec(es).mode.reenable ==> Failures(es) >= 5)
  {
    var before, e := es[..|es| - 1], es[|es| - 1];
    LevelBounds(before);
    LevelBounds(es);
    RunKeepsInv(before);
  }

  // ---------------------------------------------------------------- deep sleep

  /** The panel is at IGA_OFF or DCLK_OFF and bound to stay there. */
  predicate Deep(s: Psr) {
    s.enabled && {s.state, Bound(s)} <= {IgaOff, DclkOff} && !s.pending.inactive
  }

  /** Only a display reference, or turning PSR off or resetting it, wakes a panel in deep sleep: a vblank reference and the timer do not. */
  lemma DeepKept(s: Psr, e: Event)
    requires Inv(s) && Can(s, e) && Deep(s) && !(e.Acquire? && e.r != VBLANK_REF) && !e.Disable? && !e.ResetDown?
    ensures Deep(Next(s, e))
  {
    if e.Walk? {
      var t := AfterStep(s, Depth(s.mode.dst) > Depth(s.state), e.ok);
      assert t.1 == Ok && t.0.state in {IgaOff, DclkOff};
    }
  }

  lemma {:induction false} DeepLasts(es: seq<Event>, n: nat)
    requires Legal(es) && n <= |es| && Legal(es[..n]) && Deep(Exec(es[..n]))
    requires forall e :: e in es[n..] ==> !(e.Acquire? && e.r != VBLANK_REF) && !e.Disable? && !e.ResetDown?
    ensures Deep(Exec(es))
    decreases |es|
  {
    if n == |es| {
      assert es[..n] == es;
    } else {
      var before, e := es[..|es| - 1], es[|es| - 1];
      LastEvent(es, n);
      DeepLasts(before, n);
      RunKeepsInv(before);
      DeepKept(Exec(before), e);
    }
  }

  // ---------------------------------------------------------------- an idle panel goes to sleep

  /** While PSR is on and no reference is held, something will send the panel to sleep: the timer, a request, or a walk under way or done. */
  predicate Drowsy(s: Psr) {
    s.enabled && s.refs == {} ==> s.timer || s.pending.active || Bound(s) == DclkOff
  }

  /**
   The event leaves an idle panel lit: with the timer not armed, the request word is read with a request for
   another state in it, which drops one for ACTIVE, or the panel is enabled with no request for ACTIVE.
  */
  predicate Strands(s: Psr, e: Event) {
    && s.refs == {} && !s.timer
    && match e
       case Begin => s.enabled && (s.pending.inactive || s.pending.leqIgaOff)
       case Fetch => s.pending.inactive || s.pending.leqIgaOff
       case Enable(ok) => s.state == Disabled && ok && !s.pending.active
       case Recover(ok) => s.mode.Recovering? && s.mode.reenable && ok && !s.pending.active
       case _ => false
  }

  lemma DrowsyExact(s: Psr, e: Event)
    requires Inv(s) && Can(s, e) && Drowsy(s)
    ensures Drowsy(Next(s, e)) <==> !Strands(s, e)
  {
  }

  /** From the `n`-th event on. */
  predicate StaysDrowsy(es: seq<Event>, n: nat)
    requires Legal(es)
    decreases |es|
  {
    Drowsy(Exec(es)) && (|es| > n ==> StaysDrowsy(es[..|es| - 1], n))
  }

  predicate NeverStrands(es: seq<Event>, n: nat)
    requires Legal(es)
    decreases |es|
  {
    |es| > n ==> !Strands(Exec(es[..|es| - 1]), es[|es| - 1]) && NeverStrands(es[..|es| - 1], n)
  }

  /** From any point of a run at which an idle panel is bound for sleep, it stays so if and only if no event strands it. */
  lemma {:induction false} SleepExact(es: seq<Event>, n: nat)
    requires Legal(es) && n <= |es| && Legal(es[..n]) && Drowsy(Exec(es[..n]))
    ensures StaysDrowsy(es, n) <==> NeverStrands(es, n)
    decreases |es|
  {
    if n == |es| {
      assert es[..n] == es;
    } else {
      var before, e := es[..|es| - 1], es[|es| - 1];
      LastEvent(es, n);
      SleepExact(before, n);
      RunKeepsInv(before);
      if Drowsy(Exec(before)) { DrowsyExact(Exec(before), e); }
      if StaysDrowsy(before, n) { assert Drowsy(Exec(before)); }
    }
  }

  /**
   A run that strands it: after PSR was turned on the timer is armed, but expires before the INACTIVE request
   is read; both requests are then read at once, and the panel rests lit with no reference held.
  */
  lemma IdleStaysLit() returns (es: seq<Event>, n: nat)
    ensures Legal(es) && n < |es| && Legal(es[..n]) && Drowsy(Exec(es[..n])) && Exec(es[..n]).timer
    ensures Exec(es) == Psr(true, Inactive, {}, NONE, false, 0, Idle) && !Drowsy(Exec(es))
  {
    es := [];
    es := Append(es, Enable(true));
    es := Append(es, Acquire(ENABLE_REF));
    assert Exec(es).refs == {ENABLE_REF};
    es := Append(es, Release(ENABLE_REF));
    assert Exec(es).refs == {};
    n := |es|;
    ghost var armed := es;
    es := Append(es, TimerFires);
    es := Append(es, Begin);
    assert es[..n] == armed;
  }
}
