/**
 The fence array: one fence that stands for several members. Enabling it walks the members and
 registers a callback on each; every callback and every member found signaled counts down one
 shared counter. The loop, the members and their callbacks interleave step by step here.
*/
module FenceArray {
  /** A member, as the array sees it. */
  datatype Phase =
    | Idle       // not reached by the enabling loop
    | Armed      // a callback is registered
    | Running    // signaled, its callback about to count down
    | Winning    // its callback counted to zero and is about to signal the array
    | Leaving    // its callback is about to drop the array reference
    | Gone       // its callback is finished
    | Refused    // found signaled by the loop, not yet counted
    | Counted    // found signaled and counted by the loop

  /** The enabling loop, at member `i`. */
  datatype Loop =
    | Head(i: nat) | Got(i: nat) | Failed(i: nat) | Dropped(i: nat)
    | Returned(willSignal: bool)

  datatype Array = Array(
    any: bool, signaled: seq<bool>, phases: seq<Phase>, pending: int, refs: int, loop: Loop, signals: nat)

  function Create(n: nat, any: bool): Array {
    Array(any, seq(n, i => false), seq(n, i => Idle), if any then 1 else n, 0, Head(0), 0)
  }

  datatype Step =
    | MemberSignals(i: nat)                          // a member's own fence is signaled
    | CountDown(i: nat) | SignalArray(i: nat) | Drop(i: nat)   // its callback
    | GetRef | AddCallback | PutRef | CountMember | Finish     // the enabling loop

  predicate At(s: Array, i: nat, p: Phase) { i < |s.phases| && s.phases[i] == p }

  predicate Can(s: Array, e: Step) {
    match e
    case MemberSignals(i) => i < |s.signaled| && i < |s.phases| && !s.signaled[i]
    case CountDown(i) => At(s, i, Running)
    case SignalArray(i) => At(s, i, Winning)
    case Drop(i) => At(s, i, Leaving)
    case GetRef => s.loop.Head? && s.loop.i < |s.phases|
    case AddCallback => s.loop.Got? && s.loop.i < |s.phases| && s.loop.i < |s.signaled|
    case PutRef => s.loop.Failed?
    case CountMember => s.loop.Dropped? && s.loop.i < |s.phases|
    case Finish => s.loop.Head? && s.loop.i == |s.phases|
  }

  function Next(s: Array, e: Step): Array
    requires Can(s, e)
  {
    match e
    case MemberSignals(i) =>
      s.(signaled := s.signaled[i := true],
         phases := if s.phases[i] == Armed then s.phases[i := Running] else s.phases)
    case CountDown(i) =>
      s.(pending := s.pending - 1, phases := s.phases[i := if s.pending == 1 then Winning else Leaving])
    case SignalArray(i) => s.(signals := s.signals + 1, phases := s.phases[i := Leaving])
    case Drop(i) => s.(refs := s.refs - 1, phases := s.phases[i := Gone])
    case GetRef => s.(refs := s.refs + 1, loop := Got(s.loop.i))
    case AddCallback =>
      var i := s.loop.i;
      if s.signaled[i] then s.(phases := s.phases[i := Refused], loop := Failed(i))
      else s.(phases := s.phases[i := Armed], loop := Head(i + 1))
    case PutRef => s.(refs := s.refs - 1, loop := Dropped(s.loop.i))
    case CountMember =>
      var i := s.loop.i;
      s.(pending := s.pending - 1, phases := s.phases[i := Counted],
         loop := if s.pending == 1 then Returned(false) else Head(i + 1))
    case Finish => s.(loop := Returned(true))
  }

  // ---------------------------------------------------------------- counting members

  function Sum(ps: seq<Phase>, w: Phase -> nat): nat {
    if ps == [] then 0 else w(ps[0]) + Sum(ps[1..], w)
  }

  lemma {:induction false} SumUpdate(ps: seq<Phase>, i: nat, p: Phase, w: Phase -> nat)
    requires i < |ps|
    ensures Sum(ps[i := p], w) + w(ps[i]) == Sum(ps, w) + w(p)
  {
    if i == 0 {
      assert ps[i := p][1..] == ps[1..];
    } else {
      assert ps[i := p][1..] == ps[1..][i - 1 := p];
      SumUpdate(ps[1..], i - 1, p, w);
    }
  }

  /** A sum of zeros and ones is zero, or the length, exactly when they all are. */
  lemma {:induction false} SumExtremes(ps: seq<Phase>, w: Phase -> nat)
    requires forall p :: w(p) <= 1
    ensures Sum(ps, w) <= |ps|
    ensures Sum(ps, w) == 0 <==> forall i :: 0 <= i < |ps| ==> w(ps[i]) == 0
    ensures Sum(ps, w) == |ps| <==> forall i :: 0 <= i < |ps| ==> w(ps[i]) == 1
  {
    if ps != [] {
      SumExtremes(ps[1..], w);
      assert forall i :: 0 < i < |ps| ==> ps[i] == ps[1..][i - 1];
      if forall i :: 0 <= i < |ps[1..]| ==> w(ps[1..][i]) == 0 {
        assert forall i :: 0 < i < |ps| ==> w(ps[i]) == 0;
      } else {
        var i :| 0 <= i < |ps[1..]| && w(ps[1..][i]) != 0;
        assert w(ps[i + 1]) != 0;
      }
      if forall i :: 0 <= i < |ps[1..]| ==> w(ps[1..][i]) == 1 {
        assert forall i :: 0 < i < |ps| ==> w(ps[i]) == 1;
      } else {
        var i :| 0 <= i < |ps[1..]| && w(ps[1..][i]) != 1;
        assert w(ps[i + 1]) != 1;
      }
    }
  }

  const COUNTED: Phase -> nat := p => if p in {Winning, Leaving, Gone, Counted} then 1 else 0
  const HOLDING: Phase -> nat := p => if p in {Armed, Running, Winning, Leaving} then 1 else 0
  const WINNING: Phase -> nat := p => if p == Winning then 1 else 0

  // ---------------------------------------------------------------- invariant

  function Start(s: Array): nat { if s.any then 1 else |s.phases| }

  function Done(s: Array): nat { Sum(s.phases, COUNTED) }

  /** Reports that the array is complete: made by a callback, about to be made by one, or made by the loop. */
  function Reports(s: Array): nat {
    s.signals + Sum(s.phases, WINNING) + if s.loop == Returned(false) then 1 else 0
  }

  predicate Shape(s: Array) {
    && |s.signaled| == |s.phases|
    && (s.loop.Head? ==> s.loop.i <= |s.phases|)
    && (s.loop.Got? || s.loop.Failed? || s.loop.Dropped? ==> s.loop.i < |s.phases|)
    && forall i :: 0 <= i < |s.phases| ==> MemberOk(s, i)
  }

  predicate MemberOk(s: Array, i: nat)
    requires i < |s.phases| == |s.signaled|
  {
    && (s.phases[i] == Armed ==> !s.signaled[i])
    && (s.phases[i] !in {Idle, Armed} ==> s.signaled[i])
    && (s.phases[i] == Refused <==> (s.loop.Failed? || s.loop.Dropped?) && s.loop.i == i)
    && (s.loop.Head? || s.loop.Got? ==> (s.phases[i] == Idle <==> s.loop.i <= i))
    && (s.loop.Failed? || s.loop.Dropped? ==> (s.phases[i] == Idle <==> s.loop.i < i))
    && (s.loop == Returned(true) ==> s.phases[i] != Idle)
  }

  predicate Inv(s: Array) {
    && Shape(s)
    && s.pending == Start(s) - Done(s)
    && s.refs == Sum(s.phases, HOLDING) + (if s.loop.Got? || s.loop.Failed? then 1 else 0)
    && Reports(s) == (if Done(s) > 0 && s.pending <= 0 then 1 else 0)
  }

  lemma {:induction false} CreateSums(n: nat, any: bool, w: Phase -> nat)
    requires w(Idle) == 0
    ensures Sum(Create(n, any).phases, w) == 0
  {
    if n > 0 {
      assert Create(n, any).phases[1..] == Create(n - 1, any).phases;
      CreateSums(n - 1, any, w);
    }
  }

  lemma CreateInv(n: nat, any: bool)
    ensures Inv(Create(n, any)) && Reports(Create(n, any)) == 0
  {
    CreateSums(n, any, COUNTED);
    CreateSums(n, any, HOLDING);
    CreateSums(n, any, WINNING);
  }

  /** The member a step is about, if it changes one. */
  function Member(s: Array, e: Step): nat {
    match e
    case MemberSignals(i) => i case CountDown(i) => i case SignalArray(i) => i case Drop(i) => i
    case _ => if s.loop.Returned? then 0 else s.loop.i
  }

  lemma StepShape(s: Array, e: Step)
    requires Shape(s) && Can(s, e)
    ensures Shape(Next(s, e))
  {
    var t := Next(s, e);
    forall j | 0 <= j < |t.phases| ensures MemberOk(t, j) {
      assert MemberOk(s, j);
      assert s.loop.Dropped? || s.loop.Failed? ==> MemberOk(s, s.loop.i);
    }
  }

  /** A step changes the phase of one member at most, and the counts by what that member counts. */
  lemma StepSums(s: Array, e: Step)
    requires Shape(s) && Can(s, e)
    ensures var t, i := Next(s, e), Member(s, e);
      if i < |s.phases| then
        && |t.phases| == |s.phases|
        && Sum(t.phases, COUNTED) == Sum(s.phases, COUNTED) - COUNTED(s.phases[i]) + COUNTED(t.phases[i])
        && Sum(t.phases, HOLDING) == Sum(s.phases, HOLDING) - HOLDING(s.phases[i]) + HOLDING(t.phases[i])
        && Sum(t.phases, WINNING) == Sum(s.phases, WINNING) - WINNING(s.phases[i]) + WINNING(t.phases[i])
      else t.phases == s.phases
  {
    var t, i := Next(s, e), Member(s, e);
    if i < |s.phases| {
      assert t.phases == s.phases[i := t.phases[i]];
      SumUpdate(s.phases, i, t.phases[i], COUNTED);
      SumUpdate(s.phases, i, t.phases[i], HOLDING);
      SumUpdate(s.phases, i, t.phases[i], WINNING);
    }
  }

  lemma StepInv(s: Array, e: Step)
    requires Inv(s) && Can(s, e)
    ensures Inv(Next(s, e))
  {
    StepShape(s, e);
    StepSums(s, e);
    if Member(s, e) < |s.phases| { assert MemberOk(s, Member(s, e)); }
  }

  // ---------------------------------------------------------------- whole runs

  /** The states of an array under any interleaving of its steps. */
  predicate IsRun(run: seq<Array>, es: seq<Step>, n: nat, any: bool) {
    && |run| == |es| + 1 && run[0] == Create(n, any)
    && forall k :: 0 <= k < |es| ==> Can(run[k], es[k]) && run[k + 1] == Next(run[k], es[k])
  }

  lemma {:induction false} RunInv(run: seq<Array>, es: seq<Step>, n: nat, any: bool, k: nat)
    requires IsRun(run, es, n, any) && k < |run|
    ensures Inv(run[k]) && run[k].any == any && |run[k].phases| == n
  {
    if k == 0 {
      CreateInv(n, any);
    } else {
      RunInv(run, es, n, any, k - 1);
      StepInv(run[k - 1], es[k - 1]);
    }
  }

  /** The array was reported complete, by a callback or by the loop's answer. */
  predicate Reported(s: Array) { s.signals > 0 || s.loop == Returned(false) }

  /**
   In every run, at every step: completion is reported at most once, by one side only, and never
   before all members (in signal-on-any mode: one member) have signaled; and the array references
   taken are those of the outstanding callbacks, but for one while the loop is registering.
  */
  lemma ReportedOnceAndNotEarly(run: seq<Array>, es: seq<Step>, n: nat, any: bool, k: nat)
    requires IsRun(run, es, n, any) && k < |run|
    ensures |run[k].signaled| == n
    ensures var s := run[k];
      && s.signals + (if s.loop == Returned(false) then 1 else 0) <= 1
      && (Reported(s) && any ==> exists i :: 0 <= i < n && s.signaled[i])
      && (Reported(s) && !any ==> forall i :: 0 <= i < n ==> s.signaled[i])
      && s.refs == Sum(s.phases, HOLDING) + (if s.loop.Got? || s.loop.Failed? then 1 else 0)
  {
    RunInv(run, es, n, any, k);
    var s := run[k];
    if Reported(s) {
      SumExtremes(s.phases, COUNTED);
      SumExtremes(s.phases, WINNING);
      if any {
        var i :| 0 <= i < n && COUNTED(s.phases[i]) != 0;
        assert MemberOk(s, i);
      } else {
        forall i | 0 <= i < n ensures s.signaled[i] { assert COUNTED(s.phases[i]) == 1 && MemberOk(s, i); }
      }
    }
  }

  /** The member has been counted down. */
  predicate Down(p: Phase) { p in {Winning, Leaving, Gone, Counted} }

  /**
   And not late: once all members (in signal-on-any mode: one member) have been counted down, completion
   is reported, or a callback is about to report it.
  */
  lemma ReportedInTime(run: seq<Array>, es: seq<Step>, n: nat, any: bool, k: nat)
    requires IsRun(run, es, n, any) && k < |run| && n > 0
    requires |run[k].phases| == n
    requires if any then exists i :: 0 <= i < n && Down(run[k].phases[i]) else forall i :: 0 <= i < n ==> Down(run[k].phases[i])
    ensures Reported(run[k]) || exists j :: 0 <= j < n && run[k].phases[j] == Winning
  {
    RunInv(run, es, n, any, k);
    var s := run[k];
    SumExtremes(s.phases, COUNTED);
    SumExtremes(s.phases, WINNING);
    if i :| any && 0 <= i < n && Down(s.phases[i]) { assert COUNTED(s.phases[i]) == 1; }
    assert !any ==> forall i :: 0 <= i < n ==> COUNTED(s.phases[i]) == 1;
    if j :| 0 <= j < n && WINNING(s.phases[j]) != 0 { assert s.phases[j] == Winning; }
  }

  /** Nothing is left to happen: the loop has returned, all members are signaled, no callback is under way. */
  predicate Quiet(s: Array) {
    && s.loop.Returned? && (forall i :: 0 <= i < |s.signaled| ==> s.signaled[i])
    && (forall i :: 0 <= i < |s.phases| ==> s.phases[i] in {Idle, Gone, Counted})
  }

  /** When everything has happened, completion was reported exactly once, and every reference was dropped; only an array of no members stays silent. */
  lemma QuietReported(run: seq<Array>, es: seq<Step>, n: nat, any: bool, k: nat)
    requires IsRun(run, es, n, any) && k < |run| && Quiet(run[k])
    ensures run[k].signals + (if run[k].loop == Returned(false) then 1 else 0) == if n > 0 then 1 else 0
    ensures run[k].refs == 0
  {
    RunInv(run, es, n, any, k);
    var s := run[k];
    SumExtremes(s.phases, COUNTED);
    SumExtremes(s.phases, HOLDING);
    SumExtremes(s.phases, WINNING);
    if n > 0 && s.loop == Returned(true) {
      forall i | 0 <= i < n ensures COUNTED(s.phases[i]) == 1 { assert MemberOk(s, i); }
    }
  }

  /** As long as something is left to happen, some step can: the protocol never blocks. */
  lemma NotQuietMoves(s: Array)
    requires Inv(s) && !Quiet(s)
    ensures exists e :: Can(s, e)
  {
    if !s.loop.Returned? {
      assert Can(s, GetRef) || Can(s, AddCallback) || Can(s, PutRef) || Can(s, CountMember) || Can(s, Finish);
    } else if i :| 0 <= i < |s.signaled| && !s.signaled[i] {
      assert Can(s, MemberSignals(i));
    } else {
      var i :| 0 <= i < |s.phases| && s.phases[i] !in {Idle, Gone, Counted};
      assert MemberOk(s, i);
      assert Can(s, CountDown(i)) || Can(s, SignalArray(i)) || Can(s, Drop(i));
    }
  }

  // ---------------------------------------------------------------- every run ends

  /** Steps a member's callback and the loop still have to take for it, at most. */
  const TODO: Phase -> nat := (p: Phase) =>
    match p
    case Idle => 5 case Armed => 3 case Running => 3 case Winning => 2 case Leaving => 1
    case Gone => 0 case Refused => 3 case Counted => 0

  function LoopTodo(l: Loop): nat {
    match l
    case Head(_) => 2 case Got(_) => 1 case Failed(_) => 2 case Dropped(_) => 1 case Returned(_) => 0
  }

  function Silent(signaled: seq<bool>): nat {
    if signaled == [] then 0 else (if signaled[0] then 0 else 1) + Silent(signaled[1..])
  }

  lemma {:induction false} SilentUpdate(signaled: seq<bool>, i: nat)
    requires i < |signaled| && !signaled[i]
    ensures Silent(signaled[i := true]) + 1 == Silent(signaled)
  {
    if i == 0 {
      assert signaled[0 := true][1..] == signaled[1..];
    } else {
      assert signaled[i := true][1..] == signaled[1..][i - 1 := true];
      SilentUpdate(signaled[1..], i - 1);
    }
  }

  function Rank(s: Array): nat { Silent(s.signaled) + Sum(s.phases, TODO) + LoopTodo(s.loop) }

  /** Every step leaves less to do. */
  lemma StepDescends(s: Array, e: Step)
    requires Shape(s) && Can(s, e)
    ensures Rank(Next(s, e)) < Rank(s)
  {
    var t, i := Next(s, e), Member(s, e);
    if e.MemberSignals? { SilentUpdate(s.signaled, i); }
    if i < |s.phases| {
      assert MemberOk(s, i);
      assert t.phases == s.phases[i := t.phases[i]];
      SumUpdate(s.phases, i, t.phases[i], TODO);
    }
  }

  lemma {:induction false} CreateRank(n: nat, any: bool)
    ensures Rank(Create(n, any)) == 6 * n + 2
  {
    if n > 0 {
      CreateRank(n - 1, any);
      var s, r := Create(n, any), Create(n - 1, any);
      assert s.phases[1..] == r.phases && s.signaled[1..] == r.signaled;
    }
  }

  lemma {:induction false} RunDescends(run: seq<Array>, es: seq<Step>, n: nat, any: bool, k: nat)
    requires IsRun(run, es, n, any) && k < |run|
    ensures k + Rank(run[k]) <= 6 * n + 2
  {
    if k == 0 {
      CreateRank(n, any);
    } else {
      RunDescends(run, es, n, any, k - 1);
      RunInv(run, es, n, any, k - 1);
      StepDescends(run[k - 1], es[k - 1]);
    }
  }

  /**
   Every run is bounded, and one that cannot go on has reported completion exactly once (an array of no
   members: never) and dropped every reference.
  */
  lemma EveryRunReports(run: seq<Array>, es: seq<Step>, n: nat, any: bool)
    requires IsRun(run, es, n, any)
    ensures |es| <= 6 * n + 2
    ensures var s := run[|es|];
      (forall e :: !Can(s, e)) ==>
        s.signals + (if s.loop == Returned(false) then 1 else 0) == (if n > 0 then 1 else 0) && s.refs == 0
  {
    RunDescends(run, es, n, any, |es|);
    RunInv(run, es, n, any, |es|);
    if forall e :: !Can(run[|es|], e) {
      if !Quiet(run[|es|]) { NotQuietMoves(run[|es|]); }
      QuietReported(run, es, n, any, |es|);
    }
  }

  /** The array's own test reads the counter: it holds once completion is reported, and for no members from the start. */
  lemma SignaledTest(run: seq<Array>, es: seq<Step>, n: nat, any: bool, k: nat)
    requires IsRun(run, es, n, any) && k < |run|
    ensures Reported(run[k]) ==> run[k].pending <= 0
    ensures run[k].pending <= 0 <==> (n == 0 && !any) || Reports(run[k]) == 1
  {
    RunInv(run, es, n, any, k);
    SumExtremes(run[k].phases, COUNTED);
  }
}
