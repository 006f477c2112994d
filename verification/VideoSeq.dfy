/**
 The allocator of video sequence indices: a search for a free index from where the last one stopped,
 once around; when every index is taken, all of them are given up and the numbering starts afresh.
*/
module VideoSeq {
  import opened Common

  const MIN: nat := 0
  const MAX: nat := 128

  predicate AllTaken(taken: seq<bool>) { forall i :: 0 <= i < |taken| ==> taken[i] }

  /** The first free index from `from` on, or the length. */
  function FirstFree(taken: seq<bool>, from: nat): (r: nat)
    requires from <= |taken|
    ensures from <= r <= |taken| && (forall i :: from <= i < r ==> taken[i]) && (r < |taken| ==> !taken[r])
    decreases |taken| - from
  {
    if from == |taken| || !taken[from] then from else FirstFree(taken, from + 1)
  }

  /** Going round from `start`, index `i` comes before `v`. */
  predicate Between(start: nat, i: nat, v: nat) { if start <= v then start <= i < v else start <= i || i < v }

  /** The next free index from `start`, once around: none that comes before it is free. */
  function Pick(taken: seq<bool>, start: nat): (r: Option<nat>)
    requires start <= |taken|
    ensures r.None? <==> AllTaken(taken)
    ensures r.Some? ==> r.value < |taken| && !taken[r.value]
    ensures r.Some? ==> forall i :: 0 <= i < |taken| && Between(start, i, r.value) ==> taken[i]
  {
    var a, b := FirstFree(taken, start), FirstFree(taken, 0);
    if a < |taken| then Some(a) else if b < |taken| then Some(b) else None
  }

  /** A grant: the index, the flags after it, and whether everything was given up for it. */
  datatype Grant = Grant(index: nat, taken: seq<bool>, reset: bool)

  function GrantOf(taken: seq<bool>, start: nat): (g: Grant)
    requires |taken| == MAX && start <= MAX
    ensures g.index < MAX && |g.taken| == MAX && g.taken[g.index] && (g.reset <==> AllTaken(taken))
    ensures forall i :: 0 <= i < MAX && i != g.index ==> g.taken[i] == (taken[i] && !g.reset)
  {
    match Pick(taken, start)
    case Some(v) => Grant(v, taken[v := true], false)
    case None => Grant(MIN, seq(MAX, i => i == MIN), true)
  }

  /** Where the next search starts: behind the index if a device took it, else at the index itself. */
  function NextStart(index: nat, device: bool): (r: nat)
    requires index < MAX
    ensures r < MAX
  {
    if device then (index + 1) % MAX else index
  }

  // ---------------------------------------------------------------- the adapter

  class Adapter {
    const taken: array<bool>
    var start: int
    var end: int

    ghost predicate Valid()
      reads this
    {
      taken.Length == MAX && MIN <= start < end == MAX
    }

    constructor ()
      ensures Valid() && fresh(taken) && start == MIN && forall i :: 0 <= i < MAX ==> !taken[i]
    {
      taken := new bool[MAX](i => false);
      start, end := MIN, MAX;
    }

    /** Take the index at `start`. */
    method TakeHere(device: bool) returns (value: int)
      requires Valid()
      modifies this, taken
      ensures Valid() && value == old(start) && start == NextStart(value, device)
      ensures taken[..] == old(taken[..])[value := true]
    {
      value := start;
      taken[start] := true;
      if device {
        start := (start + 1) % MAX;
        end := MAX;
      }
    }

    /** A query: at most two passes over the flags. */
    method Query(device: bool) returns (value: int)
      requires Valid()
      modifies this, taken
      ensures Valid()
      ensures var g := GrantOf(old(taken[..]), old(start));
        value == g.index && taken[..] == g.taken && start == NextStart(g.index, device)
    {
      var searchNum := 0;
      value := 0;
      ghost var first, flags := start, taken[..];
      while start < end
        invariant Valid() && taken[..] == flags && 0 <= searchNum <= 1
        invariant searchNum == 0 ==> first <= start && FirstFree(flags, first) == FirstFree(flags, start)
        invariant searchNum == 1 ==> FirstFree(flags, first) == MAX && FirstFree(flags, 0) == FirstFree(flags, start)
        decreases 2 - searchNum, end - start
      {
        if !taken[start] {
          value := TakeHere(device);
          break;
        }
        start := start + 1;
        if start == end {
          searchNum := searchNum + 1;
          end := start;
          start := MIN;
        }
        if searchNum == 2 {
          for i := MIN to MAX
            invariant forall j :: 0 <= j < i ==> !taken[j]
            invariant start == MIN && end == MAX
          {
            taken[i] := false;
          }
          start := MIN;
          value := TakeHere(device);
          break;
        }
      }
    }

    /** An index is given back; a number that is no index is ignored. */
    method Return(argu: int)
      requires Valid()
      modifies taken
      ensures Valid()
      ensures taken[..] == Freed(old(taken[..]), argu)
    {
      if argu >= MIN && argu < MAX {
        taken[argu] := false;
      }
    }
  }

  // ---------------------------------------------------------------- holders over a run

  /** Somebody who was given an index, in which numbering. The driver keeps no record of holders. */
  datatype Holder = Holder(index: nat, epoch: nat)

  datatype State = State(taken: seq<bool>, start: nat, epoch: nat, live: seq<Holder>)

  /** A query; a holder giving its index back and going; and any number given back by anybody. */
  datatype Event = Ask(device: bool) | GiveBack(k: nat) | Return(argu: int)

  predicate Ok(s: State) {
    |s.taken| == MAX && s.start < MAX && forall k :: 0 <= k < |s.live| ==> s.live[k].index < MAX
  }

  predicate Can(s: State, e: Event) { e.GiveBack? ==> e.k < |s.live| }

  /** The flags after a number was given back. */
  function Freed(taken: seq<bool>, argu: int): (t: seq<bool>)
    requires |taken| == MAX
    ensures |t| == MAX
  {
    if MIN <= argu < MAX then taken[argu := false] else taken
  }

  function Next(s: State, e: Event): (t: State)
    requires Ok(s) && Can(s, e)
    ensures Ok(t)
  {
    match e
    case Ask(device) =>
      var g := GrantOf(s.taken, s.start);
      var epoch := if g.reset then s.epoch + 1 else s.epoch;
      State(g.taken, NextStart(g.index, device), epoch, s.live + [Holder(g.index, epoch)])
    case GiveBack(k) =>
      s.(taken := Freed(s.taken, s.live[k].index), live := s.live[..k] + s.live[k + 1..])
    case Return(argu) => s.(taken := Freed(s.taken, argu))
  }

  function Init(): State { State(seq(MAX, i => false), MIN, 0, []) }

  predicate Current(s: State, k: nat)
    requires k < |s.live|
  {
    s.live[k].epoch == s.epoch
  }

  /** No two holders of the current numbering share an index, and what they hold is marked. */
  ghost predicate Exclusive(s: State)
    requires Ok(s)
  {
    && (forall k :: 0 <= k < |s.live| && Current(s, k) ==> s.taken[s.live[k].index])
    && (forall j, k :: 0 <= j < k < |s.live| && Current(s, j) && Current(s, k) ==> s.live[j].index != s.live[k].index)
    && (forall k :: 0 <= k < |s.live| ==> s.live[k].epoch <= s.epoch)
  }

  /** A query keeps it, whether or not it starts the numbering afresh. */
  lemma AskKeepsExclusive(s: State, device: bool)
    requires Ok(s) && Exclusive(s)
    ensures Exclusive(Next(s, Ask(device)))
  {
    var g, t := GrantOf(s.taken, s.start), Next(s, Ask(device));
    forall k | 0 <= k < |s.live| ensures t.live[k] == s.live[k] && (Current(t, k) <==> Current(s, k) && !g.reset) {}
  }

  /** A holder of the current numbering, other than the one who gives it back, has this index. */
  ghost predicate HeldByOther(s: State, argu: int, giver: int) {
    exists j :: 0 <= j < |s.live| && j != giver && Current(s, j) && s.live[j].index == argu
  }

  /** An event gives back an index that somebody else holds in the current numbering. */
  ghost predicate Clashes(s: State, e: Event)
    requires Can(s, e)
  {
    match e
    case Ask(_) => false
    case GiveBack(k) => HeldByOther(s, s.live[k].index, k)
    case Return(argu) => HeldByOther(s, argu, -1)
  }

  /** A holder who gives back its own index clashes only if it is from before a reset. */
  lemma OnlyStaleClash(s: State, k: nat)
    requires Ok(s) && Exclusive(s) && k < |s.live| && Clashes(s, GiveBack(k))
    ensures s.live[k].epoch < s.epoch
  {
  }

  /** The holders left, in their order. */
  lemma GoneOut(s: State, k: nat)
    requires Ok(s) && k < |s.live|
    ensures var t := Next(s, GiveBack(k));
      && |t.live| == |s.live| - 1 && t.epoch == s.epoch
      && forall i :: 0 <= i < |t.live| ==> t.live[i] == s.live[if i < k then i else i + 1]
  {
  }

  lemma GiveBackExact(s: State, k: nat)
    requires Ok(s) && Exclusive(s) && k < |s.live|
    ensures Exclusive(Next(s, GiveBack(k))) <==> !Clashes(s, GiveBack(k))
  {
    var t := Next(s, GiveBack(k));
    GoneOut(s, k);
    if Clashes(s, GiveBack(k)) {
      var j :| 0 <= j < |s.live| && j != k && Current(s, j) && s.live[j].index == s.live[k].index;
      var i := if j < k then j else j - 1;
      assert t.live[i] == s.live[j] && Current(t, i) && !t.taken[t.live[i].index];
    }
  }

  lemma ReturnExact(s: State, argu: int)
    requires Ok(s) && Exclusive(s)
    ensures Exclusive(Next(s, Return(argu))) <==> !Clashes(s, Return(argu))
  {
    var t := Next(s, Return(argu));
    forall k | 0 <= k < |s.live| ensures Current(t, k) == Current(s, k) {}
    if Clashes(s, Return(argu)) {
      var j :| 0 <= j < |s.live| && Current(s, j) && s.live[j].index == argu;
      assert Current(t, j) && !t.taken[t.live[j].index];
    }
  }

  /** Every step keeps holders exclusive if and only if it gives back nobody else's index. */
  lemma StepExact(s: State, e: Event)
    requires Ok(s) && Exclusive(s) && Can(s, e)
    ensures Exclusive(Next(s, e)) <==> !Clashes(s, e)
  {
    match e
    case Ask(device) => AskKeepsExclusive(s, device);
    case GiveBack(k) => GiveBackExact(s, k);
    case Return(argu) => ReturnExact(s, argu);
  }

  /** An index that is given back at once is given again by the next query, unless a device had it and another is free. */
  lemma GivenAgain(s: State, device: bool)
    requires Ok(s)
    ensures var v := GrantOf(s.taken, s.start).index; var t := Next(Next(s, Ask(device)), Return(v));
      GrantOf(t.taken, t.start).index == v <==> !device || forall i :: 0 <= i < MAX && i != v ==> t.taken[i]
  {
    var v := GrantOf(s.taken, s.start).index;
    var t := Next(Next(s, Ask(device)), Return(v));
    assert !t.taken[v] && !AllTaken(t.taken);
    var w := Pick(t.taken, t.start).value;
    if device {
      forall i | 0 <= i < MAX && i != v ensures Between(t.start, i, v) {}
    } else {
      assert w != v ==> Between(t.start, v, w);
    }
  }

  // ---------------------------------------------------------------- what a clash leads to

  function Free(taken: seq<bool>): (n: nat)
    ensures n <= |taken|
  {
    if taken == [] then 0 else Free(taken[1..]) + if taken[0] then 0 else 1
  }

  lemma {:induction false} FreeTake(taken: seq<bool>, i: nat)
    requires i < |taken| && !taken[i]
    ensures Free(taken[i := true]) + 1 == Free(taken)
  {
    if i == 0 {
      assert taken[0 := true][1..] == taken[1..];
    } else {
      assert taken[i := true][1..] == taken[1..][i - 1 := true];
      FreeTake(taken[1..], i - 1);
    }
  }

  /** `n` queries of devices, one after the other. */
  function AfterAsks(s: State, n: nat): (t: State)
    requires Ok(s)
    ensures Ok(t)
    decreases n
  {
    if n == 0 then s else AfterAsks(Next(s, Ask(true)), n - 1)
  }

  lemma AskTakes(s: State, i: nat)
    requires Ok(s) && i < MAX && !s.taken[i]
    ensures var g, t := GrantOf(s.taken, s.start), Next(s, Ask(true));
      && t.epoch == s.epoch && t.live == s.live + [Holder(g.index, s.epoch)]
      && Free(t.taken) + 1 == Free(s.taken) && (g.index != i ==> !t.taken[i])
  {
    FreeTake(s.taken, GrantOf(s.taken, s.start).index);
  }

  /** An index held in the current numbering but marked free is given out a second time within 128 queries, with no reset. */
  lemma {:induction false} FreedIsGivenAgain(s: State, j: nat) returns (n: nat)
    requires Ok(s) && j < |s.live| && Current(s, j) && !s.taken[s.live[j].index]
    ensures 0 < n <= Free(s.taken) <= MAX
    ensures var t := AfterAsks(s, n);
      && t.epoch == s.epoch && |t.live| == |s.live| + n
      && t.live[j] == s.live[j] && t.live[|t.live| - 1] == s.live[j]
    decreases Free(s.taken)
  {
    var g, t := GrantOf(s.taken, s.start), Next(s, Ask(true));
    AskTakes(s, s.live[j].index);
    assert AfterAsks(t, 0) == t;
    n := 1;
    if g.index != s.live[j].index {
      assert t.live[j] == s.live[j];
      n := FreedIsGivenAgain(t, j);
      assert AfterAsks(s, n + 1) == AfterAsks(t, n);
      n := n + 1;
    }
  }

  // ---------------------------------------------------------------- runs

  predicate Legal(s: State, events: seq<Event>)
    requires Ok(s)
    decreases |events|
  {
    events == [] || (Can(s, events[0]) && Legal(Next(s, events[0]), events[1..]))
  }

  function Run(s: State, events: seq<Event>): (t: State)
    requires Ok(s) && Legal(s, events)
    ensures Ok(t)
    decreases |events|
  {
    if events == [] then s else Run(Next(s, events[0]), events[1..])
  }

  ghost predicate AlwaysExclusive(s: State, events: seq<Event>)
    requires Ok(s) && Legal(s, events)
    decreases |events|
  {
    Exclusive(s) && (events != [] ==> AlwaysExclusive(Next(s, events[0]), events[1..]))
  }

  ghost predicate NeverClashes(s: State, events: seq<Event>)
    requires Ok(s) && Legal(s, events)
    decreases |events|
  {
    events != [] ==> !Clashes(s, events[0]) && NeverClashes(Next(s, events[0]), events[1..])
  }

  /** Holders of one numbering are exclusive throughout a run if and only if no index is given back that somebody else holds. */
  lemma {:induction false} RunExact(s: State, events: seq<Event>)
    requires Ok(s) && Exclusive(s) && Legal(s, events)
    ensures AlwaysExclusive(s, events) <==> NeverClashes(s, events)
    decreases |events|
  {
    if events != [] {
      StepExact(s, events[0]);
      if !Clashes(s, events[0]) { RunExact(Next(s, events[0]), events[1..]); }
    }
  }

  lemma RunCons(s: State, events: seq<Event>, t: State)
    requires Ok(s) && events != [] && Can(s, events[0]) && Next(s, events[0]) == t && Legal(t, events[1..])
    ensures Legal(s, events) && Run(s, events) == Run(t, events[1..])
  {
  }

  function Asks(n: nat): seq<Event> { seq(n, i => Ask(true)) }

  lemma AsksFirst(n: nat, rest: seq<Event>)
    requires n > 0
    ensures var events := Asks(n) + rest; events[0] == Ask(true) && events[1..] == Asks(n - 1) + rest
  {
  }

  /** The first `n` indices given to devices, in order. */
  function Filled(n: nat): (s: State)
    requires n <= MAX
    ensures Ok(s)
  {
    State(seq(MAX, i => i < n), n % MAX, 0, seq(n, (i: nat) => Holder(i, 0)))
  }

  lemma FillStep(n: nat)
    requires n < MAX
    ensures Next(Filled(n), Ask(true)) == Filled(n + 1)
  {
    assert FirstFree(Filled(n).taken, n) == n;
  }

  lemma {:induction false} FillRun(n: nat, rest: seq<Event>)
    requires n <= MAX && Legal(Filled(MAX), rest)
    ensures Legal(Filled(n), Asks(MAX - n) + rest) && Run(Filled(n), Asks(MAX - n) + rest) == Run(Filled(MAX), rest)
    decreases MAX - n
  {
    if n == MAX {
      assert Asks(0) + rest == rest;
    } else {
      FillStep(n);
      FillRun(n + 1, rest);
      AsksFirst(MAX - n, rest);
      RunCons(Filled(n), Asks(MAX - n) + rest, Filled(n + 1));
    }
  }

  /**
   A run in which two holders of the same numbering share an index: all are taken, a query resets and
   gives index 0, the holder of 0 from before gives it back, and the next query gives 0 again.
  */
  lemma StaleReturnShares()
    ensures var events := Asks(MAX) + [Ask(false), GiveBack(0), Ask(false)];
      Legal(Init(), events)
      && var s := Run(Init(), events);
         |s.live| == 129 && s.epoch == 1 && s.live[127] == s.live[128] == Holder(0, 1)
  {
    var full, tail := Filled(MAX), [Ask(false), GiveBack(0), Ask(false)];
    var a := Next(full, Ask(false));
    assert AllTaken(full.taken);
    var b := Next(a, GiveBack(0));
    assert a.live[0] == Holder(0, 0);
    assert FirstFree(b.taken, 0) == 0;
    var c := Next(b, Ask(false));
    assert tail[1..] == [GiveBack(0), Ask(false)] && tail[1..][1..] == [Ask(false)] && tail[1..][1..][1..] == [];
    assert Legal(b, [Ask(false)]) && Run(b, [Ask(false)]) == c;
    assert Legal(a, [GiveBack(0), Ask(false)]) && Run(a, [GiveBack(0), Ask(false)]) == c;
    assert Legal(full, tail) && Run(full, tail) == c;
    FillRun(0, tail);
    assert Filled(0) == Init();
  }

  /** And one in which a stranger brings it about, with no reset at all: index 0 is given, returned by somebody else, and given again. */
  lemma StrangersReturnShares()
    ensures var events := [Ask(false), Return(0), Ask(false)];
      Legal(Init(), events)
      && var s := Run(Init(), events); |s.live| == 2 && s.epoch == 0 && s.live[0] == s.live[1] == Holder(0, 0)
  {
    var a := Next(Init(), Ask(false));
    assert FirstFree(Init().taken, 0) == 0;
    var b := Next(a, Return(0));
    assert FirstFree(b.taken, 0) == 0;
    var c := Next(b, Ask(false));
    RunCons(b, [Ask(false)], c);
    RunCons(a, [Return(0), Ask(false)], b);
    RunCons(Init(), [Ask(false), Return(0), Ask(false)], a);
    assert [Ask(false), Return(0), Ask(false)][1..] == [Return(0), Ask(false)];
    assert [Return(0), Ask(false)][1..] == [Ask(false)];
  }
}
