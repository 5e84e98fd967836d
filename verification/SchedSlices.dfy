/** What one process gets from the scheduler: its priority, its slice and its turn. */
module SchedSlices {
  import opened Params
  import opened Lists
  import opened RunQueue
  import opened SchedState

  // ---------------------------------------------------------------- priorities and slices in numbers

  /** Five more for a process that never slept, one less for each 100 ticks of sleep, within [0, 39]. */
  function PriorityAfter(prio: nat, sleepAvg: nat): nat {
    var p := prio + 5 - sleepAvg / 100;
    if p < 0 then 0 else if p > 39 then 39 else p
  }

  lemma BonusExact(prio: nat, sleepAvg: nat)
    requires sleepAvg * MAX_BONUS < WORD
    ensures Recalculate(prio, sleepAvg) == PriorityAfter(prio, sleepAvg)
  {
    assert sleepAvg * 10 / 1000 == sleepAvg / 100;
  }

  /** The ticks of a fresh slice, half of task_timeslice. */
  function SliceTicks(prio: nat): nat
    requires prio < N_PRIORITY
  {
    if prio < 20 then 10 * (40 - prio) else 5 * (40 - prio) / 2
  }

  lemma SliceExact(prio: nat)
    requires prio < N_PRIORITY
    ensures SliceTicks(prio) == Timeslice(prio) / 2 && 2 <= SliceTicks(prio) <= 400
  {
    SliceOf(prio);
  }

  // ---------------------------------------------------------------- one reschedule

  /** A process that comes back: a new priority from its sleep, its sleep forgotten, and a fresh slice if the
      old one is spent. */
  function Refilled(x: Proc): (y: Proc)
    ensures y.prio < N_PRIORITY
  {
    var prio := Recalculate(x.prio, x.sleepAvg);
    x.(prio := prio, sleepAvg := 0, left := if x.left == 0 then SliceTicks(prio) else x.left)
  }

  lemma PutBackProcs(s: State, last: Option<nat>, x: nat)
    requires Core(s) && Leaving(s, last) && x in s.procs
    ensures var t := PutBack(s, last);
            && t.procs.Keys == s.procs.Keys && t.run == s.run && t.current == None && t.asleep == s.asleep
            && t.procs[x] == if last == Some(x) && s.procs[x].status == Runnable then
                               var to := if s.procs[x].left == 0 then 1 - s.run else s.run;
                               Refilled(s.procs[x]).(place := Queued(to))
                             else s.procs[x]
  {
    hide Sound, Placed;
    if last == Some(x) && s.procs[x].status == Runnable {
      SliceExact(Recalculate(s.procs[x].prio, s.procs[x].sleepAvg));
    }
  }

  lemma ChooseProcs(s: State, x: nat)
    requires Core(s) && s.current == None && x in s.procs
    ensures var t := Choose(s);
            && (t.current == Some(x) ==> s.procs[x].place == Queued(s.run))
            && t.procs.Keys == s.procs.Keys && t.asleep == s.asleep
            && t.procs[x] == if t.current == Some(x) then s.procs[x].(status := Running, place := Nowhere)
                             else s.procs[x]
  {
    hide Sound;
    FirstIsLeast(s.queues[s.run]);
    var f := FirstSet(s.queues[s.run].bits, 0);
    if f < N_PRIORITY {
      assert In(s.queues[s.run], s.queues[s.run].lists[f][0], f);
    }
  }

  lemma SwapProcs(s: State)
    requires Core(s)
    ensures Swap(s).procs == s.procs && Swap(s).asleep == s.asleep && Swap(s).queues == s.queues
    ensures Swap(s).current == s.current
  {
  }

  function Other(run: nat): nat {
    if run == 0 then 1 else 0
  }

  /** Process x after it has been put back, if it was the last one and is runnable. */
  ghost function Passed(s: State, last: Option<nat>, x: nat): Proc
    requires x in s.procs
  {
    if last == Some(x) && s.procs[x].status == Runnable
    then Refilled(s.procs[x]).(place := Queued(if s.procs[x].left == 0 then Other(s.run) else s.run))
    else s.procs[x]
  }

  /** A process as it runs, if it is the chosen one. */
  function Chosen(y: Proc, current: Option<nat>, x: nat): Proc {
    if current == Some(x) then y.(status := Running, place := Nowhere) else y
  }

  /** The process that gave up the CPU is refilled and queued, the chosen one runs, all others stay. */
  lemma RescheduleProcs(s: State, last: Option<nat>, x: nat)
    requires Core(s) && Leaving(s.(current := None), last) && x in s.procs
    ensures var t := Reschedule(s, last);
            && t.procs.Keys == s.procs.Keys && t.asleep == s.asleep
            && t.procs[x] == Chosen(Passed(s, last, x), t.current, x)
            && (t.current == Some(x) ==> Passed(s, last, x).place.Queued?)
  {
    hide PutBack, Swap, Choose, Refilled, Stated, Placed, Sound;
    CurrentCore(s, None);
    var s0 := s.(current := None);
    PutBackProcs(s0, last, x);
    SwapProcs(PutBack(s0, last));
    ChooseProcs(Swap(PutBack(s0, last)), x);
  }

  lemma RescheduleKeys(s: State, last: Option<nat>)
    requires Core(s) && Leaving(s.(current := None), last)
    ensures Reschedule(s, last).procs.Keys == s.procs.Keys
  {
    hide Placed, Sound, Stated, PutBack;
    CurrentCore(s, None);
    PutBackStated(s.(current := None), last);
    ChooseKeys(Swap(PutBack(s.(current := None), last)));
  }

  lemma ChooseKeys(s: State)
    requires Core(s)
    ensures Choose(s).procs.Keys == s.procs.Keys
  {
    hide Sound;
    FirstIsLeast(s.queues[s.run]);
    var f := FirstSet(s.queues[s.run].bits, 0);
    if f < N_PRIORITY {
      assert In(s.queues[s.run], s.queues[s.run].lists[f][0], f);
    }
  }

  // ---------------------------------------------------------------- one step

  /** How the current process gives up the CPU: the state just before the reschedule. */
  ghost function Leaves(s: State, status: Status): State
    requires s.current.Some? && s.current.value in s.procs
  {
    SetProc(s, s.current.value, s.procs[s.current.value].(status := status))
  }

  lemma LeaveProcs(s: State, status: Status, x: nat)
    requires Core(s) && Stated(s, s.current) && s.current.Some? && x in s.procs
    requires s.current.value in s.procs && s.procs[s.current.value].place == Nowhere
    requires status == Runnable || status == Zombie
    ensures var t, y := Leave(s, status), Passed(Leaves(s, status), s.current, x);
            && t.procs.Keys == s.procs.Keys && t.asleep == s.asleep && t.procs[x] == Chosen(y, t.current, x)
            && (t.current == Some(x) ==> y.place.Queued?)
  {
    hide Core, Stated, Leaving, Reschedule, Passed, Chosen;
    LeavesOff(s, status);
    RescheduleProcs(Leaves(s, status), s.current, x);
  }

  lemma LeavesOff(s: State, status: Status)
    requires Core(s) && Stated(s, s.current) && s.current.Some?
    requires s.current.value in s.procs && s.procs[s.current.value].place == Nowhere
    requires status == Runnable || status == Zombie
    ensures Core(Leaves(s, status)) && Leaving(Leaves(s, status).(current := None), s.current)
  {
    SetCore(s, s.current.value, s.procs[s.current.value].(status := status));
    hide Core;
  }

  ghost function FallsAsleep(s: State, ch: nat): State
    requires s.current.Some? && s.current.value in s.procs
  {
    var p := s.current.value;
    EnlistSleep(SetProc(s, p, s.procs[p].(status := Sleeping, sleepStart := s.jiffs)), p, ch)
  }

  lemma SleepProcs(s: State, ch: nat, x: nat)
    requires Core(s) && Stated(s, s.current) && s.current.Some? && s.current.value in s.procs && x in s.procs
    requires s.procs[s.current.value].place == Nowhere && s.procs[s.current.value].left > 0
    ensures var t, y := GoToSleep(s, ch), Passed(FallsAsleep(s, ch), s.current, x);
            && t.procs.Keys == s.procs.Keys && t.asleep == FallsAsleep(s, ch).asleep
            && t.procs[x] == Chosen(y, t.current, x) && (t.current == Some(x) ==> y.place.Queued?)
  {
    hide Core, Stated, Leaving, Reschedule, Passed, Chosen;
    FallsOff(s, ch);
    RescheduleProcs(FallsAsleep(s, ch), s.current, x);
  }

  lemma FallsOff(s: State, ch: nat)
    requires Core(s) && Stated(s, s.current) && s.current.Some? && s.current.value in s.procs
    requires s.procs[s.current.value].place == Nowhere && s.procs[s.current.value].left > 0
    ensures Core(FallsAsleep(s, ch)) && Leaving(FallsAsleep(s, ch).(current := None), s.current)
  {
    var p := s.current.value;
    var y := s.procs[p].(status := Sleeping, sleepStart := s.jiffs);
    SetCore(s, p, y);
    EnlistCore(SetProc(s, p, y), p, ch);
    hide Core;
  }

  /** One tick less, of the slice and of the sleep that still counts. */
  function Ticked(x: Proc): Proc
    requires x.left > 0
  {
    x.(sleepAvg := if x.sleepAvg > 0 then x.sleepAvg - 1 else 0, left := x.left - 1)
  }

  lemma CountedProc(s: State)
    requires Inv(s) && s.current.Some?
    ensures var p := s.current.value;
            && p in s.procs && s.procs[p].left > 0 && s.procs[p].status == Running && s.procs[p].place == Nowhere
            && CountTick(s).procs == s.procs[p := Ticked(s.procs[p])]
  {
    hide Core;
  }

  /** A tick in user mode: with ticks left in the slice only they change, otherwise the process gives up the
      CPU. */
  lemma TickProcs(s: State, x: nat)
    requires Inv(s) && s.current.Some? && x in s.procs
    ensures var t, p := TimerTick(s, true), s.current.value;
            && t.procs.Keys == s.procs.Keys && p in s.procs && s.procs[p].left > 0
            && (s.procs[p].left > 1 ==> t.procs == s.procs[p := Ticked(s.procs[p])] && t.current == s.current)
            && (s.procs[p].left == 1 ==>
                  t.procs[x] == Chosen(Passed(Leaves(CountTick(s), Runnable), s.current, x), t.current, x))
            && (t.current == Some(x) && s.current != Some(x) ==> s.procs[x].place.Queued?)
  {
    hide Core, Stated, Leave, CountTick, Chosen;
    CountedProc(s);
    CountOthers(s);
    if s.procs[s.current.value].left == 1 {
      LeaveProcs(CountTick(s), Runnable, x);
    }
  }

  /** Step a for process x, as far as its own record goes; `current` is who runs afterwards. */
  ghost function Effect(s: State, a: Step, current: Option<nat>, x: nat): Proc
    requires x in s.procs && (s.current.Some? ==> s.current.value in s.procs && s.procs[s.current.value].left > 0)
  {
    var w := s.procs[x];
    var acts := s.current == Some(x);
    match a
    case Spawn(_, _, _) => w
    case Fork(_) => if acts then w.(left := Half(w.left)) else w
    case Tick(user) =>
      if s.current.None? || !user then w
      else if s.procs[s.current.value].left > 1 then if acts then Ticked(w) else w
      else if acts then Chosen(Refilled(Ticked(w).(status := Runnable)).(place := Queued(Other(s.run))), current, x)
      else Chosen(w, current, x)
    case Yield =>
      if acts then Chosen(Refilled(w.(status := Runnable)).(place := Queued(s.run)), current, x)
      else Chosen(w, current, x)
    case Sleep(ch) =>
      if acts then w.(status := Sleeping, sleepStart := s.jiffs, place := Asleep(ch)) else Chosen(w, current, x)
    case Exit => if acts then w.(status := Zombie) else Chosen(w, current, x)
    case Wakeup(ch) => if w.place == Asleep(ch) then Woken(w, s.jiffs).(place := Queued(s.run)) else w
    case Kill(p) => if p == x && w.status == Sleeping then w.(status := Runnable, place := Queued(s.run)) else w
    case Idle => Chosen(w, current, x)
  }

  lemma CurrentLeft(s: State)
    requires Inv(s)
    ensures s.current.Some? ==> s.current.value in s.procs && s.procs[s.current.value].left > 0
  {
    CurrentRuns(s);
  }

  lemma {:induction false} WakeAllProcs(s: State, ch: nat, x: nat)
    requires Inv(s) && x in s.procs
    ensures var t := WakeAll(s, ch);
            && t.procs.Keys == s.procs.Keys && t.current == s.current
            && t.procs[x] == if s.procs[x].place == Asleep(ch) then Woken(s.procs[x], s.jiffs).(place := Queued(s.run))
                             else s.procs[x]
    decreases |SleepersOf(s, ch)|
  {
    hide Core, WakeOne, Woken;
    if SleepersOf(s, ch) != [] {
      HeadSleeps(s, ch);
      var p := SleepersOf(s, ch)[0];
      HeadLeft(s, p);
      WakeAllProcs(WakeOne(s, p), ch, x);
    } else {
      NoSleeper(s, ch, x);
    }
  }

  lemma NoSleeper(s: State, ch: nat, x: nat)
    requires Core(s) && x in s.procs && SleepersOf(s, ch) == []
    ensures s.procs[x].place != Asleep(ch)
  {
    hide Sound;
    assert x !in SleepersOf(s, ch);
  }

  /** Every step does to every process what Effect says. */
  lemma StepDoes(s: State, a: Step, x: nat)
    requires Inv(s) && Enabled(s, a) && x in s.procs
    ensures s.current.Some? ==> s.current.value in s.procs && s.procs[s.current.value].left > 0
    ensures var t := Apply(s, a); x in t.procs && t.procs[x] == Effect(s, a, t.current, x)
    ensures (a.Sleep? || a.Exit?) && s.current == Some(x) ==> Apply(s, a).current != Some(x)
    ensures Apply(s, a).current == Some(x) && s.current != Some(x) ==> s.procs[x].place.Queued?
  {
    hide Core, Stated, Leave, GoToSleep, WakeAll, KillOne, TimerTick, Reschedule, NewProcess, Halved, Refilled, Woken;
    CurrentLeft(s);
    CurrentRuns(s);
    OthersStated(s);
    InvRun(s);
    match a
    case Spawn(p, prio, left) =>
    case Fork(p) =>
    case Tick(user) =>
      if s.current.Some? && user {
        TickProcs(s, x);
        CountedProc(s);
        CountRun(s);
      } else {
        IdleTick(s, user);
      }
    case Yield => LeaveProcs(s, Runnable, x);
    case Sleep(ch) => SleepProcs(s, ch, x);
    case Exit => LeaveProcs(s, Zombie, x);
    case Wakeup(ch) => WakeAllProcs(s, ch, x);
    case Kill(p) =>
    case Idle =>
      IdleLeaving(s);
      RescheduleProcs(s, None, x);
  }

  lemma InvRun(s: State)
    requires Inv(s)
    ensures s.run < 2
  {
    hide Stated;
  }

  lemma CountRun(s: State)
    requires Inv(s) && s.current.Some?
    ensures CountTick(s).run == s.run < 2
  {
  }

  lemma IdleTick(s: State, user: bool)
    requires Inv(s) && (s.current.None? || !user)
    ensures TimerTick(s, user).procs == s.procs && TimerTick(s, user).current == s.current
  {
  }

  /** A new process is runnable in the run queue.  Parent and child share what the parent had left: half each,
      rounded down, but at least one tick. */
  lemma NewDoes(s: State, a: Step)
    requires Inv(s) && Enabled(s, a) && (a.Spawn? || a.Fork?)
    ensures a.Fork? ==> s.current.value in s.procs
    ensures var t := Apply(s, a);
            && t.procs.Keys == s.procs.Keys + {a.p} && t.current == s.current
            && (a.Spawn? ==> t.procs[a.p] == Proc(Runnable, a.prio, a.left, 0, 0, Queued(s.run)))
            && (a.Fork? ==>
                  var c := s.current.value;
                  var half := if s.procs[c].left == 1 then 1 else s.procs[c].left / 2;
                  && t.procs[a.p]
                     == Proc(Runnable, DEFAULT_USER_PRIO, half, s.procs[c].sleepAvg, 0, Queued(s.run))
                  && t.procs[c] == s.procs[c].(left := half))
  {
    hide Core, Stated, Leave, GoToSleep, WakeAll, KillOne, TimerTick, Reschedule, NewProcess, Halved;
    CurrentRuns(s);
  }

  // ---------------------------------------------------------------- slices over runs

  ghost predicate UserTick(s: State, a: Step, p: nat) {
    a == Tick(true) && s.current == Some(p)
  }

  /** The tick that spends p's slice. */
  ghost predicate Spends(s: State, a: Step, p: nat) {
    UserTick(s, a, p) && p in s.procs && s.procs[p].left == 1
  }

  /** How many ticks in user mode p gets in a run. */
  ghost function UserTicks(s: State, steps: seq<Step>, p: nat): nat
    requires Inv(s) && Legal(s, steps)
    decreases |steps|
  {
    if steps == [] then 0
    else
      StepInv(s, steps[0]);
      (if UserTick(s, steps[0], p) then 1 else 0) + UserTicks(Apply(s, steps[0]), steps[1..], p)
  }

  /** In the run p neither spends its slice nor shares it with a child. */
  ghost predicate KeepsSlice(s: State, steps: seq<Step>, p: nat)
    requires Inv(s) && Legal(s, steps)
    decreases |steps|
  {
    steps == [] ||
    (!Spends(s, steps[0], p) && !(steps[0].Fork? && s.current == Some(p))
     && (StepInv(s, steps[0]); KeepsSlice(Apply(s, steps[0]), steps[1..], p)))
  }

  /** All but the zombies have some of their slice. */
  lemma HasLeft(s: State, p: nat)
    requires Inv(s) && p in s.procs
    ensures s.procs[p].status != Zombie ==> s.procs[p].left > 0
  {
    hide Core;
  }

  /** A zombie stays one and never runs again. */
  lemma ZombieStep(s: State, a: Step, p: nat)
    requires Inv(s) && Enabled(s, a) && p in s.procs && s.procs[p].status == Zombie
    ensures p in Apply(s, a).procs && Apply(s, a).procs[p] == s.procs[p] && s.current != Some(p)
  {
    hide Inv, Apply;
    StepInv(s, a);
    ZombieRests(s, p);
    StepDoes(s, a, p);
  }

  lemma ZombieRests(s: State, p: nat)
    requires Inv(s) && p in s.procs
    ensures s.procs[p].status == Zombie ==> s.procs[p].place == Nowhere && s.current != Some(p)
    ensures s.current == Some(p) ==> s.procs[p].status == Running
  {
    hide Core;
  }

  lemma StepLeft(s: State, a: Step, p: nat)
    requires Inv(s) && Enabled(s, a) && p in s.procs && !Spends(s, a, p) && !(a.Fork? && s.current == Some(p))
    ensures p in Apply(s, a).procs
    ensures Apply(s, a).procs[p].left == s.procs[p].left - if UserTick(s, a, p) then 1 else 0
  {
    hide Inv, Apply;
    HasLeft(s, p);
    if s.procs[p].status == Zombie {
      ZombieStep(s, a, p);
    } else {
      StepDoes(s, a, p);
    }
  }

  /** Over every run in which p neither spends nor shares its slice, each of its ticks costs one, and nothing
      else does. */
  lemma {:induction false} SliceConserved(s: State, steps: seq<Step>, p: nat)
    requires Inv(s) && Legal(s, steps) && p in s.procs && KeepsSlice(s, steps, p)
    ensures p in Final(s, steps).procs && Final(s, steps).procs[p].left + UserTicks(s, steps, p) == s.procs[p].left
    decreases |steps|
  {
    hide Inv, Apply, Spends, Enabled;
    if steps != [] {
      StepInv(s, steps[0]);
      StepLeft(s, steps[0], p);
      SliceConserved(Apply(s, steps[0]), steps[1..], p);
    }
  }

  /** With its last tick a process gets a fresh slice, as long as its new priority says. */
  lemma SpendRefills(s: State, a: Step, p: nat)
    requires Inv(s) && Enabled(s, a) && Spends(s, a, p)
    ensures p in Apply(s, a).procs
    ensures var x, y := s.procs[p], Apply(s, a).procs[p];
            && y.prio == Recalculate(x.prio, if x.sleepAvg > 0 then x.sleepAvg - 1 else 0) < N_PRIORITY
            && y.left == SliceTicks(y.prio) && y.sleepAvg == 0
  {
    hide Inv, Apply, Recalculate, SliceTicks;
    StepDoes(s, a, p);
  }

  lemma {:induction false} UserTicksSnoc(s: State, steps: seq<Step>, b: Step, p: nat)
    requires Inv(s) && Legal(s, steps) && Inv(Final(s, steps)) && Enabled(Final(s, steps), b)
    ensures Legal(s, steps + [b])
    ensures UserTicks(s, steps + [b], p)
            == UserTicks(s, steps, p) + if UserTick(Final(s, steps), b, p) then 1 else 0
    decreases |steps|
  {
    hide Inv, Apply, Enabled, UserTick;
    if steps == [] {
      StepInv(s, b);
      assert steps + [b] == [b];
    } else {
      StepInv(s, steps[0]);
      assert (steps + [b])[1..] == steps[1..] + [b];
      UserTicksSnoc(Apply(s, steps[0]), steps[1..], b, p);
    }
  }

  /** Over every run: from the tick that spends a slice to the one that spends the next, if the process does not
      fork in between, it gets exactly the ticks of its priority in user mode, 10 * (40 - q) for q below 20 and
      half of 5 * (40 - q) from there on. */
  lemma FullSlice(s: State, a: Step, steps: seq<Step>, b: Step, p: nat)
    requires Inv(s) && Enabled(s, a) && Spends(s, a, p)
    requires Inv(Apply(s, a)) && Legal(Apply(s, a), steps) && KeepsSlice(Apply(s, a), steps, p)
    requires Enabled(Final(Apply(s, a), steps), b) && Spends(Final(Apply(s, a), steps), b, p)
    ensures Legal(Apply(s, a), steps + [b]) && p in Apply(s, a).procs
    ensures var q := Apply(s, a).procs[p].prio;
            && q < N_PRIORITY
            && UserTicks(Apply(s, a), steps + [b], p) == if q < 20 then 10 * (40 - q) else 5 * (40 - q) / 2
  {
    hide Inv, Apply, Legal, Final, KeepsSlice, UserTicks, Enabled;
    SpendRefills(s, a, p);
    SliceConserved(Apply(s, a), steps, p);
    RunInv(Apply(s, a), steps);
    UserTicksSnoc(Apply(s, a), steps, b, p);
  }

  /** Once a process has exited it stays a zombie and never runs again. */
  lemma {:induction false} ZombieStays(s: State, steps: seq<Step>, p: nat)
    requires Inv(s) && Legal(s, steps) && p in s.procs && s.procs[p].status == Zombie
    ensures var t := Final(s, steps); p in t.procs && t.procs[p] == s.procs[p] && t.current != Some(p)
    decreases |steps|
  {
    hide Inv, Apply, Enabled;
    ZombieRests(s, p);
    if steps != [] {
      StepInv(s, steps[0]);
      ZombieStep(s, steps[0], p);
      ZombieStays(Apply(s, steps[0]), steps[1..], p);
    }
  }
}
