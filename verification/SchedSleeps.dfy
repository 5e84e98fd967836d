/** What a sleep does to the priority of a process. */
module SchedSleeps {
  import opened Params
  import opened Lists
  import opened RunQueue
  import opened SchedState
  import opened SchedSlices

  // ---------------------------------------------------------------- the clock

  lemma RescheduleJiffs(s: State, last: Option<nat>)
    requires Core(s) && Leaving(s.(current := None), last)
    ensures Reschedule(s, last).jiffs == s.jiffs
  {
    hide Placed, Sound, Stated, PutBack, Swap, Choose;
    CurrentCore(s, None);
    PutBackJiffs(s.(current := None), last);
    ChooseJiffs(PutBack(s.(current := None), last));
  }

  lemma PutBackJiffs(s: State, last: Option<nat>)
    requires Core(s) && Leaving(s, last)
    ensures PutBack(s, last).jiffs == s.jiffs
  {
    hide Placed, Sound, Requeue;
  }

  lemma ChooseJiffs(s: State)
    requires Core(s)
    ensures Choose(Swap(s)).jiffs == s.jiffs
  {
    var q := Swap(s).queues[Swap(s).run];
    FirstIsLeast(q);
    var f := FirstSet(q.bits, 0);
    if f < N_PRIORITY {
      assert In(q, q.lists[f][0], f);
    }
  }

  lemma LeaveJiffs(s: State, status: Status)
    requires Core(s) && Stated(s, s.current) && s.current.Some?
    requires s.current.value in s.procs && s.procs[s.current.value].place == Nowhere
    requires status == Runnable || status == Zombie
    ensures Leave(s, status).jiffs == s.jiffs
  {
    hide Core, Stated, Leaving, Reschedule;
    LeavesOff(s, status);
    RescheduleJiffs(Leaves(s, status), s.current);
  }

  lemma SleepJiffs(s: State, ch: nat)
    requires Core(s) && Stated(s, s.current) && s.current.Some? && s.current.value in s.procs
    requires s.procs[s.current.value].place == Nowhere && s.procs[s.current.value].left > 0
    ensures GoToSleep(s, ch).jiffs == s.jiffs
  {
    hide Core, Stated, Leaving, Reschedule;
    FallsOff(s, ch);
    RescheduleJiffs(FallsAsleep(s, ch), s.current);
  }

  lemma TickJiffs(s: State, user: bool)
    requires Inv(s)
    ensures TimerTick(s, user).jiffs == s.jiffs + 1
  {
    hide Core, Leave;
    if s.current.Some? && user {
      CountedProc(s);
      CountOthers(s);
      if CountTick(s).procs[s.current.value].left == 0 {
        LeaveJiffs(CountTick(s), Runnable);
      }
    }
  }

  lemma {:induction false} WakeAllJiffs(s: State, ch: nat)
    requires Inv(s)
    ensures WakeAll(s, ch).jiffs == s.jiffs
    decreases |SleepersOf(s, ch)|
  {
    hide Core, WakeOne;
    if SleepersOf(s, ch) != [] {
      HeadSleeps(s, ch);
      var p := SleepersOf(s, ch)[0];
      HeadLeft(s, p);
      WakeAllJiffs(WakeOne(s, p), ch);
    }
  }

  lemma OthersJiffs(s: State, a: Step)
    requires Inv(s) && Enabled(s, a) && (a.Spawn? || a.Fork? || a.Kill?)
    ensures Apply(s, a).jiffs == s.jiffs
  {
    hide Core;
  }

  /** Time goes on by one with each tick, and with nothing else. */
  lemma StepJiffs(s: State, a: Step)
    requires Inv(s) && Enabled(s, a)
    ensures Apply(s, a).jiffs == s.jiffs + if a.Tick? then 1 else 0
  {
    hide Core, Stated, Leave, GoToSleep, WakeAll, KillOne, TimerTick, Reschedule, NewProcess, Halved;
    CurrentRuns(s);
    OthersStated(s);
    match a
    case Tick(user) => TickJiffs(s, user);
    case Yield => LeaveJiffs(s, Runnable);
    case Sleep(ch) => SleepJiffs(s, ch);
    case Exit => LeaveJiffs(s, Zombie);
    case Wakeup(ch) => WakeAllJiffs(s, ch);
    case Idle =>
      IdleLeaving(s);
      RescheduleJiffs(s, None);
    case _ => OthersJiffs(s, a);
  }

  // ---------------------------------------------------------------- sleeping

  /** Process p sleeps on ch throughout the run. */
  ghost predicate SleepsOn(s: State, steps: seq<Step>, p: nat, ch: nat)
    requires Inv(s) && Legal(s, steps)
    decreases |steps|
  {
    && p in s.procs && s.procs[p].place == Asleep(ch)
    && (steps == [] || (StepInv(s, steps[0]); SleepsOn(Apply(s, steps[0]), steps[1..], p, ch)))
  }

  function Ticks(steps: seq<Step>): nat {
    if steps == [] then 0 else (if steps[0].Tick? then 1 else 0) + Ticks(steps[1..])
  }

  lemma SleepStep(s: State, a: Step, p: nat, ch: nat)
    requires Inv(s) && Enabled(s, a) && p in s.procs && s.procs[p].place == Asleep(ch)
    requires p in Apply(s, a).procs && Apply(s, a).procs[p].place == Asleep(ch)
    ensures Apply(s, a).procs[p] == s.procs[p]
  {
    hide Inv, Apply;
    StepDoes(s, a, p);
    SleeperRests(s, p);
  }

  lemma SleeperRests(s: State, p: nat)
    requires Inv(s) && p in s.procs && s.procs[p].place.Asleep?
    ensures s.current != Some(p) && s.procs[p].status == Sleeping
  {
    hide Core;
  }

  lemma {:induction false} SleepRun(s: State, steps: seq<Step>, p: nat, ch: nat)
    requires Inv(s) && Legal(s, steps) && SleepsOn(s, steps, p, ch)
    ensures var t := Final(s, steps);
            p in t.procs && t.procs[p] == s.procs[p] && t.jiffs == s.jiffs + Ticks(steps)
    decreases |steps|
  {
    hide Inv, Apply, Enabled;
    if steps != [] {
      StepInv(s, steps[0]);
      StepJiffs(s, steps[0]);
      SleepStep(s, steps[0], p, ch);
      SleepRun(Apply(s, steps[0]), steps[1..], p, ch);
    }
  }

  lemma WokenExact(x: Proc, jiffs: nat, d: nat)
    requires jiffs == x.sleepStart + d && (x.sleepAvg + d) * MAX_BONUS < WORD
    ensures Woken(x, jiffs) == x.(status := Runnable, prio := PriorityAfter(x.prio, x.sleepAvg + d), sleepAvg := 0,
                                  sleepStart := 0, place := Nowhere)
  {
    hide Recalculate, PriorityAfter;
    BonusExact(x.prio, x.sleepAvg + d);
  }

  /** The current process p goes to sleep on ch and sleeps throughout the run that follows. */
  ghost predicate SleepsFrom(s: State, ch: nat, steps: seq<Step>, p: nat)
    requires Inv(s) && s.current == Some(p)
  {
    StepInv(s, Sleep(ch));
    var t := Apply(s, Sleep(ch));
    Legal(t, steps) && SleepsOn(t, steps, p, ch)
  }

  lemma Falls(s: State, ch: nat, steps: seq<Step>, p: nat)
    requires Inv(s) && s.current == Some(p) && SleepsFrom(s, ch, steps, p)
    ensures Enabled(s, Sleep(ch)) && Inv(Apply(s, Sleep(ch)))
    ensures Legal(Apply(s, Sleep(ch)), steps) && SleepsOn(Apply(s, Sleep(ch)), steps, p, ch)
    ensures Inv(Final(Apply(s, Sleep(ch)), steps))
  {
    hide Inv, Apply, Legal, SleepsOn, Final;
    StepInv(s, Sleep(ch));
    RunInv(Apply(s, Sleep(ch)), steps);
  }

  /** Its list is woken at the end of that run. */
  ghost function WakesFrom(s: State, ch: nat, steps: seq<Step>, p: nat): State
    requires Inv(s) && s.current == Some(p) && SleepsFrom(s, ch, steps, p)
  {
    hide Inv, Apply, Legal, SleepsOn, SleepsFrom, Final;
    Falls(s, ch, steps, p);
    Apply(Final(Apply(s, Sleep(ch)), steps), Wakeup(ch))
  }

  lemma {:induction false} WakeAllRun(s: State, ch: nat)
    requires Inv(s)
    ensures Apply(s, Wakeup(ch)).run == s.run
    decreases |SleepersOf(s, ch)|
  {
    hide Core, WakeOne;
    if SleepersOf(s, ch) != [] {
      HeadSleeps(s, ch);
      var p := SleepersOf(s, ch)[0];
      HeadLeft(s, p);
      WakeAllRun(WakeOne(s, p), ch);
    }
  }

  /** Over every run: a process that sleeps until its list is woken gains what each tick of its sleep is worth.  It
      is runnable again with the rest of its slice, and its new priority counts the average it had and the ticks it
      slept, as long as ten times their sum is a uint32_t. */
  lemma SleepCounts(s: State, ch: nat, steps: seq<Step>, p: nat)
    requires Inv(s) && s.current == Some(p) && p in s.procs && SleepsFrom(s, ch, steps, p)
    requires (s.procs[p].sleepAvg + Ticks(steps)) * MAX_BONUS < WORD
    ensures var u := WakesFrom(s, ch, steps, p);
            && p in u.procs
            && u.procs[p] == Proc(Runnable, PriorityAfter(s.procs[p].prio, s.procs[p].sleepAvg + Ticks(steps)),
                                  s.procs[p].left, 0, 0, Queued(u.run))
  {
    hide Inv, Apply, Legal, Final, SleepsOn, Ticks, PriorityAfter, Woken, SleepsFrom;
    Falls(s, ch, steps, p);
    var t0 := Apply(s, Sleep(ch));
    StepDoes(s, Sleep(ch), p);
    StepJiffs(s, Sleep(ch));
    SleepRun(t0, steps, p, ch);
    RunInv(t0, steps);
    var t := Final(t0, steps);
    StepDoes(t, Wakeup(ch), p);
    WakeAllRun(t, ch);
    WokenExact(t.procs[p], t.jiffs, Ticks(steps));
  }
}
