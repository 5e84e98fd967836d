/** The turns of processes of equal priority: first come, first served. */
module SchedTurns {
  import opened Params
  import opened Lists
  import opened RunQueue
  import opened SchedState

  /** The list of priority k in queue q. */
  ghost function ListAt(s: State, q: nat, k: nat): seq<nat>
    requires Core(s) && q < 2 && k < N_PRIORITY
  {
    s.queues[q].lists[k]
  }

  /** The only way out of a list is the choice of its head, and the only way in is behind its tail. */
  ghost predicate Advances(l: seq<nat>, l': seq<nat>, current: Option<nat>) {
    l <= l' || (l != [] && l[1..] <= l' && current == Some(l[0]))
  }

  lemma GrowsThenAdvances(l: seq<nat>, m: seq<nat>, l': seq<nat>, current: Option<nat>)
    requires l <= m && Advances(m, l', current)
    ensures Advances(l, l', current)
  {
    if l != [] && !(m <= l') {
      assert l[1..] <= m[1..];
    }
  }

  lemma RequeueGrows(s: State, p: nat, x: Proc, q: nat, r: nat, k: nat)
    requires Core(s) && p in s.procs && s.procs[p].place == Nowhere
    requires x.place == Nowhere && x.prio < N_PRIORITY && q < 2 && r < 2 && k < N_PRIORITY
    ensures var t := Requeue(s, p, x, q);
            ListAt(t, r, k) == if r == q && k == x.prio then ListAt(s, r, k) + [p] else ListAt(s, r, k)
  {
    hide Sound, Placed;
    SetCore(s, p, x);
  }

  lemma WakeGrows(s: State, p: nat, q: nat, k: nat)
    requires Core(s) && p in s.procs && s.procs[p].place.Asleep? && q < 2 && k < N_PRIORITY
    ensures ListAt(s, q, k) <= ListAt(WakeOne(s, p), q, k)
  {
    hide Sound, Placed, Requeue, Woken;
    UnlistCore(s, p);
    CoreSizes(s);
    RequeueGrows(Unlist(s, p), p, Woken(s.procs[p], s.jiffs), s.run, q, k);
  }

  lemma {:induction false} WakeAllGrows(s: State, ch: nat, q: nat, k: nat)
    requires Inv(s) && q < 2 && k < N_PRIORITY
    ensures Core(WakeAll(s, ch)) && ListAt(s, q, k) <= ListAt(WakeAll(s, ch), q, k)
    decreases |SleepersOf(s, ch)|
  {
    hide Core, WakeOne, ListAt;
    if SleepersOf(s, ch) != [] {
      HeadSleeps(s, ch);
      var p := SleepersOf(s, ch)[0];
      HeadLeft(s, p);
      WakeGrows(s, p, q, k);
      WakeAllGrows(WakeOne(s, p), ch, q, k);
    }
  }

  lemma KillGrows(s: State, p: nat, q: nat, k: nat)
    requires Inv(s) && q < 2 && k < N_PRIORITY
    ensures ListAt(s, q, k) <= ListAt(KillOne(s, p), q, k)
  {
    hide Sound, Placed, Requeue;
    if p in s.procs && s.procs[p].status == Sleeping {
      UnlistCore(s, p);
      CoreSizes(s);
      RequeueGrows(Unlist(s, p), p, Unlist(s, p).procs[p].(status := Runnable), s.run, q, k);
    }
  }

  lemma NewGrows(s: State, p: nat, prio: nat, left: nat, avg: nat, q: nat, k: nat)
    requires Core(s) && p !in s.procs && prio < N_PRIORITY && q < 2 && k < N_PRIORITY
    ensures ListAt(s, q, k) <= ListAt(NewProcess(s, p, prio, left, avg), q, k)
  {
    hide Sound, Placed, Requeue;
    var x := Proc(Runnable, prio, left, avg, 0, Nowhere);
    SetCore(s, p, x);
    CoreSizes(s);
    RequeueGrows(SetProc(s, p, x), p, x, s.run, q, k);
  }

  /** The process that comes back joins the tail of the list of its new priority. */
  lemma PutBackGrows(s: State, last: Option<nat>, q: nat, k: nat)
    requires Core(s) && Leaving(s, last) && q < 2 && k < N_PRIORITY
    ensures var t := PutBack(s, last);
            ListAt(t, q, k)
            == if last.Some? && s.procs[last.value].status == Runnable
                  && k == Recalculate(s.procs[last.value].prio, s.procs[last.value].sleepAvg)
                  && q == (if s.procs[last.value].left == 0 then 1 - s.run else s.run)
               then ListAt(s, q, k) + [last.value] else ListAt(s, q, k)
  {
    hide Sound, Placed, Requeue, Stated, Timeslice, Recalculate;
    CoreSizes(s);
    if last.Some? && s.procs[last.value].status == Runnable {
      var x := s.procs[last.value];
      RecalculateBounds(x.prio, x.sleepAvg, x.sleepAvg);
      var prio := Recalculate(x.prio, x.sleepAvg);
      var left := if x.left == 0 then Timeslice(prio) / 2 else x.left;
      RequeueGrows(s, last.value, x.(prio := prio, sleepAvg := 0, left := left),
                   if x.left == 0 then 1 - s.run else s.run, q, k);
    }
  }

  lemma ChooseAdvances(s: State, q: nat, k: nat)
    requires Core(s) && q < 2 && k < N_PRIORITY
    ensures Advances(ListAt(s, q, k), ListAt(Choose(s), q, k), Choose(s).current)
  {
    hide Sound, Placed;
    var b := s.queues[s.run];
    FirstIsLeast(b);
    var f := FirstSet(b.bits, 0);
    if f < N_PRIORITY {
      Queues(s, f);
    }
  }

  lemma Queues(s: State, f: nat)
    requires Core(s) && f < N_PRIORITY && s.queues[s.run].lists[f] != []
    ensures var p := s.queues[s.run].lists[f][0];
            p in s.procs && s.procs[p].place == Queued(s.run) && s.procs[p].prio == f
  {
    hide Sound;
    assert In(s.queues[s.run], s.queues[s.run].lists[f][0], f);
  }

  lemma RescheduleAdvances(s: State, last: Option<nat>, q: nat, k: nat)
    requires Core(s) && Leaving(s.(current := None), last) && q < 2 && k < N_PRIORITY
    ensures Advances(ListAt(s, q, k), ListAt(Reschedule(s, last), q, k), Reschedule(s, last).current)
  {
    hide Sound, Placed, Stated, PutBack, Choose;
    CurrentCore(s, None);
    var s0 := s.(current := None);
    PutBackGrows(s0, last, q, k);
    ChooseAdvances(Swap(PutBack(s0, last)), q, k);
    GrowsThenAdvances(ListAt(s, q, k), ListAt(PutBack(s0, last), q, k), ListAt(Reschedule(s, last), q, k),
                      Reschedule(s, last).current);
  }

  lemma LeaveAdvances(s: State, status: Status, q: nat, k: nat)
    requires Core(s) && Stated(s, s.current) && s.current.Some? && q < 2 && k < N_PRIORITY
    requires s.current.value in s.procs && s.procs[s.current.value].place == Nowhere
    requires status == Runnable || status == Zombie
    ensures Advances(ListAt(s, q, k), ListAt(Leave(s, status), q, k), Leave(s, status).current)
  {
    hide Sound, Placed, Reschedule;
    var p := s.current.value;
    var y := s.procs[p].(status := status);
    SetCore(s, p, y);
    RescheduleAdvances(SetProc(s, p, y), Some(p), q, k);
  }

  lemma SleepAdvances(s: State, ch: nat, q: nat, k: nat)
    requires Core(s) && Stated(s, s.current) && s.current.Some? && s.current.value in s.procs
    requires s.procs[s.current.value].place == Nowhere && s.procs[s.current.value].left > 0 && q < 2 && k < N_PRIORITY
    ensures Advances(ListAt(s, q, k), ListAt(GoToSleep(s, ch), q, k), GoToSleep(s, ch).current)
  {
    hide Sound, Placed, Reschedule;
    var p := s.current.value;
    var y := s.procs[p].(status := Sleeping, sleepStart := s.jiffs);
    SetCore(s, p, y);
    EnlistCore(SetProc(s, p, y), p, ch);
    RescheduleAdvances(EnlistSleep(SetProc(s, p, y), p, ch), Some(p), q, k);
  }

  lemma TickAdvances(s: State, user: bool, q: nat, k: nat)
    requires Inv(s) && q < 2 && k < N_PRIORITY
    ensures Core(TimerTick(s, user))
    ensures Advances(ListAt(s, q, k), ListAt(TimerTick(s, user), q, k), TimerTick(s, user).current)
  {
    hide Sound, Placed, Leave;
    TickInv(s, user);
    if s.current.Some? && user {
      CurrentRuns(s);
      CountOthers(s);
      if CountTick(s).procs[s.current.value].left == 0 {
        LeaveAdvances(CountTick(s), Runnable, q, k);
      }
    }
  }

  lemma ForkGrows(s: State, p: nat, q: nat, k: nat)
    requires Inv(s) && s.current.Some? && p !in s.procs && q < 2 && k < N_PRIORITY
    ensures Core(ForkProcess(s, p)) && ListAt(s, q, k) <= ListAt(ForkProcess(s, p), q, k)
  {
    hide Sound, Placed, Stated, NewProcess;
    CurrentRuns(s);
    var s1 := Halved(s);
    var x := s1.procs[s.current.value];
    NewGrows(s1, p, DEFAULT_USER_PRIO, x.left, x.sleepAvg, q, k);
  }

  /** Every step, every list: its head leaves when it is chosen, and newcomers join the tail. */
  lemma StepAdvances(s: State, a: Step, q: nat, k: nat)
    requires Inv(s) && Enabled(s, a) && q < 2 && k < N_PRIORITY
    ensures Core(Apply(s, a)) && Advances(ListAt(s, q, k), ListAt(Apply(s, a), q, k), Apply(s, a).current)
  {
    hide Core, Stated, Leave, GoToSleep, WakeAll, KillOne, TimerTick, Reschedule, NewProcess, ForkProcess, ListAt;
    CurrentRuns(s);
    OthersStated(s);
    match a
    case Spawn(p, prio, left) => NewGrows(s, p, prio, left, 0, q, k);
    case Fork(p) => ForkGrows(s, p, q, k);
    case Tick(user) => TickAdvances(s, user, q, k);
    case Yield => LeaveAdvances(s, Runnable, q, k);
    case Sleep(ch) => SleepAdvances(s, ch, q, k);
    case Exit => LeaveAdvances(s, Zombie, q, k);
    case Wakeup(ch) => WakeAllGrows(s, ch, q, k);
    case Kill(p) => KillGrows(s, p, q, k);
    case Idle =>
      IdleLeaving(s);
      RescheduleAdvances(s, None, q, k);
  }

  // ---------------------------------------------------------------- runs

  lemma AheadStays(l: seq<nat>, l': seq<nat>, current: Option<nat>, x: nat, y: nat)
    requires Advances(l, l', current) && Ahead(l, x, y)
    ensures Ahead(l', x, y) || current == Some(x)
  {
    var i, j :| 0 <= i < j < |l| && l[i] == x && l[j] == y;
    if l <= l' {
      assert l'[i] == x && l'[j] == y;
    } else if i > 0 {
      assert l'[i - 1] == l[1..][i - 1] && l'[j - 1] == l[1..][j - 1];
    }
  }

  lemma NewcomerBehind(l: seq<nat>, l': seq<nat>, current: Option<nat>, x: nat, y: nat)
    requires Advances(l, l', current) && x in l && y !in l && y in l'
    ensures Ahead(l', x, y) || current == Some(x)
  {
    var i :| 0 <= i < |l| && l[i] == x;
    var j :| 0 <= j < |l'| && l'[j] == y;
    if l <= l' {
      assert l'[i] == x && l == l'[..|l|];
    } else if i > 0 {
      assert l'[i - 1] == l[1..][i - 1] && l[1..] == l'[..|l| - 1];
    }
  }

  /** At some point of the run, its end left out, x has the CPU. */
  ghost predicate RanBefore(s: State, steps: seq<Step>, x: nat)
    requires Inv(s) && Legal(s, steps)
    decreases |steps|
  {
    steps != [] && (s.current == Some(x) || (StepInv(s, steps[0]); RanBefore(Apply(s, steps[0]), steps[1..], x)))
  }

  lemma QueuedRests(s: State, q: nat, k: nat, y: nat)
    requires Inv(s) && q < 2 && k < N_PRIORITY && y in ListAt(s, q, k)
    ensures s.current != Some(y)
  {
    InvQueues(s, q, k, y);
  }

  lemma AheadDiffer(s: State, q: nat, k: nat, x: nat, y: nat)
    requires Core(s) && q < 2 && k < N_PRIORITY && Ahead(ListAt(s, q, k), x, y)
    ensures x != y && y in ListAt(s, q, k)
  {
    hide Placed;
    var i, j :| 0 <= i < j < |ListAt(s, q, k)| && ListAt(s, q, k)[i] == x && ListAt(s, q, k)[j] == y;
  }

  lemma ChosenFirst(s: State, steps: seq<Step>, x: nat, y: nat)
    requires Inv(s) && Legal(s, steps) && s.current == Some(x) && x != y
    ensures Final(s, steps).current == Some(y) ==> RanBefore(s, steps, x)
  {
    hide Inv;
  }

  /** Over every run: of two processes in one list the first has the CPU before the second. */
  lemma {:induction false} TurnsInOrder(s: State, steps: seq<Step>, q: nat, k: nat, x: nat, y: nat)
    requires Inv(s) && Legal(s, steps) && q < 2 && k < N_PRIORITY && Ahead(ListAt(s, q, k), x, y)
    ensures Final(s, steps).current == Some(y) ==> RanBefore(s, steps, x)
    decreases |steps|
  {
    hide Apply, Core, Stated, Enabled, ListAt, Ahead;
    AheadDiffer(s, q, k, x, y);
    QueuedRests(s, q, k, y);
    if steps != [] {
      StepInv(s, steps[0]);
      StepAdvances(s, steps[0], q, k);
      var t := Apply(s, steps[0]);
      AheadStays(ListAt(s, q, k), ListAt(t, q, k), t.current, x, y);
      if Ahead(ListAt(t, q, k), x, y) {
        TurnsInOrder(t, steps[1..], q, k, x, y);
      } else {
        ChosenFirst(t, steps[1..], x, y);
      }
    }
  }

  /** Over every run: a process that joins a list, because its slice was spent, it yielded, it was woken or it is
      new, gets the CPU only after each process that was in the list before it. */
  lemma FirstComeFirstServed(s: State, a: Step, steps: seq<Step>, q: nat, k: nat, x: nat, y: nat)
    requires Inv(s) && Enabled(s, a) && q < 2 && k < N_PRIORITY && x in ListAt(s, q, k) && y !in ListAt(s, q, k)
    requires Inv(Apply(s, a)) && Legal(Apply(s, a), steps) && y in ListAt(Apply(s, a), q, k)
    ensures Final(Apply(s, a), steps).current == Some(y) ==> RanBefore(Apply(s, a), steps, x)
  {
    hide Apply, Core, Stated, Enabled, ListAt, Ahead;
    var t := Apply(s, a);
    StepAdvances(s, a, q, k);
    NewcomerBehind(ListAt(s, q, k), ListAt(t, q, k), t.current, x, y);
    QueuedRests(t, q, k, y);
    if Ahead(ListAt(t, q, k), x, y) {
      TurnsInOrder(t, steps, q, k, x, y);
    } else {
      ChosenFirst(t, steps, x, y);
    }
  }
}
