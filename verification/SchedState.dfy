/** The processes of kern/sched.c as a state machine on one CPU. */
module SchedState {
  // With sleep, wakeup, kill and fork of kern/sysfunc.c; a reschedule is one step.

  import opened Params
  import opened Lists
  import opened RunQueue

  const DEFAULT_USER_PRIO: nat := 19

  datatype Status = Runnable | Running | Sleeping | Zombie

  /** Where kinds_list links a process: in a priority list, in a sleep list, or nowhere. */
  datatype Place = Nowhere | Queued(q: nat) | Asleep(ch: nat)

  datatype Proc = Proc(status: Status, prio: nat, left: nat, sleepAvg: nat, sleepStart: nat, place: Place)

  /** `run` is the index of run_queue; the other queue is exhausted_queue. */
  datatype State = State(queues: seq<Queue>, run: nat, procs: map<nat, Proc>, asleep: map<nat, seq<nat>>,
                         current: Option<nat>, jiffs: nat)

  datatype Step =
    | Spawn(p: nat, prio: nat, left: nat)    // the first process
    | Fork(p: nat)                           // clone, once the child has its pages
    | Tick(user: bool)                       // the timer, in user or in kernel mode
    | Yield
    | Sleep(ch: nat)
    | Exit
    | Wakeup(ch: nat)
    | Kill(p: nat)
    | Idle                       // the scheduler of an idle CPU looks again

  // ---------------------------------------------------------------- transitions

  function SleepersOf(s: State, ch: nat): seq<nat> {
    if ch in s.asleep then s.asleep[ch] else []
  }

  function SetProc(s: State, p: nat, x: Proc): State {
    s.(procs := s.procs[p := x])
  }

  /** add_proc_to_queue for process p. */
  function Enqueue(s: State, p: nat, q: nat): State
    requires p in s.procs && q < |s.queues| && s.procs[p].prio < |s.queues[q].bits|
    requires s.procs[p].prio < |s.queues[q].lists|
  {
    s.(queues := s.queues[q := Add(s.queues[q], p, s.procs[p].prio)],
       procs := s.procs[p := s.procs[p].(place := Queued(q))])
  }

  /** del_proc_fron_queue. */
  function Dequeue(s: State, p: nat): State
    requires p in s.procs && s.procs[p].place.Queued?
    requires var q := s.procs[p].place.q;
             q < |s.queues| && s.procs[p].prio < |s.queues[q].bits| && s.procs[p].prio < |s.queues[q].lists|
  {
    var q := s.procs[p].place.q;
    s.(queues := s.queues[q := Del(s.queues[q], p, s.procs[p].prio)],
       procs := s.procs[p := s.procs[p].(place := Nowhere)])
  }

  ghost predicate Shapes(s: State) {
    |s.queues| == 2 && s.run < 2 && Shape(s.queues[0]) && Shape(s.queues[1])
    && forall p :: p in s.procs ==>
         s.procs[p].prio < N_PRIORITY && (s.procs[p].place.Queued? ==> s.procs[p].place.q < 2)
  }

  // ---------------------------------------------------------------- invariant

  /** The lists hold exactly the processes that say so, so that no process is linked twice. */
  ghost predicate Placed(s: State) {
    && (forall q: nat, x: nat, p: nat {:trigger In(s.queues[q], x, p)} :: q < |s.queues| ==>
          (In(s.queues[q], x, p) <==> x in s.procs && s.procs[x].place == Queued(q) && s.procs[x].prio == p))
    && (forall ch: nat, x: nat {:trigger x in SleepersOf(s, ch)} ::
          x in SleepersOf(s, ch) <==> x in s.procs && s.procs[x].place == Asleep(ch))
    && (forall ch: nat :: Distinct(SleepersOf(s, ch)))
  }

  /** The status of a process says where it is; all but the running one have some of their slice left. */
  ghost predicate Stated(s: State, last: Option<nat>) {
    && (forall p :: p in s.procs && last != Some(p) ==>
          match s.procs[p].status
          case Runnable => s.procs[p].place.Queued? && s.procs[p].left > 0
          case Running => s.procs[p].place == Nowhere && s.procs[p].left > 0 && s.current == Some(p)
          case Sleeping => s.procs[p].place.Asleep? && s.procs[p].left > 0
          case Zombie => s.procs[p].place == Nowhere)
    && (s.current.Some? && s.current != last ==>
          s.current.value in s.procs && s.procs[s.current.value].status == Running)
  }

  ghost predicate Core(s: State) {
    Shapes(s) && Sound(s.queues[0]) && Sound(s.queues[1]) && Placed(s)
  }

  ghost predicate Inv(s: State) {
    Core(s) && Stated(s, None)
  }

  lemma EnqueueCore(s: State, p: nat, q: nat)
    requires Core(s) && p in s.procs && s.procs[p].place == Nowhere && q < 2
    ensures Core(Enqueue(s, p, q))
  {
    var s' := Enqueue(s, p, q);
    hide Sound;
    AddSound(s.queues[q], p, s.procs[p].prio);
    forall ch: nat ensures SleepersOf(s', ch) == SleepersOf(s, ch) {
    }
  }

  lemma DequeueCore(s: State, p: nat)
    requires Core(s) && p in s.procs && s.procs[p].place.Queued?
    ensures Core(Dequeue(s, p))
  {
    hide Sound, Del;
    var s' := Dequeue(s, p);
    var q := s.procs[p].place.q;
    assert In(s.queues[q], p, s.procs[p].prio);
    DelSound(s.queues[q], p, s.procs[p].prio);
    forall ch: nat ensures SleepersOf(s', ch) == SleepersOf(s, ch) {
    }
  }

  /** Fields other than place and priority do not matter to the lists; the priority may change for a process that
      is in no list. */
  lemma SetCore(s: State, p: nat, x: Proc)
    requires Core(s) && x.prio < N_PRIORITY
    requires if p in s.procs then x.place == s.procs[p].place && (x.prio == s.procs[p].prio || !x.place.Queued?)
             else x.place == Nowhere
    ensures Core(SetProc(s, p, x))
  {
    hide Sound;
    var s' := SetProc(s, p, x);
    forall ch: nat ensures SleepersOf(s', ch) == SleepersOf(s, ch) {
    }
  }

  /** Leaving a sleep list. */
  function Unlist(s: State, p: nat): State
    requires p in s.procs && s.procs[p].place.Asleep?
  {
    var ch := s.procs[p].place.ch;
    s.(asleep := s.asleep[ch := Without(SleepersOf(s, ch), p)], procs := s.procs[p := s.procs[p].(place := Nowhere)])
  }

  lemma UnlistCore(s: State, p: nat)
    requires Core(s) && p in s.procs && s.procs[p].place.Asleep?
    ensures Core(Unlist(s, p))
    ensures var ch := s.procs[p].place.ch;
            |SleepersOf(Unlist(s, p), ch)| == |SleepersOf(s, ch)| - 1 && p in SleepersOf(s, ch)
  {
    hide Sound;
    var ch := s.procs[p].place.ch;
    assert p in SleepersOf(s, ch);
    WithoutIs(SleepersOf(s, ch), p);
    var s' := Unlist(s, p);
    forall c: nat ensures SleepersOf(s', c) == if c == ch then Without(SleepersOf(s, ch), p) else SleepersOf(s, c) {
    }
  }

  function EnlistSleep(s: State, p: nat, ch: nat): State
    requires p in s.procs
  {
    s.(asleep := s.asleep[ch := SleepersOf(s, ch) + [p]], procs := s.procs[p := s.procs[p].(place := Asleep(ch))])
  }

  lemma EnlistCore(s: State, p: nat, ch: nat)
    requires Core(s) && p in s.procs && s.procs[p].place == Nowhere
    ensures Core(EnlistSleep(s, p, ch))
  {
    hide Sound;
    var s' := EnlistSleep(s, p, ch);
    assert p !in SleepersOf(s, ch);
    forall c: nat ensures SleepersOf(s', c) == if c == ch then SleepersOf(s, ch) + [p] else SleepersOf(s, c) {
    }
  }

  // ---------------------------------------------------------------- steps

  /** A process that was woken, with a new priority, joins the run queue. */
  ghost function Requeue(s: State, p: nat, x: Proc, q: nat): (s': State)
    requires Core(s) && p in s.procs && s.procs[p].place == Nowhere
    requires x.place == Nowhere && x.prio < N_PRIORITY && q < 2
    ensures Core(s') && s'.procs == s.procs[p := x.(place := Queued(q))]
    ensures s'.current == s.current && s'.run == s.run && s'.jiffs == s.jiffs
    ensures s'.asleep == s.asleep
  {
    SetCore(s, p, x);
    EnqueueCore(SetProc(s, p, x), p, q);
    Enqueue(SetProc(s, p, x), p, q)
  }

  /** A sleeper as wakeup1 leaves it, but for the queue. */
  ghost function Woken(x: Proc, jiffs: nat): (y: Proc)
    ensures y.prio < N_PRIORITY && y.place == Nowhere && y.status == Runnable && y.left == x.left
  {
    var avg := (x.sleepAvg + (jiffs - x.sleepStart) % WORD) % WORD;
    x.(status := Runnable, prio := Recalculate(x.prio, avg), sleepAvg := 0, sleepStart := 0, place := Nowhere)
  }

  /** One turn of the loop of wakeup1. */
  ghost function WakeOne(s: State, p: nat): (s': State)
    requires Core(s) && p in s.procs && s.procs[p].place.Asleep?
    ensures Core(s') && s'.current == s.current && s'.run == s.run && s'.procs.Keys == s.procs.Keys
    ensures forall x :: x in s.procs && x != p ==> s'.procs[x] == s.procs[x]
    ensures s'.procs[p] == Woken(s.procs[p], s.jiffs).(place := Queued(s.run)) && s'.jiffs == s.jiffs
    ensures var ch := s.procs[p].place.ch; |SleepersOf(s', ch)| == |SleepersOf(s, ch)| - 1
  {
    UnlistCore(s, p);
    Requeue(Unlist(s, p), p, Woken(s.procs[p], s.jiffs), s.run)
  }

  lemma WakeOneIs(s: State, p: nat)
    requires Core(s) && p in s.procs && s.procs[p].place.Asleep?
    ensures Woken(s.procs[p], s.jiffs).prio < N_PRIORITY && s.run < |s.queues| == 2
    ensures var s1 := SetProc(Unlist(s, p), p, Woken(s.procs[p], s.jiffs));
            Core(s1) && WakeOne(s, p) == Enqueue(s1, p, s.run)
  {
    hide Sound, Placed, Woken;
    UnlistCore(s, p);
    SetCore(Unlist(s, p), p, Woken(s.procs[p], s.jiffs));
  }

  lemma HeadSleeps(s: State, ch: nat)
    requires Core(s) && SleepersOf(s, ch) != []
    ensures SleepersOf(s, ch)[0] in s.procs && s.procs[SleepersOf(s, ch)[0]].place == Asleep(ch)
  {
    assert SleepersOf(s, ch)[0] in SleepersOf(s, ch);
  }

  /** wakeup1: the sleepers of the list from its head on. */
  ghost function WakeAll(s: State, ch: nat): State
    requires Core(s)
    decreases |SleepersOf(s, ch)|
  {
    if SleepersOf(s, ch) == [] then s
    else
      HeadSleeps(s, ch);
      WakeAll(WakeOne(s, SleepersOf(s, ch)[0]), ch)
  }

  ghost function KillOne(s: State, p: nat): (s': State)
    requires Core(s) && Stated(s, None)
    ensures Core(s') && s'.current == s.current && s'.run == s.run && s'.procs.Keys == s.procs.Keys
    ensures forall x :: x in s.procs && x != p ==> s'.procs[x] == s.procs[x]
    ensures p in s.procs ==> if s.procs[p].status != Sleeping then s' == s
                             else s'.procs[p] == s.procs[p].(status := Runnable, place := Queued(s.run))
  {
    if p in s.procs && s.procs[p].status == Sleeping then
      UnlistCore(s, p);
      var s1 := Unlist(s, p);
      Requeue(s1, p, s1.procs[p].(status := Runnable), s.run)
    else s
  }

  /** The first half of a reschedule: the process that ran goes back to a queue if it is still runnable, to the
      exhausted one when its slice is spent. */
  ghost function PutBack(s: State, last: Option<nat>): (s': State)
    requires Core(s)
    ensures Core(s')
  {
    if last.Some? && last.value in s.procs && s.procs[last.value].status == Runnable
       && !s.procs[last.value].place.Asleep? then
      var p := last.value;
      var s1 := if s.procs[p].place.Queued? then (DequeueCore(s, p); Dequeue(s, p)) else s;
      var x := s1.procs[p];
      RecalculateBounds(x.prio, x.sleepAvg, x.sleepAvg);
      var prio := Recalculate(x.prio, x.sleepAvg);
      var left := if x.left == 0 then Timeslice(prio) / 2 else x.left;
      Requeue(s1, p, x.(prio := prio, sleepAvg := 0, left := left), if x.left == 0 then 1 - s.run else s.run)
    else s
  }

  /** An empty run queue changes places with the exhausted one. */
  ghost function Swap(s: State): (s': State)
    requires Core(s)
    ensures Core(s')
  {
    if s.queues[s.run].n == 0 then
      var s' := s.(run := 1 - s.run);
      assert forall ch: nat :: SleepersOf(s', ch) == SleepersOf(s, ch);
      s'
    else s
  }

  /** The second half: the first process of the first list that is not empty. */
  ghost function Choose(s: State): (s': State)
    requires Core(s)
    ensures Core(s')
  {
    var q := s.queues[s.run];
    FirstIsLeast(q);
    var f := FirstSet(q.bits, 0);
    if f < N_PRIORITY then
      var p := q.lists[f][0];
      assert In(q, p, f);
      DequeueCore(s, p);
      var s1 := Dequeue(s, p);
      SetCore(s1, p, s1.procs[p].(status := Running));
      CurrentCore(SetProc(s1, p, s1.procs[p].(status := Running)), Some(p));
      SetProc(s1, p, s1.procs[p].(status := Running)).(current := Some(p))
    else
      CurrentCore(s, None);
      s.(current := None)
  }

  lemma CurrentCore(s: State, c: Option<nat>)
    requires Core(s)
    ensures Core(s.(current := c))
  {
    var s' := s.(current := c);
    assert forall ch: nat :: SleepersOf(s', ch) == SleepersOf(s, ch);
  }

  /** The choose-next part of scheduler, after `last` has given up the CPU. */
  ghost function Reschedule(s: State, last: Option<nat>): (s': State)
    requires Core(s)
    ensures Core(s')
  {
    CurrentCore(s, None);
    Choose(Swap(PutBack(s.(current := None), last)))
  }

  /** The process that gives up the CPU may be runnable, asleep or gone; no other runs. */
  ghost predicate Leaving(s: State, last: Option<nat>) {
    && s.current == None && Stated(s, last)
    && (last.Some? ==>
          last.value in s.procs
          && match s.procs[last.value].status
             case Runnable => s.procs[last.value].place == Nowhere
             case Running => false
             case Sleeping => s.procs[last.value].place.Asleep? && s.procs[last.value].left > 0
             case Zombie => s.procs[last.value].place == Nowhere)
  }

  lemma PutBackStated(s: State, last: Option<nat>)
    requires Core(s) && Leaving(s, last)
    ensures Stated(PutBack(s, last), None) && PutBack(s, last).current == None
    ensures PutBack(s, last).run == s.run && PutBack(s, last).procs.Keys == s.procs.Keys
    ensures last.Some? && s.procs[last.value].status == Runnable ==>
              PutBack(s, last).procs[last.value].place
              == Queued(if s.procs[last.value].left == 0 then 1 - s.run else s.run)
    ensures forall x :: x in s.procs && last != Some(x) ==> PutBack(s, last).procs[x] == s.procs[x]
  {
    hide Core;
    if last.Some? && s.procs[last.value].status == Runnable {
      SliceLeft(Recalculate(s.procs[last.value].prio, s.procs[last.value].sleepAvg));
    }
  }

  lemma SliceLeft(prio: nat)
    ensures Timeslice(prio) / 2 > 0
  {
  }

  lemma SwapStated(s: State)
    requires Core(s) && Stated(s, None) && s.current == None
    ensures Stated(Swap(s), None) && Swap(s).current == None && Swap(s).procs == s.procs
  {
    hide Core;
  }

  /** What the choice is: the first process of the least priority number in the run queue; nobody exactly when
      the queue is empty. */
  lemma ChooseStated(s: State)
    requires Core(s) && Stated(s, None) && s.current == None
    ensures Stated(Choose(s), None)
    ensures Choose(s).current == None <==> s.queues[s.run].n == 0
    ensures Choose(s).current.Some? ==>
              var p := Choose(s).current.value;
              && p in s.procs && s.procs[p].place == Queued(s.run)
              && forall x :: x in s.procs && s.procs[x].place == Queued(s.run) ==> s.procs[p].prio <= s.procs[x].prio
  {
    var q := s.queues[s.run];
    FirstIsLeast(q);
    var f := FirstSet(q.bits, 0);
    if f < N_PRIORITY {
      var p := q.lists[f][0];
      assert In(q, p, f);
      hide Sound;
      forall x | x in s.procs && s.procs[x].place == Queued(s.run) ensures f <= s.procs[x].prio {
        assert In(s.queues[s.run], x, s.procs[x].prio);
      }
    }
  }

  lemma RescheduleInv(s: State, last: Option<nat>)
    requires Core(s) && Leaving(s.(current := None), last)
    ensures Inv(Reschedule(s, last))
  {
    hide Core, Stated, PutBack, Swap, Choose;
    CurrentCore(s, None);
    var s0 := s.(current := None);
    PutBackStated(s0, last);
    SwapStated(PutBack(s0, last));
    ChooseStated(Swap(PutBack(s0, last)));
  }

  /** A reschedule picks a process of least priority number from the run queue.  One that waits in the exhausted
      queue, in particular one whose slice was just spent, is picked only when the run queue was empty. */
  lemma RescheduleFair(s: State, last: Option<nat>)
    requires Core(s) && Leaving(s.(current := None), last)
    ensures Core(s.(current := None))
    ensures var m := PutBack(s.(current := None), last); var t := Reschedule(s, last);
            && (t.current.Some? ==>
                  var p := t.current.value;
                  && p in m.procs && m.procs[p].place == Queued(t.run)
                  && (forall x :: x in m.procs && m.procs[x].place == Queued(t.run) ==>
                        m.procs[p].prio <= m.procs[x].prio)
                  && (m.procs[p].place == Queued(1 - s.run) ==> m.queues[s.run].n == 0)
                  && (last == Some(p) && s.procs[p].left == 0 ==> m.queues[s.run].n == 0))
            && (t.current.None? ==> m.queues[0].n == 0 && m.queues[1].n == 0)
  {
    hide Stated, Choose, Sound, Placed;
    CurrentCore(s, None);
    var s0 := s.(current := None);
    PutBackStated(s0, last);
    var m := PutBack(s0, last);
    SwapStated(m);
    ChooseStated(Swap(m));
    ChooseRun(Swap(m));
    StatedSome(Choose(Swap(m)));
    if last.Some? && last.value in s.procs {
      RunnableLast(s0, last, m);
    }
  }

  lemma ChooseRun(s: State)
    requires Core(s)
    ensures Choose(s).run == s.run
  {
    FirstIsLeast(s.queues[s.run]);
    hide Sound;
  }

  lemma StatedSome(s: State)
    requires Stated(s, None)
    ensures s.current.Some? ==> s.current.value in s.procs
  {
  }

  lemma RunnableLast(s0: State, last: Option<nat>, m: State)
    requires Core(s0) && Leaving(s0, last) && last.Some? && m == PutBack(s0, last)
    ensures last.value in m.procs
    ensures m.procs[last.value].place.Queued? ==> s0.procs[last.value].status == Runnable
  {
    PutBackStated(s0, last);
    hide Sound, Placed;
  }

  /** The current process gives up the CPU with a new status. */
  ghost function Leave(s: State, status: Status): (s': State)
    requires Core(s) && s.current.Some? && s.current.value in s.procs && s.procs[s.current.value].place == Nowhere
    ensures Core(s')
  {
    var p := s.current.value;
    SetCore(s, p, s.procs[p].(status := status));
    Reschedule(SetProc(s, p, s.procs[p].(status := status)), Some(p))
  }

  /** sleep. */
  ghost function GoToSleep(s: State, ch: nat): (s': State)
    requires Core(s) && s.current.Some? && s.current.value in s.procs && s.procs[s.current.value].place == Nowhere
    ensures Core(s')
  {
    var p := s.current.value;
    var x := s.procs[p].(status := Sleeping, sleepStart := s.jiffs);
    SetCore(s, p, x);
    EnlistCore(SetProc(s, p, x), p, ch);
    Reschedule(EnlistSleep(SetProc(s, p, x), p, ch), Some(p))
  }

  lemma JiffsCore(s: State, j: nat)
    requires Core(s)
    ensures Core(s.(jiffs := j))
  {
    var s' := s.(jiffs := j);
    assert forall ch: nat :: SleepersOf(s', ch) == SleepersOf(s, ch);
  }

  lemma CurrentRuns(s: State)
    requires Inv(s)
    ensures s.current.Some? ==> s.current.value in s.procs && s.procs[s.current.value].status == Running
                                && s.procs[s.current.value].place == Nowhere && s.procs[s.current.value].left > 0
  {
    hide Core;
  }

  /** A tick is counted for the current process. */
  ghost function CountTick(s: State): (s': State)
    requires Inv(s) && s.current.Some?
    ensures Core(s') && s'.current == s.current && s'.run == s.run && s'.procs.Keys == s.procs.Keys
    ensures s.current.value in s.procs && s'.procs[s.current.value].place == Nowhere
    ensures s'.procs[s.current.value].status == Running
    ensures forall x :: x in s.procs && x != s.current.value ==> s'.procs[x] == s.procs[x]
  {
    JiffsCore(s, s.jiffs + 1);
    CurrentRuns(s);
    var p := s.current.value;
    var x := s.procs[p];
    var x' := x.(sleepAvg := if x.sleepAvg > 0 then x.sleepAvg - 1 else 0, left := x.left - 1);
    SetCore(s.(jiffs := s.jiffs + 1), p, x');
    SetProc(s.(jiffs := s.jiffs + 1), p, x')
  }

  /** The timer interrupt; only a process in user mode pays for it. */
  ghost function TimerTick(s: State, user: bool): State
    requires Inv(s)
  {
    if s.current.None? || !user then s.(jiffs := s.jiffs + 1)
    else
      var s1 := CountTick(s);
      if s1.procs[s.current.value].left == 0 then Leave(s1, Runnable) else s1
  }

  ghost function NewProcess(s: State, p: nat, prio: nat, left: nat, avg: nat): (s': State)
    requires Core(s) && p !in s.procs && prio < N_PRIORITY
    ensures Core(s') && s'.current == s.current && s'.run == s.run
    ensures s'.procs == s.procs[p := Proc(Runnable, prio, left, avg, 0, Queued(s.run))]
  {
    var x := Proc(Runnable, prio, left, avg, 0, Nowhere);
    SetCore(s, p, x);
    Requeue(SetProc(s, p, x), p, x, s.run)
  }

  /** dup_proc_struct: parent and child get half of what the parent has left, but not less than one tick. */
  function Half(left: nat): nat {
    if left / 2 == 0 then 1 else left / 2
  }

  ghost function Halved(s: State): (s': State)
    requires Inv(s) && s.current.Some?
    ensures Core(s') && s'.current == s.current && s'.run == s.run
    ensures s'.procs.Keys == s.procs.Keys && s.current.value in s.procs
    ensures var p := s.current.value; s'.procs == s.procs[p := s.procs[p].(left := Half(s.procs[p].left))]
  {
    CurrentRuns(s);
    var c := s.current.value;
    SetCore(s, c, s.procs[c].(left := Half(s.procs[c].left)));
    SetProc(s, c, s.procs[c].(left := Half(s.procs[c].left)))
  }

  ghost function ForkProcess(s: State, p: nat): State
    requires Inv(s) && s.current.Some? && p !in s.procs
  {
    var s1 := Halved(s);
    var x := s1.procs[s.current.value];
    NewProcess(s1, p, DEFAULT_USER_PRIO, x.left, x.sleepAvg)
  }

  ghost predicate Enabled(s: State, a: Step) {
    match a
    case Spawn(p, prio, left) => p !in s.procs && prio < N_PRIORITY && left > 0
    case Fork(p) => p !in s.procs && s.current.Some?
    case Tick(_) => true
    case Yield => s.current.Some?
    case Sleep(_) => s.current.Some?
    case Exit => s.current.Some?
    case Wakeup(_) => true
    case Kill(_) => true
    case Idle => s.current.None?
  }

  ghost function Apply(s: State, a: Step): State
    requires Inv(s) && Enabled(s, a)
  {
    CurrentRuns(s);
    match a
    case Spawn(p, prio, left) => NewProcess(s, p, prio, left, 0)
    case Fork(p) => ForkProcess(s, p)
    case Tick(user) => TimerTick(s, user)
    case Yield => Leave(s, Runnable)
    case Sleep(ch) => GoToSleep(s, ch)
    case Exit => Leave(s, Zombie)
    case Wakeup(ch) => WakeAll(s, ch)
    case Kill(p) => KillOne(s, p)
    case Idle => Reschedule(s, None)
  }

  lemma {:induction false} WakeAllInv(s: State, ch: nat)
    requires Inv(s)
    ensures Inv(WakeAll(s, ch)) && SleepersOf(WakeAll(s, ch), ch) == []
    ensures WakeAll(s, ch).current == s.current
    decreases |SleepersOf(s, ch)|
  {
    hide Core, WakeOne;
    if SleepersOf(s, ch) != [] {
      HeadSleeps(s, ch);
      var s1 := WakeOne(s, SleepersOf(s, ch)[0]);
      HeadLeft(s, SleepersOf(s, ch)[0]);
      WakeAllInv(s1, ch);
    }
  }

  lemma HeadLeft(s: State, p: nat)
    requires Inv(s) && p in s.procs && s.procs[p].place.Asleep?
    ensures s.procs[p].left > 0 && s.procs[p].status == Sleeping && s.current != Some(p)
  {
    hide Core;
  }

  lemma LeaveInv(s: State, status: Status)
    requires Core(s) && Stated(s, s.current) && s.current.Some?
    requires s.current.value in s.procs && s.procs[s.current.value].place == Nowhere
    requires status == Runnable || status == Zombie
    ensures Inv(Leave(s, status))
  {
    var p := s.current.value;
    var x := s.procs[p].(status := status);
    SetCore(s, p, x);
    hide Core, Reschedule;
    RescheduleInv(SetProc(s, p, x), Some(p));
  }

  lemma SleepInv(s: State, ch: nat)
    requires Core(s) && Stated(s, s.current) && s.current.Some? && s.current.value in s.procs
    requires s.procs[s.current.value].place == Nowhere && s.procs[s.current.value].left > 0
    ensures Inv(GoToSleep(s, ch))
  {
    var p := s.current.value;
    var x := s.procs[p].(status := Sleeping, sleepStart := s.jiffs);
    SetCore(s, p, x);
    EnlistCore(SetProc(s, p, x), p, ch);
    hide Core, Reschedule;
    RescheduleInv(EnlistSleep(SetProc(s, p, x), p, ch), Some(p));
  }

  lemma OthersStated(s: State)
    requires Stated(s, None)
    ensures Stated(s, s.current)
  {
  }

  lemma TickInv(s: State, user: bool)
    requires Inv(s)
    ensures Inv(TimerTick(s, user))
  {
    JiffsCore(s, s.jiffs + 1);
    hide Core, Leave;
    if s.current.Some? && user {
      var s1 := CountTick(s);
      if s1.procs[s.current.value].left == 0 {
        LeaveInv(s1, Runnable);
      }
    }
  }

  lemma KillInv(s: State, p: nat)
    requires Inv(s)
    ensures Inv(KillOne(s, p))
  {
    hide Core, KillOne;
  }

  lemma SpawnInv(s: State, p: nat, prio: nat, left: nat, avg: nat)
    requires Inv(s) && p !in s.procs && prio < N_PRIORITY && left > 0
    ensures Inv(NewProcess(s, p, prio, left, avg))
  {
    hide Core, NewProcess;
    CurrentRuns(s);
  }

  lemma ForkInv(s: State, p: nat)
    requires Inv(s) && s.current.Some? && p !in s.procs
    ensures Inv(ForkProcess(s, p))
  {
    CurrentRuns(s);
    var s1 := Halved(s);
    assert Inv(s1) by {
      hide Core;
    }
    hide Inv, Core;
    var x := s1.procs[s.current.value];
    SpawnInv(s1, p, DEFAULT_USER_PRIO, x.left, x.sleepAvg);
  }

  lemma StepInv(s: State, a: Step)
    requires Inv(s) && Enabled(s, a)
    ensures Inv(Apply(s, a))
  {
    CurrentRuns(s);
    OthersStated(s);
    hide Core, Stated, Leave, GoToSleep, WakeAll, KillOne, TimerTick, NewProcess, ForkProcess, Reschedule;
    match a
    case Spawn(p, prio, left) => SpawnInv(s, p, prio, left, 0);
    case Fork(p) => ForkInv(s, p);
    case Tick(user) => TickInv(s, user);
    case Yield => LeaveInv(s, Runnable);
    case Sleep(ch) => SleepInv(s, ch);
    case Exit => LeaveInv(s, Zombie);
    case Wakeup(ch) => WakeAllInv(s, ch);
    case Kill(p) => KillInv(s, p);
    case Idle =>
      IdleLeaving(s);
      RescheduleInv(s, None);
  }

  lemma IdleLeaving(s: State)
    requires Stated(s, None) && s.current.None?
    ensures Leaving(s.(current := None), None)
  {
  }

  // ---------------------------------------------------------------- waiting in the exhausted queue

  /** Process x waits in the queue that is not `run`. */
  ghost predicate Waits(s: State, x: nat, run: nat) {
    s.run == run && run < 2 && x in s.procs && s.procs[x].place == Queued(1 - run) && s.current != Some(x)
  }

  /** After a step x still waits, or the queues have changed places when the run queue was empty. */
  ghost predicate WaitsOrSwapped(s: State, x: nat, run: nat) {
    Waits(s, x, run) || (run < 2 && |s.queues| == 2 && s.run == 1 - run && s.queues[run].n == 0)
  }

  lemma ChooseOthers(s: State, x: nat)
    requires Core(s) && Stated(s, None) && s.current == None && x in s.procs && s.procs[x].place == Queued(1 - s.run)
    ensures var t := Choose(s);
            t.run == s.run && x in t.procs && t.procs[x].place == Queued(1 - s.run) && t.current != Some(x)
  {
    hide Sound;
    ChooseStated(s);
    FirstIsLeast(s.queues[s.run]);
  }

  lemma ChooseOtherQueue(s: State)
    requires Core(s)
    ensures |Choose(s).queues| == 2 && s.run < 2
    ensures Choose(s).queues[1 - s.run] == s.queues[1 - s.run] && Choose(s).run == s.run
  {
    hide Sound;
    var q := s.queues[s.run];
    FirstIsLeast(q);
    var f := FirstSet(q.bits, 0);
    if f < N_PRIORITY {
      assert In(s.queues[s.run], q.lists[f][0], f);
    }
  }

  lemma SwapOther(s: State)
    requires Core(s) && s.run < 2 && |s.queues| == 2
    ensures if s.queues[s.run].n == 0 then Swap(s) == s.(run := 1 - s.run) else Swap(s) == s
  {
  }

  lemma CoreSizes(s: State)
    requires Core(s)
    ensures s.run < 2 && |s.queues| == 2
  {
  }

  lemma RescheduleSpent(s: State, last: Option<nat>, x: nat)
    requires Core(s) && Leaving(s.(current := None), last) && last != Some(x)
    requires x in s.procs && s.procs[x].place == Queued(1 - s.run)
    ensures WaitsOrSwapped(Reschedule(s, last), x, s.run)
  {
    CurrentCore(s, None);
    var s0 := s.(current := None);
    PutBackStated(s0, last);
    ChooseSpent(PutBack(s0, last), x);
  }

  /** The process that gives up the CPU with its slice spent waits too. */
  lemma RescheduleLast(s: State, p: nat)
    requires Core(s) && Leaving(s.(current := None), Some(p)) && s.procs[p].status == Runnable && s.procs[p].left == 0
    ensures WaitsOrSwapped(Reschedule(s, Some(p)), p, s.run)
  {
    CurrentCore(s, None);
    var s0 := s.(current := None);
    PutBackStated(s0, Some(p));
    ChooseSpent(PutBack(s0, Some(p)), p);
  }

  lemma ChooseSpent(m: State, x: nat)
    requires Core(m) && Stated(m, None) && m.current == None && x in m.procs && m.procs[x].place == Queued(1 - m.run)
    ensures WaitsOrSwapped(Choose(Swap(m)), x, m.run)
  {
    hide Core, Stated, Choose, Swap;
    CoreSizes(m);
    SwapOther(m);
    SwapStated(m);
    ChooseOtherQueue(Swap(m));
    if m.queues[m.run].n != 0 {
      ChooseOthers(m, x);
    }
  }

  lemma LeaveSpent(s: State, status: Status, x: nat)
    requires Core(s) && Stated(s, s.current) && s.current.Some?
    requires s.current.value in s.procs && s.procs[s.current.value].place == Nowhere
    requires status == Runnable || status == Zombie
    requires x in s.procs && s.procs[x].place == Queued(1 - s.run)
    ensures WaitsOrSwapped(Leave(s, status), x, s.run)
  {
    var p := s.current.value;
    var y := s.procs[p].(status := status);
    SetCore(s, p, y);
    hide Core, Reschedule;
    RescheduleSpent(SetProc(s, p, y), Some(p), x);
  }

  lemma SleepSpent(s: State, ch: nat, x: nat)
    requires Core(s) && Stated(s, s.current) && s.current.Some? && s.current.value in s.procs
    requires s.procs[s.current.value].place == Nowhere && s.procs[s.current.value].left > 0
    requires x in s.procs && s.procs[x].place == Queued(1 - s.run)
    ensures WaitsOrSwapped(GoToSleep(s, ch), x, s.run)
  {
    var p := s.current.value;
    var y := s.procs[p].(status := Sleeping, sleepStart := s.jiffs);
    SetCore(s, p, y);
    EnlistCore(SetProc(s, p, y), p, ch);
    hide Core, Reschedule;
    RescheduleSpent(EnlistSleep(SetProc(s, p, y), p, ch), Some(p), x);
  }

  lemma TickSpent(s: State, user: bool, x: nat)
    requires Inv(s) && x in s.procs && Waits(s, x, s.run)
    ensures WaitsOrSwapped(TimerTick(s, user), x, s.run)
  {
    CurrentRuns(s);
    hide Core, Leave, CountTick;
    if s.current.Some? && user {
      var s1 := CountTick(s);
      CountOthers(s);
      if s1.procs[s.current.value].left == 0 {
        LeaveSpent(s1, Runnable, x);
      }
    }
  }

  lemma CountOthers(s: State)
    requires Inv(s) && s.current.Some?
    ensures Stated(CountTick(s), s.current)
  {
    hide Core;
  }

  lemma LeaveLast(s: State, p: nat)
    requires Core(s) && Stated(s, s.current) && s.current == Some(p)
    requires p in s.procs && s.procs[p].place == Nowhere && s.procs[p].left == 0
    ensures WaitsOrSwapped(Leave(s, Runnable), p, s.run)
  {
    var y := s.procs[p].(status := Runnable);
    SetCore(s, p, y);
    hide Core, Reschedule;
    RescheduleLast(SetProc(s, p, y), p);
  }

  /** A process whose last tick is counted goes to the exhausted queue, and comes back at once only when nobody
      else was there to run. */
  lemma LastTick(s: State, p: nat)
    requires Inv(s) && s.current == Some(p) && p in s.procs && s.procs[p].left == 1
    ensures WaitsOrSwapped(TimerTick(s, true), p, s.run)
  {
    CurrentRuns(s);
    CountOthers(s);
    CountedDown(s);
    hide Core, Leave, CountTick;
    LeaveLast(CountTick(s), p);
  }

  lemma CountedDown(s: State)
    requires Inv(s) && s.current.Some? && s.current.value in s.procs && s.procs[s.current.value].left == 1
    ensures CountTick(s).procs[s.current.value].left == 0
  {
    hide Core;
  }

  lemma KillSpent(s: State, p: nat, x: nat)
    requires Inv(s) && Waits(s, x, s.run)
    ensures Waits(KillOne(s, p), x, s.run)
  {
    hide Core, KillOne;
  }

  lemma {:induction false} WakeSpent(s: State, ch: nat, x: nat)
    requires Inv(s) && Waits(s, x, s.run)
    ensures Waits(WakeAll(s, ch), x, s.run)
    decreases |SleepersOf(s, ch)|
  {
    hide Core, WakeOne;
    if SleepersOf(s, ch) != [] {
      HeadSleeps(s, ch);
      var p := SleepersOf(s, ch)[0];
      HeadLeft(s, p);
      WakeSpent(WakeOne(s, p), ch, x);
    }
  }

  lemma NewSpent(s: State, p: nat, prio: nat, left: nat, avg: nat, x: nat)
    requires Core(s) && p !in s.procs && prio < N_PRIORITY && Waits(s, x, s.run)
    ensures Waits(NewProcess(s, p, prio, left, avg), x, s.run)
  {
    hide Core, NewProcess;
  }

  /** No step takes a process out of the exhausted queue, unless the queues change places with the run queue
      empty. */
  lemma StepSpent(s: State, a: Step, x: nat)
    requires Inv(s) && Enabled(s, a) && Waits(s, x, s.run)
    ensures WaitsOrSwapped(Apply(s, a), x, s.run)
  {
    CurrentRuns(s);
    OthersStated(s);
    hide Core, Stated, Leave, GoToSleep, WakeAll, KillOne, TimerTick, Reschedule, NewProcess;
    match a
    case Spawn(p, prio, left) => NewSpent(s, p, prio, left, 0, x);
    case Fork(p) =>
      var s1 := Halved(s);
      NewSpent(s1, p, DEFAULT_USER_PRIO, s1.procs[s.current.value].left, s1.procs[s.current.value].sleepAvg, x);
    case Tick(user) => TickSpent(s, user, x);
    case Yield => LeaveSpent(s, Runnable, x);
    case Sleep(ch) => SleepSpent(s, ch, x);
    case Exit => LeaveSpent(s, Zombie, x);
    case Wakeup(ch) => WakeSpent(s, ch, x);
    case Kill(p) => KillSpent(s, p, x);
    case Idle =>
      IdleLeaving(s);
      RescheduleSpent(s, None, x);
  }

  // ---------------------------------------------------------------- runs

  ghost predicate Legal(s: State, steps: seq<Step>)
    requires Inv(s)
    decreases |steps|
  {
    steps == [] || (Enabled(s, steps[0]) && (StepInv(s, steps[0]); Legal(Apply(s, steps[0]), steps[1..])))
  }

  ghost function Final(s: State, steps: seq<Step>): State
    requires Inv(s) && Legal(s, steps)
    decreases |steps|
  {
    if steps == [] then s else (StepInv(s, steps[0]); Final(Apply(s, steps[0]), steps[1..]))
  }

  lemma {:induction false} RunInv(s: State, steps: seq<Step>)
    requires Inv(s) && Legal(s, steps)
    ensures Inv(Final(s, steps))
    decreases |steps|
  {
    hide Inv, Apply;
    if steps != [] {
      StepInv(s, steps[0]);
      RunInv(Apply(s, steps[0]), steps[1..]);
    }
  }

  /** Before step n of the run x waits, and that step swaps the queues with the run queue empty. */
  ghost predicate SwapsAt(s: State, steps: seq<Step>, x: nat, n: nat)
    requires Inv(s)
  {
    && n < |steps| && Legal(s, steps[..n]) && Legal(s, steps[..n + 1])
    && Waits(Final(s, steps[..n]), x, s.run)
    && var t := Final(s, steps[..n + 1]); s.run < 2 && |t.queues| == 2 && t.run == 1 - s.run && t.queues[s.run].n == 0
  }

  /** A run from its second state on. */
  lemma AfterFirst(s: State, steps: seq<Step>, m: nat)
    requires Inv(s) && Legal(s, steps) && m < |steps| && Inv(Apply(s, steps[0]))
    requires Legal(Apply(s, steps[0]), steps[1..][..m])
    ensures Legal(s, steps[..m + 1]) && Final(s, steps[..m + 1]) == Final(Apply(s, steps[0]), steps[1..][..m])
  {
    hide Inv, Apply, Enabled;
    assert steps[..m + 1][1..] == steps[1..][..m];
    StepInv(s, steps[0]);
  }

  lemma SwapsLater(s: State, steps: seq<Step>, x: nat, n: nat)
    requires Inv(s) && Legal(s, steps) && steps != []
    requires Inv(Apply(s, steps[0])) && Apply(s, steps[0]).run == s.run
    requires SwapsAt(Apply(s, steps[0]), steps[1..], x, n)
    ensures SwapsAt(s, steps, x, n + 1)
  {
    hide Inv, Apply, Waits, Legal, Final;
    AfterFirst(s, steps, n);
    AfterFirst(s, steps, n + 1);
  }

  /** Over every run: a process in the exhausted queue stays there and does not run, up to a step at which the
      run queue is empty and the two queues change places. */
  lemma {:induction false} SpentWaits(s: State, steps: seq<Step>, x: nat)
    requires Inv(s) && Legal(s, steps) && Waits(s, x, s.run)
    ensures Waits(Final(s, steps), x, s.run) || exists n: nat :: SwapsAt(s, steps, x, n)
    decreases |steps|
  {
    hide Inv, Apply, Waits;
    if steps != [] {
      StepInv(s, steps[0]);
      StepSpent(s, steps[0], x);
      var t := Apply(s, steps[0]);
      if Waits(t, x, s.run) {
        WaitsRun(t, x, s.run);
        SpentWaits(t, steps[1..], x);
        if n: nat :| SwapsAt(t, steps[1..], x, n) {
          SwapsLater(s, steps, x, n);
        }
      } else {
        FirstSwap(s, steps, x);
      }
    }
  }

  lemma WaitsRun(s: State, x: nat, run: nat)
    requires Waits(s, x, run)
    ensures s.run == run
  {
  }

  lemma FirstSwap(s: State, steps: seq<Step>, x: nat)
    requires Inv(s) && Legal(s, steps) && steps != [] && Waits(s, x, s.run)
    requires WaitsOrSwapped(Apply(s, steps[0]), x, s.run) && !Waits(Apply(s, steps[0]), x, s.run)
    ensures SwapsAt(s, steps, x, 0)
  {
    hide Inv, Apply, Waits;
    OneStep(s, steps[0]);
    assert steps[..1] == [steps[0]] && steps[..0] == [];
  }

  lemma OneStep(s: State, a: Step)
    requires Inv(s) && Enabled(s, a)
    ensures Legal(s, [a]) && Final(s, [a]) == Apply(s, a) && Legal(s, []) && Final(s, []) == s
  {
    hide Inv, Apply;
    StepInv(s, a);
  }

  /** proc_init: two empty queues and no process. */
  ghost function Boot(): State {
    var q := Queue(seq(64, _ => false), seq(N_PRIORITY, _ => []), 0);
    State([q, q], 0, map[], map[], None, 0)
  }

  lemma BootInv()
    ensures Inv(Boot())
  {
    TotalZero(Boot().queues[0].lists);
  }

  /** Over every run of spawns, ticks, yields, sleeps, wakeups, kills, exits and reschedules: bit p is set exactly
      when list p is not empty, n_procs is the total length, and a process is linked in one place at most, which
      is a queue exactly when it is runnable and a sleep list exactly when it sleeps. */
  lemma RunQueues(s: State, steps: seq<Step>, q: nat, p: nat, x: nat)
    requires Inv(s) && Legal(s, steps) && q < 2 && p < N_PRIORITY
    ensures var t := Final(s, steps);
            && |t.queues| == 2 && Shape(t.queues[q])
            && (t.queues[q].bits[p] <==> t.queues[q].lists[p] != []) && t.queues[q].n == Total(t.queues[q].lists)
            && (x in t.queues[q].lists[p] ==>
                  && x in t.procs && t.procs[x].status == Runnable
                  && t.procs[x].place == Queued(q) && t.procs[x].prio == p)
            && (x in t.procs && t.procs[x].status == Runnable ==>
                  exists r: nat :: r < 2 && In(t.queues[r], x, t.procs[x].prio))
            && (x in t.procs && t.procs[x].status == Sleeping ==> exists ch: nat :: x in SleepersOf(t, ch))
            && (t.current == Some(x) ==> x in t.procs && x !in t.queues[q].lists[p])
  {
    RunInv(s, steps);
    InvQueues(Final(s, steps), q, p, x);
  }

  lemma InvQueues(t: State, q: nat, p: nat, x: nat)
    requires Inv(t) && q < 2 && p < N_PRIORITY
    ensures |t.queues| == 2 && Shape(t.queues[q])
    ensures (t.queues[q].bits[p] <==> t.queues[q].lists[p] != []) && t.queues[q].n == Total(t.queues[q].lists)
    ensures x in t.queues[q].lists[p] ==>
              x in t.procs && t.procs[x].status == Runnable && t.procs[x].place == Queued(q) && t.procs[x].prio == p
    ensures x in t.procs && t.procs[x].status == Runnable ==>
              exists r: nat :: r < 2 && In(t.queues[r], x, t.procs[x].prio)
    ensures x in t.procs && t.procs[x].status == Sleeping ==> exists ch: nat :: x in SleepersOf(t, ch)
    ensures t.current == Some(x) ==> x in t.procs && x !in t.queues[q].lists[p]
  {
    assert In(t.queues[q], x, p) <==> x in t.queues[q].lists[p];
    if x in t.procs && t.procs[x].status == Runnable {
      assert In(t.queues[t.procs[x].place.q], x, t.procs[x].prio);
    }
    if x in t.procs && t.procs[x].status == Sleeping {
      assert x in SleepersOf(t, t.procs[x].place.ch);
    }
  }
}
