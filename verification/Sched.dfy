/** kern/sched.c with the sleep, wakeup and kill of kern/sysfunc.c in their own form. */
module Sched {
  import opened Params
  import opened Lists
  import opened RunQueue
  import opened SchedState
  import SchedSlices

  class Cpu {
    var queues: seq<Queue>
    var run: nat
    var procs: map<nat, Proc>
    var asleep: map<nat, seq<nat>>
    var current: Option<nat>
    var jiffs: nat

    ghost function Now(): State
      reads this
    {
      State(queues, run, procs, asleep, current, jiffs)
    }

    /** add_proc_to_queue. */
    method AddProcToQueue(q: nat, p: nat)
      requires p in procs && q < |queues| && procs[p].prio < |queues[q].bits| && procs[p].prio < |queues[q].lists|
      modifies `queues, `procs
      ensures Now() == Enqueue(old(Now()), p, q)
      ensures old(Core(Now())) && q < 2 && old(procs[p].place) == Nowhere ==>
                && Core(Now())
                && forall x: nat, k: nat :: In(queues[q], x, k) <==>
                     old(In(queues[q], x, k)) || (x == p && k == old(procs[p].prio))
    {
      hide Sound;
      if Core(Now()) && q < 2 && procs[p].place == Nowhere {
        EnqueueIn(Now(), p, q);
      }
      var prio := procs[p].prio;
      var b := queues[q];
      b := b.(bits := b.bits[prio := true]);
      b := b.(lists := b.lists[prio := b.lists[prio] + [p]]);
      b := b.(n := b.n + 1);
      queues := queues[q := b];
      procs := procs[p := procs[p].(place := Queued(q))];
    }

    /** del_proc_fron_queue. */
    method DelProcFromQueue(p: nat)
      requires p in procs && procs[p].place.Queued? && procs[p].place.q < |queues|
      requires procs[p].prio < |queues[procs[p].place.q].bits| && procs[p].prio < |queues[procs[p].place.q].lists|
      requires queues[procs[p].place.q].n > 0
      modifies `queues, `procs
      ensures Now() == Dequeue(old(Now()), p)
      ensures old(Core(Now())) ==>
                && Core(Now())
                && forall x: nat, k: nat :: In(queues[old(procs[p].place.q)], x, k) <==>
                     old(In(queues[procs[p].place.q], x, k)) && x != p
    {
      hide Sound;
      if Core(Now()) {
        DequeueIn(Now(), p);
      }
      var prio, q := procs[p].prio, procs[p].place.q;
      var b := queues[q];
      b := b.(lists := b.lists[prio := Without(b.lists[prio], p)]);
      if b.lists[prio] == [] {
        b := b.(bits := b.bits[prio := false]);
      }
      b := b.(n := b.n - 1);
      queues := queues[q := b];
      procs := procs[p := procs[p].(place := Nowhere)];
    }

    static lemma EnqueueIn(s: State, p: nat, q: nat)
      requires Core(s) && p in s.procs && s.procs[p].place == Nowhere && q < 2
      ensures Core(Enqueue(s, p, q))
      ensures forall x: nat, k: nat :: In(Enqueue(s, p, q).queues[q], x, k) <==>
                In(s.queues[q], x, k) || (x == p && k == s.procs[p].prio)
    {
      hide Sound;
      EnqueueCore(s, p, q);
      AddSound(s.queues[q], p, s.procs[p].prio);
    }

    static lemma DequeueIn(s: State, p: nat)
      requires Core(s) && p in s.procs && s.procs[p].place.Queued?
      ensures Core(Dequeue(s, p))
      ensures var q := s.procs[p].place.q;
              forall x: nat, k: nat :: In(Dequeue(s, p).queues[q], x, k) <==> In(s.queues[q], x, k) && x != p
    {
      hide Sound;
      DequeueCore(s, p);
      assert In(s.queues[s.procs[p].place.q], p, s.procs[p].prio);
      DelSound(s.queues[s.procs[p].place.q], p, s.procs[p].prio);
    }

    /** find_first_set. */
    method FindFirstSet(q: Queue) returns (idx: nat)
      requires |q.bits| == 64
      ensures idx == FirstSet(q.bits, 0)
    {
      idx := 0;
      while idx < N_PRIORITY
        invariant idx <= N_PRIORITY && FirstSet(q.bits, idx) == FirstSet(q.bits, 0)
      {
        if q.bits[idx] {
          return;
        }
        idx := idx + 1;
      }
    }

    /** A turn of the loop of scheduler, up to the switch to the chosen process.  The process that was interrupted
        keeps what it has left, or gets a fresh slice of half its task_timeslice. */
    method Schedule(last: Option<nat>)
      requires Core(Now()) && Leaving(Now().(current := None), last)
      modifies this
      ensures Inv(Now()) && Now() == Reschedule(old(Now()), last)
      ensures last.Some? && last.value in procs && old(last.value in procs && procs[last.value].status == Runnable) ==>
                var x, y := old(procs[last.value]), procs[last.value];
                && y.sleepAvg == 0 && y.prio == Recalculate(x.prio, x.sleepAvg)
                && y.left == if x.left == 0 then SchedSlices.SliceTicks(y.prio) else x.left
      ensures procs.Keys == old(procs.Keys)
      ensures forall x :: x in procs && last != Some(x) ==>
                procs[x] == if current == Some(x) then old(procs[x]).(status := Running, place := Nowhere)
                            else old(procs[x])
    {
      hide Sound, Stated, Placed, Choose, Swap, PutBack, SchedSlices.SliceTicks, Recalculate;
      RescheduleInv(Now(), last);
      Effects(Now(), last);
      CurrentCore(Now(), None);
      current := None;
      ghost var s0 := Now();
      NoPutBack(s0, last);
      if last.Some? && last.value in procs && procs[last.value].status == Runnable {
        PutBackProc(last.value);
      }
      assert Now() == PutBack(s0, last);
      ChooseNext();
    }

    static lemma Effects(s: State, last: Option<nat>)
      requires Core(s) && Leaving(s.(current := None), last)
      ensures var t := Reschedule(s, last);
              && t.procs.Keys == s.procs.Keys
              && forall x :: x in s.procs ==>
                   t.procs[x] == SchedSlices.Chosen(SchedSlices.Passed(s, last, x), t.current, x)
    {
      hide Core, Leaving, Reschedule, SchedSlices.Passed, SchedSlices.Chosen;
      SchedSlices.RescheduleKeys(s, last);
      forall x | x in s.procs
        ensures Reschedule(s, last).procs[x]
                == SchedSlices.Chosen(SchedSlices.Passed(s, last, x), Reschedule(s, last).current, x)
      {
        SchedSlices.RescheduleProcs(s, last, x);
      }
    }

    static lemma NoPutBack(s: State, last: Option<nat>)
      requires Core(s)
      ensures !(last.Some? && last.value in s.procs && s.procs[last.value].status == Runnable) ==> PutBack(s, last) == s
    {
    }

    /** An empty run queue is swapped; then the first process of the first list is taken. */
    method ChooseNext()
      requires Core(Now()) && current == None
      modifies this
      ensures Core(Now()) && Now() == Choose(Swap(old(Now())))
    {
      hide Sound, Stated, Placed;
      if queues[run].n == 0 {
        run := 1 - run;
      }
      assert Now() == Swap(old(Now()));
      FirstIsLeast(queues[run]);
      var prior := FindFirstSet(queues[run]);
      if prior < N_PRIORITY {
        var p := queues[run].lists[prior][0];
        assert In(queues[run], p, prior);
        QueuedHere(Now(), p, prior);
        DelProcFromQueue(p);
        current := Some(p);
        procs := procs[p := procs[p].(status := Running)];
      }
      assert Now() == Choose(Swap(old(Now())));
    }

    static lemma QueuedHere(s: State, p: nat, prior: nat)
      requires Core(s) && In(s.queues[s.run], p, prior)
      ensures p in s.procs && s.procs[p].place == Queued(s.run) && s.procs[p].prio == prior && s.queues[s.run].n > 0
    {
      DelSound(s.queues[s.run], p, prior);
      hide Sound;
    }

    /** The process that was interrupted: a new priority and slice, and back to one of the queues. */
    method PutBackProc(p: nat)
      requires Core(Now()) && Leaving(Now(), Some(p)) && procs[p].status == Runnable
      modifies `procs, `queues
      ensures Core(Now()) && Now() == PutBack(old(Now()), Some(p))
    {
      hide Sound, Stated, Placed;
      var timesliceLeft := procs[p].left;
      RecalculateBounds(procs[p].prio, procs[p].sleepAvg, procs[p].sleepAvg);
      var prio := Recalculate(procs[p].prio, procs[p].sleepAvg);
      var timeslice := Timeslice(prio) / 2;
      procs := procs[p := procs[p].(prio := prio, sleepAvg := 0)];
      if timesliceLeft == 0 {
        procs := procs[p := procs[p].(left := timeslice)];
        AddProcToQueue(1 - run, p);
      } else {
        AddProcToQueue(run, p);
      }
      assert Now() == PutBack(old(Now()), Some(p));
    }

    /** sleep: the current process joins a sleep list and gives up the CPU. */
    method SleepOn(ch: nat)
      requires Inv(Now()) && current.Some?
      modifies this
      ensures Inv(Now()) && Now() == Apply(old(Now()), Sleep(ch))
    {
      hide Sound, Stated, Placed, Reschedule;
      CurrentRuns(Now());
      OthersStated(Now());
      SleepInv(Now(), ch);
      var p := current.value;
      ghost var x := procs[p].(status := Sleeping, sleepStart := jiffs);
      SetCore(Now(), p, x);
      EnlistCore(SetProc(Now(), p, x), p, ch);
      SleepLeaving(Now(), ch);
      procs := procs[p := procs[p].(status := Sleeping)];
      procs := procs[p := procs[p].(sleepStart := jiffs)];
      var l := if ch in asleep then asleep[ch] else [];
      asleep := asleep[ch := l + [p]];
      procs := procs[p := procs[p].(place := Asleep(ch))];
      assert Now() == EnlistSleep(SetProc(old(Now()), p, x), p, ch);
      Schedule(Some(p));
    }

    static lemma SleepLeaving(s: State, ch: nat)
      requires Inv(s) && s.current.Some? && s.current.value in s.procs && s.procs[s.current.value].left > 0
      ensures var p := s.current.value;
              var x := s.procs[p].(status := Sleeping, sleepStart := s.jiffs);
              Leaving(EnlistSleep(SetProc(s, p, x), p, ch).(current := None), Some(p))
    {
      hide Core;
    }

    /** wakeup1: every sleeper of the list becomes runnable, with a priority that counts its sleep. */
    method Wakeup1(ch: nat)
      requires Inv(Now())
      modifies this
      ensures Inv(Now()) && Now() == WakeAll(old(Now()), ch) && SleepersOf(Now(), ch) == []
    {
      hide Sound, Stated, Placed, WakeOne;
      WakeAllInv(Now(), ch);
      while ch in asleep && asleep[ch] != []
        invariant Core(Now()) && WakeAll(Now(), ch) == WakeAll(old(Now()), ch)
        decreases |SleepersOf(Now(), ch)|
      {
        HeadSleeps(Now(), ch);
        WakeProc(asleep[ch][0], ch);
      }
    }

    method WakeProc(p: nat, ch: nat)
      requires Core(Now()) && p in procs && procs[p].place == Asleep(ch) && ch in asleep
      modifies this
      ensures Core(Now()) && Now() == WakeOne(old(Now()), p)
    {
      hide Sound, Placed, Recalculate, Without, WakeOne;
      WakeOneIs(Now(), p);
      ghost var s1 := SetProc(Unlist(Now(), p), p, Woken(procs[p], jiffs));
      asleep := asleep[ch := Without(asleep[ch], p)];
      var x := procs[p];
      var avg := (x.sleepAvg + (jiffs - x.sleepStart) % WORD) % WORD;
      RecalculateBounds(x.prio, avg, avg);
      procs := procs[p := x.(status := Runnable, prio := Recalculate(x.prio, avg), sleepAvg := 0, sleepStart := 0,
                             place := Nowhere)];
      assert Now() == s1;
      AddProcToQueue(run, p);
    }

    /** kill of process p, which the caller has looked up. */
    method KillProc(p: nat)
      requires Inv(Now()) && p in procs
      modifies this
      ensures Inv(Now()) && Now() == Apply(old(Now()), Kill(p))
    {
      hide Sound, Stated, Placed;
      KillInv(Now(), p);
      if procs[p].status == Sleeping {
        SleeperPlace(Now(), p);
        UnlistCore(Now(), p);
        var ch := procs[p].place.ch;
        procs := procs[p := procs[p].(status := Runnable)];
        asleep := asleep[ch := Without(asleep[ch], p)];
        procs := procs[p := procs[p].(place := Nowhere)];
        AddProcToQueue(run, p);
      }
      assert Now() == KillOne(old(Now()), p);
    }

    static lemma SleeperPlace(s: State, p: nat)
      requires Inv(s) && p in s.procs && s.procs[p].status == Sleeping
      ensures s.procs[p].place.Asleep? && s.procs[p].place.ch in s.asleep
    {
      hide Sound;
      assert p in SleepersOf(s, s.procs[p].place.ch);
    }
  }
}
