/** The priority queues of kern/sched.c: one list for each priority, a bitmap of the lists that are not empty,
    and the number of processes. */
module RunQueue {
  import opened Params
  import opened Lists

  const N_PRIORITY: nat := 40

  /** Bit p of the 64-bit bitmap is bits[p].  The code sets it as bit p modulo 32 of one of two words. */
  datatype Queue = Queue(bits: seq<bool>, lists: seq<seq<nat>>, n: nat)

  ghost function Total(lists: seq<seq<nat>>): nat {
    if lists == [] then 0 else |lists[0]| + Total(lists[1..])
  }

  ghost predicate Shape(q: Queue) {
    |q.bits| == 64 && |q.lists| == N_PRIORITY
  }

  /** A bit is set exactly when its list is not empty, and n counts the processes. */
  ghost predicate Sound(q: Queue) {
    && Shape(q)
    && (forall p :: 0 <= p < N_PRIORITY ==> (q.bits[p] <==> q.lists[p] != []))
    && (forall p :: N_PRIORITY <= p < 64 ==> !q.bits[p])
    && (forall p :: 0 <= p < N_PRIORITY ==> Distinct(q.lists[p]))
    && q.n == Total(q.lists)
  }

  lemma {:induction false} TotalChange(lists: seq<seq<nat>>, p: nat, l: seq<nat>)
    requires p < |lists|
    ensures Total(lists[p := l]) == Total(lists) - |lists[p]| + |l| && Total(lists) >= |lists[p]|
  {
    if p == 0 {
      assert lists[0 := l][1..] == lists[1..];
    } else {
      TotalChange(lists[1..], p - 1, l);
      assert lists[p := l][1..] == lists[1..][p - 1 := l];
    }
  }

  lemma {:induction false} TotalZero(lists: seq<seq<nat>>)
    ensures Total(lists) == 0 <==> forall p :: 0 <= p < |lists| ==> lists[p] == []
  {
    if lists != [] {
      TotalZero(lists[1..]);
      assert lists == [lists[0]] + lists[1..];
    }
  }

  /** add_proc_to_queue. */
  function Add(q: Queue, x: nat, prio: nat): Queue
    requires prio < |q.bits| && prio < |q.lists|
  {
    Queue(q.bits[prio := true], q.lists[prio := q.lists[prio] + [x]], q.n + 1)
  }

  /** del_proc_fron_queue. */
  function Del(q: Queue, x: nat, prio: nat): Queue
    requires prio < |q.bits| && prio < |q.lists|
  {
    var l := Without(q.lists[prio], x);
    Queue(if l == [] then q.bits[prio := false] else q.bits, q.lists[prio := l], if q.n > 0 then q.n - 1 else 0)
  }

  /** Process x is in the list of priority prio. */
  ghost predicate In(q: Queue, x: nat, prio: nat) {
    prio < |q.lists| && x in q.lists[prio]
  }

  lemma AddSound(q: Queue, x: nat, prio: nat)
    requires Sound(q) && prio < N_PRIORITY && !In(q, x, prio)
    ensures Sound(Add(q, x, prio)) && Add(q, x, prio).n == q.n + 1
    ensures forall y, p :: In(Add(q, x, prio), y, p) <==> In(q, y, p) || (y == x && p == prio)
  {
    TotalChange(q.lists, prio, q.lists[prio] + [x]);
  }

  lemma DelSound(q: Queue, x: nat, prio: nat)
    requires Sound(q) && In(q, x, prio)
    ensures Sound(Del(q, x, prio)) && Shape(Del(q, x, prio)) && Del(q, x, prio).n == q.n - 1
    ensures forall y, p :: In(Del(q, x, prio), y, p) <==> In(q, y, p) && !(y == x && p == prio)
  {
    WithoutIs(q.lists[prio], x);
    TotalChange(q.lists, prio, Without(q.lists[prio], x));
  }

  /** find_first_set from bit idx on. */
  function FirstSet(bits: seq<bool>, idx: nat): nat
    requires |bits| == 64
    decreases N_PRIORITY - idx
  {
    if idx >= N_PRIORITY then idx else if bits[idx] then idx else FirstSet(bits, idx + 1)
  }

  lemma {:induction false} FirstSetIs(bits: seq<bool>, idx: nat)
    requires |bits| == 64 && idx <= N_PRIORITY
    ensures var f := FirstSet(bits, idx);
            && idx <= f <= N_PRIORITY && (f < N_PRIORITY ==> bits[f])
            && forall p :: idx <= p < f ==> !bits[p]
    decreases N_PRIORITY - idx
  {
    if idx < N_PRIORITY && !bits[idx] {
      FirstSetIs(bits, idx + 1);
    }
  }

  /** The list at the first set bit is the one of least priority number that is not empty; there is none exactly
      when the queue has no process. */
  lemma FirstIsLeast(q: Queue)
    requires Sound(q)
    ensures var f := FirstSet(q.bits, 0);
            && f <= N_PRIORITY && (f == N_PRIORITY <==> q.n == 0)
            && (f < N_PRIORITY ==> q.lists[f] != [])
            && forall x, p :: In(q, x, p) ==> f <= p
  {
    FirstSetIs(q.bits, 0);
    TotalZero(q.lists);
  }

  // ---------------------------------------------------------------- priorities and slices

  const MAX_BONUS: nat := 10          // MAX_USER_PRIO * PRIO_BONUS_RATIO / 100
  const MAX_SLEEP_AVG: nat := 1000    // DEFAULT_TIMESLICE * MAX_BONUS

  /** recalculate_priority; sleep_avg * MAX_BONUS is 32-bit arithmetic. */
  function Recalculate(prio: nat, sleepAvg: nat): nat {
    var bonus := sleepAvg * MAX_BONUS % WORD / MAX_SLEEP_AVG - MAX_BONUS / 2;
    var p := prio - bonus;
    if p < 0 then 0 else if p > N_PRIORITY - 1 then N_PRIORITY - 1 else p
  }

  /** The result is a priority; more sleep never gives a larger number as long as the product does not wrap, and
      an average of at most MAX_SLEEP_AVG moves the priority by at most five. */
  lemma RecalculateBounds(prio: nat, a: nat, b: nat)
    requires a <= b && prio < N_PRIORITY
    ensures Recalculate(prio, a) < N_PRIORITY
    ensures b * MAX_BONUS < WORD ==> Recalculate(prio, b) <= Recalculate(prio, a)
    ensures b <= MAX_SLEEP_AVG ==> prio - 5 <= Recalculate(prio, b) <= prio + 5
  {
    if b * MAX_BONUS < WORD {
      DivMono(a * MAX_BONUS, b * MAX_BONUS);
    }
  }

  lemma DivMono(x: nat, y: nat)
    requires x <= y
    ensures x / MAX_SLEEP_AVG <= y / MAX_SLEEP_AVG
  {
  }

  /** task_timeslice. */
  function Timeslice(prio: nat): nat {
    var x := if prio < 20 then 400 else 100;
    var t := if prio <= N_PRIORITY then x * (N_PRIORITY - prio) / (N_PRIORITY / 2) else 0;
    if t > 5 then t else 5
  }

  /** A slice is never empty, not even halved, lies between MIN_TIMESLICE and MAX_TIMESLICE, and a smaller
      priority number has the longer slice. */
  lemma TimesliceBounds(p: nat, q: nat)
    requires p < q < N_PRIORITY
    ensures 5 <= Timeslice(q) < Timeslice(p) <= 800 && Timeslice(q) / 2 > 0
  {
    SliceOf(p);
    SliceOf(q);
  }

  lemma SliceOf(p: nat)
    requires p < N_PRIORITY
    ensures Timeslice(p) == if p < 20 then 20 * (N_PRIORITY - p) else 5 * (N_PRIORITY - p)
  {
    assert 400 * (N_PRIORITY - p) == 20 * (20 * (N_PRIORITY - p));
    assert 100 * (N_PRIORITY - p) == 20 * (5 * (N_PRIORITY - p));
  }
}
