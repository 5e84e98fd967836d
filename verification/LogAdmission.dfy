/** begin_transaction: who is let in at once, and that nobody waits in vain. */
module LogAdmission {
  import opened Params
  import opened LogProtocol

  /** At any point of any run a transaction may begin exactly when the log is open and the blocks in it and
      a full quota for each open transaction and the new one fit. */
  lemma AdmittedExactly(g: Layout, s: State, run: seq<Action>, t: nat)
    requires g.Fits() && Init(g, s) && Legal(g, s, run) && t !in Final(g, s, run).open
    ensures var f := Final(g, s, run);
            Legal(g, s, run + [Begin(t)]) <==>
              f.phase.Running? && |f.hdr| + MAXOPBLOCKS * |f.open| + MAXOPBLOCKS <= LOGSIZE
  {
    assert (run + [Begin(t)])[..|run|] == run;
    hide Apply;
  }

  lemma BeginEffect(g: Layout, s: State, t: nat)
    requires Enabled(g, s, Begin(t))
    ensures var s' := Apply(g, s, Begin(t));
            && s'.phase.Running? && s'.hdr == s.hdr && s'.open.Keys == s.open.Keys + {t} && s'.open[t] == {}
            && |s'.open| == |s.open| + 1
  {
  }

  lemma FirstLog(g: Layout, s: State, t: nat, b: nat, v: Data)
    requires g.Fits() && g.Home(b) && s.hdr == [] && t in s.open && s.open[t] == {}
    ensures Enabled(g, s, Action.Log(t, b, v))
    ensures var s' := Apply(g, s, Action.Log(t, b, v));
            s'.phase == s.phase && s'.hdr == [b] && s'.open.Keys == s.open.Keys && |s'.open| == |s.open|
  {
    assert |{} + {b}| == 1;
    assert t in s.open.Keys;
    assert s.open[t := s.open[t] + {b}].Keys == s.open.Keys;
  }

  /** A log with one block in it and nothing committed yet lets the next transaction in, and the one after
      that waits, because 1 + 3 * 40 is more than 120; an empty log lets in three. */
  lemma AdmissionExamples(g: Layout, s: State, b: nat, v: Data)
    requires g.Fits() && Init(g, s) && g.Home(b)
    ensures Legal(g, s, [Begin(0), Action.Log(0, b, v), Begin(1)])
    ensures !Legal(g, s, [Begin(0), Action.Log(0, b, v), Begin(1), Begin(2)])
    ensures Legal(g, s, [Begin(0), Begin(1), Begin(2)])
  {
    assert s.open == map[] && s.hdr == [] && s.phase.Running?;
    hide Init, Apply, Legal, Final;
    var a := Action.Log(0, b, v);
    EmptyLegal(g, s);
    SnocLegal(g, s, [], Begin(0));
    BeginEffect(g, s, 0);
    var s1 := Apply(g, s, Begin(0));
    assert [] + [Begin(0)] == [Begin(0)];
    FirstLog(g, s1, 0, b, v);
    SnocLegal(g, s, [Begin(0)], a);
    var s2 := Apply(g, s1, a);
    assert [Begin(0)] + [a] == [Begin(0), a];
    SnocLegal(g, s, [Begin(0), a], Begin(1));
    BeginEffect(g, s2, 1);
    assert [Begin(0), a] + [Begin(1)] == [Begin(0), a, Begin(1)];
    SnocLegal(g, s, [Begin(0), a, Begin(1)], Begin(2));
    assert [Begin(0), a, Begin(1)] + [Begin(2)] == [Begin(0), a, Begin(1), Begin(2)];
    ThreeQuotas(g, s, s1);
  }

  lemma EmptyLegal(g: Layout, s: State)
    ensures Legal(g, s, []) && Final(g, s, []) == s
  {
  }

  lemma ThreeQuotas(g: Layout, s: State, s1: State)
    requires Legal(g, s, [Begin(0)]) && Final(g, s, [Begin(0)]) == s1
    requires s1.phase.Running? && s1.hdr == [] && s1.open.Keys == {0} && |s1.open| == 1
    ensures Legal(g, s, [Begin(0), Begin(1), Begin(2)])
  {
    hide Legal, Final, Apply;
    SnocLegal(g, s, [Begin(0)], Begin(1));
    BeginEffect(g, s1, 1);
    assert [Begin(0)] + [Begin(1)] == [Begin(0), Begin(1)];
    SnocLegal(g, s, [Begin(0), Begin(1)], Begin(2));
    assert [Begin(0), Begin(1)] + [Begin(2)] == [Begin(0), Begin(1), Begin(2)];
  }

  lemma SnocLegal(g: Layout, s: State, run: seq<Action>, a: Action)
    ensures Legal(g, s, run + [a]) <==> Legal(g, s, run) && Enabled(g, Final(g, s, run), a)
    ensures Legal(g, s, run + [a]) ==> Final(g, s, run + [a]) == Apply(g, Final(g, s, run), a)
  {
    assert (run + [a])[..|run|] == run;
    hide Apply, Enabled;
  }

  // ---------------------------------------------------------------- progress

  /** How far a state is from a log at rest: the stage, and what is left to do in it. */
  ghost function Stage(s: State): nat {
    match s.phase
    case Down => 5
    case Replaying(_) => 4
    case Running => if s.open == map[] then 0 else 3
    case LogWriting(_) => 2
    case Installing(_) => 1
    case Panicked => 0
  }

  ghost function Work(s: State): nat {
    match s.phase
    case Running => |s.open|
    case LogWriting(p) => |p|
    case Installing(p) => |p|
    case Replaying(p) => |p|
    case _ => 0
  }

  ghost predicate AtRest(s: State) {
    s.phase.Running? && s.open == map[] && s.hdr == []
  }

  /** The steps by which transactions end, commits finish and recoveries go on. */
  predicate Settling(a: Action) {
    !a.Begin? && !a.Log? && !a.Crash?
  }

  ghost predicate Closer(s': State, s: State) {
    Stage(s') < Stage(s) || (Stage(s') == Stage(s) && Work(s') < Work(s))
  }

  lemma EndCloser(g: Layout, s: State, t: nat)
    requires s.phase.Running? && t in s.open
    ensures Closer(Apply(g, s, End(t)), s)
  {
    hide Copies, Indices;
    assert (s.open - {t}).Keys == s.open.Keys - {t};
  }

  lemma OnePutCloser(g: Layout, s: State, i: nat)
    requires !s.phase.Running? && !s.phase.Down? && !s.phase.Panicked? && i in s.phase.pending
    ensures s.phase.LogWriting? ==> Closer(Apply(g, s, PutLog(i)), s)
    ensures s.phase.Installing? ==> Closer(Apply(g, s, PutHome(i)), s)
    ensures s.phase.Replaying? ==> Closer(Apply(g, s, Replay(i)), s)
  {
    hide Put, Entry, At;
  }

  lemma HeaderCloser(g: Layout, s: State)
    requires s.open == map[]
    ensures s.phase == LogWriting({}) ==> Closer(Apply(g, s, PutHeader), s)
    ensures s.phase == Installing({}) ==> Closer(Apply(g, s, Clear), s)
    ensures s.phase == Replaying({}) ==> Closer(Apply(g, s, ClearAfterReplay), s)
    ensures s.phase.Down? ==> Closer(Apply(g, s, ReadHeader), s)
  {
    hide Indices;
  }

  lemma PhaseOpen(g: Layout, s: State)
    requires Inv(g, s)
    ensures !s.phase.Panicked? && (!s.phase.Running? ==> s.open == map[])
    ensures s.phase.Running? && s.open == map[] ==> AtRest(s)
  {
  }

  /** There is such a step, and it comes closer. */
  lemma NextStep(g: Layout, s: State) returns (a: Action)
    requires Inv(g, s) && !AtRest(s)
    ensures Settling(a) && Enabled(g, s, a) && Closer(Apply(g, s, a), s)
  {
    hide Inv, AtRest, Apply, Closer;
    PhaseOpen(g, s);
    if s.phase.Running? {
      var t :| t in s.open;
      a := End(t);
      EndCloser(g, s, t);
    } else {
      HeaderCloser(g, s);
      if s.phase.Down? {
        a := ReadHeader;
      } else if s.phase.pending == {} {
        a := if s.phase.LogWriting? then PutHeader else if s.phase.Installing? then Clear else ClearAfterReplay;
      } else {
        var i :| i in s.phase.pending;
        OnePutCloser(g, s, i);
        a := if s.phase.LogWriting? then PutLog(i) else if s.phase.Installing? then PutHome(i) else Replay(i);
      }
    }
  }

  /** Whatever the state of a run is, in the midst of a commit or of a recovery, there is a way on by ends of
      open transactions and steps of commit and recovery alone after which every waiter is let in. */
  lemma {:induction false} WaiterIsAdmitted(g: Layout, s: State, run: seq<Action>) returns (more: seq<Action>)
    requires g.Fits() && Init(g, s) && Legal(g, s, run)
    ensures Legal(g, s, run + more) && forall a :: a in more ==> Settling(a)
    ensures AtRest(Final(g, s, run + more)) && forall t: nat :: Legal(g, s, run + more + [Begin(t)])
    decreases Stage(Final(g, s, run)), Work(Final(g, s, run))
  {
    hide Inv, Apply, Enabled, Init;
    InvInit(g, s);
    RunKeepsInv(g, s, run);
    var f := Final(g, s, run);
    if AtRest(f) {
      more := [];
      assert run + [] == run;
      forall t: nat ensures Legal(g, s, run + [] + [Begin(t)]) {
        RestAdmits(g, f, t);
        SnocLegal(g, s, run, Begin(t));
      }
    } else {
      var a := NextStep(g, f);
      SnocLegal(g, s, run, a);
      var rest := WaiterIsAdmitted(g, s, run + [a]);
      more := [a] + rest;
      assert run + more == run + [a] + rest;
    }
  }

  lemma RestAdmits(g: Layout, s: State, t: nat)
    requires AtRest(s)
    ensures Enabled(g, s, Begin(t))
  {
  }
}
