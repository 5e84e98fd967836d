/** Transactions of the log are all or nothing: what a recovery gives, told from the log_write calls of the run. */
module LogHistory {
  import opened Params
  import opened Lists
  import opened LogProtocol

  ghost predicate NoCrash(run: seq<Action>, lo: int, hi: int) {
    forall m :: lo < m < hi && 0 <= m < |run| ==> !run[m].Crash?
  }

  /** A header write followed step j, with no crash in between. */
  ghost predicate Covered(run: seq<Action>, j: nat) {
    exists h: nat :: j < h < |run| && run[h].PutHeader? && NoCrash(run, j, h)
  }

  ghost predicate Alive(run: seq<Action>, j: nat) {
    NoCrash(run, j, |run|)
  }

  ghost predicate LogsTo(run: seq<Action>, j: nat, b: nat) {
    j < |run| && run[j].Log? && run[j].b == b
  }

  /** The log_write calls that count: those that became durable, and with `live` also those no crash has undone. */
  ghost predicate Counts(run: seq<Action>, j: nat, live: bool) {
    Covered(run, j) || (live && Alive(run, j))
  }

  ghost predicate IsLast(run: seq<Action>, b: nat, live: bool, j: nat) {
    LogsTo(run, j, b) && Counts(run, j, live) && forall k: nat :: j < k && LogsTo(run, k, b) ==> !Counts(run, k, live)
  }

  ghost predicate NoneCounts(run: seq<Action>, b: nat, live: bool) {
    forall j: nat :: LogsTo(run, j, b) ==> !Counts(run, j, live)
  }

  /** v is what the last counting log_write gave block b, or its first contents where there is none. */
  ghost predicate Shows(run: seq<Action>, b: nat, live: bool, v: Data, first: Data) {
    (exists j: nat :: IsLast(run, b, live, j) && run[j].v == v) || (NoneCounts(run, b, live) && v == first)
  }

  lemma CoveredSnoc(run: seq<Action>, a: Action, j: nat)
    requires j < |run|
    ensures Covered(run + [a], j) <==> Covered(run, j) || (a.PutHeader? && Alive(run, j))
    ensures Alive(run + [a], j) <==> Alive(run, j) && !a.Crash?
  {
    var r := run + [a];
    assert forall m :: 0 <= m < |run| ==> r[m] == run[m];
    assert r[|run|] == a;
    if Covered(r, j) {
      var h: nat :| j < h < |r| && r[h].PutHeader? && NoCrash(r, j, h);
      assert NoCrash(run, j, h);
    }
    if Covered(run, j) {
      var h: nat :| j < h < |run| && run[h].PutHeader? && NoCrash(run, j, h);
      assert NoCrash(r, j, h);
    }
    if a.PutHeader? && Alive(run, j) {
      assert NoCrash(r, j, |run|);
    }
    if Alive(r, j) {
      assert NoCrash(run, j, |run|);
    }
  }

  lemma NewestStep(run: seq<Action>, a: Action)
    ensures !Covered(run + [a], |run|) && Alive(run + [a], |run|)
  {
  }

  /** Two runs with the same counting calls to b show the same. */
  lemma ShowsSame(run: seq<Action>, live: bool, r: seq<Action>, live': bool, b: nat, v: Data, first: Data)
    requires Shows(run, b, live, v, first)
    requires forall j: nat :: LogsTo(run, j, b) <==> LogsTo(r, j, b)
    requires forall j: nat :: LogsTo(run, j, b) ==>
               j < |r| && run[j] == r[j] && (Counts(run, j, live) <==> Counts(r, j, live'))
    ensures Shows(r, b, live', v, first)
  {
    hide Counts;
    if exists j: nat :: IsLast(run, b, live, j) && run[j].v == v {
      var j: nat :| IsLast(run, b, live, j) && run[j].v == v;
      assert IsLast(r, b, live', j);
    }
  }

  /** A step that logs nothing to b, and neither writes the header nor crashes. */
  lemma ShowsSnoc(run: seq<Action>, a: Action, live: bool, b: nat, v: Data, first: Data)
    requires Shows(run, b, live, v, first) && !(a.Log? && a.b == b)
    requires a.PutHeader? ==> live
    requires a.Crash? ==> !live
    ensures Shows(run + [a], b, live, v, first)
    ensures a.PutHeader? ==> Shows(run + [a], b, false, v, first)
  {
    var r := run + [a];
    forall j: nat ensures LogsTo(run, j, b) <==> LogsTo(r, j, b) {
      assert j < |run| ==> r[j] == run[j];
    }
    forall j: nat | LogsTo(run, j, b)
      ensures run[j] == r[j] && (Counts(run, j, live) <==> Counts(r, j, live))
      ensures a.PutHeader? ==> (Counts(run, j, live) <==> Counts(r, j, false))
    {
      CoveredSnoc(run, a, j);
    }
    ShowsSame(run, live, r, live, b, v, first);
    if a.PutHeader? {
      ShowsSame(run, live, r, false, b, v, first);
    }
  }

  /** A call to b is the last live one; what is covered stays what it was. */
  lemma ShowsLog(run: seq<Action>, t: nat, b: nat, v: Data, first: Data, was: Data)
    requires Shows(run, b, false, was, first)
    ensures Shows(run + [Log(t, b, v)], b, true, v, first) && Shows(run + [Log(t, b, v)], b, false, was, first)
  {
    var a := Log(t, b, v);
    var r := run + [a];
    NewestStep(run, a);
    assert r[|run|] == a;
    assert IsLast(r, b, true, |run|);
    forall j: nat | j < |run| ensures r[j] == run[j] && (Covered(r, j) <==> Covered(run, j)) {
      CoveredSnoc(run, a, j);
    }
    hide Covered, Alive;
    if exists j: nat :: IsLast(run, b, false, j) && run[j].v == was {
      var j: nat :| IsLast(run, b, false, j) && run[j].v == was;
      KeepsLast(run, r, b, j);
    } else {
      KeepsNone(run, r, b);
    }
  }

  lemma KeepsLast(run: seq<Action>, r: seq<Action>, b: nat, j: nat)
    requires |r| == |run| + 1 && !Covered(r, |run|) && IsLast(run, b, false, j)
    requires forall j: nat :: j < |run| ==> r[j] == run[j] && (Covered(r, j) <==> Covered(run, j))
    ensures IsLast(r, b, false, j)
  {
    hide Covered, Alive;
    assert r[j] == run[j];
    forall k: nat | j < k && LogsTo(r, k, b) ensures !Counts(r, k, false) {
      assert k < |run| ==> r[k] == run[k] && LogsTo(run, k, b);
    }
  }

  lemma KeepsNone(run: seq<Action>, r: seq<Action>, b: nat)
    requires |r| == |run| + 1 && !Covered(r, |run|) && NoneCounts(run, b, false)
    requires forall j: nat :: j < |run| ==> r[j] == run[j] && (Covered(r, j) <==> Covered(run, j))
    ensures NoneCounts(r, b, false)
  {
    hide Covered, Alive;
    forall k: nat | LogsTo(r, k, b) ensures !Counts(r, k, false) {
      assert k < |run| ==> r[k] == run[k] && LogsTo(run, k, b);
    }
  }

  ghost predicate Up(s: State) {
    s.phase.Running? || s.phase.LogWriting? || s.phase.Installing?
  }

  /** Durable and cached contents as the calls tell them; while the machine is down no call is live. */
  ghost predicate Told(g: Layout, s: State, run: seq<Action>)
    requires Legal(g, s, run)
  {
    var f := Final(g, s, run);
    && |f.view| == |Durable(g, s, run)| == |s.disk.blocks| == g.total
    && (forall b: nat :: g.Home(b) ==>
          && Shows(run, b, false, Durable(g, s, run)[b], s.disk.blocks[b])
          && (Up(f) ==> Shows(run, b, true, f.view[b], s.disk.blocks[b])))
    && (!Up(f) ==> forall j: nat :: j < |run| && run[j].Log? ==> !Alive(run, j))
  }

  lemma ViewStep(g: Layout, s: State, a: Action)
    requires Inv(g, s) && Enabled(g, s, a)
    ensures var t := Apply(g, s, a);
            && |t.view| == |s.view| == g.total
            && (a.Log? ==> Up(s) && Up(t) && a.b < g.total && t.view == s.view[a.b := a.v])
            && (a.PutHeader? ==> Up(s) && Up(t) && t.view == s.view)
            && (a.ClearAfterReplay? ==> !Up(s) && Up(t) && t.open == map[] && t.phase.Running?)
            && (a.Crash? ==> !Up(t))
            && (a.ReadHeader? || a.Replay? ==> !Up(s) && !Up(t))
            && (a.Begin? || a.End? || a.PutLog? || a.PutHome? || a.Clear? ==> Up(s) && Up(t) && t.view == s.view)
  {
    StepKeepsOutcome(g, s, a);
    if a.Log? {
      OpenMeansRoom(g, s, a.t, a.b);
    }
  }

  /** Over every run: each home block of the durable contents, which any recovery gives, carries the value of
      the last log_write to it that a header write has covered, or its first contents. */
  lemma {:induction false} DurableIsTold(g: Layout, s: State, run: seq<Action>)
    requires g.Fits() && Init(g, s) && Legal(g, s, run)
    ensures Told(g, s, run)
    decreases |run|
  {
    if run == [] {
      forall b: nat | g.Home(b)
        ensures Shows(run, b, false, s.disk.blocks[b], s.disk.blocks[b])
        ensures Shows(run, b, true, s.disk.blocks[b], s.disk.blocks[b])
      {
        assert NoneCounts(run, b, false) && NoneCounts(run, b, true);
      }
    } else {
      var r, a := run[..|run| - 1], run[|run| - 1];
      assert run == r + [a];
      DurableIsTold(g, s, r);
      ToldStep(g, s, r, a);
    }
  }

  lemma ToldStep(g: Layout, s: State, run: seq<Action>, a: Action)
    requires g.Fits() && Init(g, s) && Legal(g, s, run + [a]) && Legal(g, s, run) && Told(g, s, run)
    ensures Told(g, s, run + [a])
  {
    var r := run + [a];
    assert r[..|r| - 1] == run && r[|r| - 1] == a;
    var f := Final(g, s, run);
    assert Enabled(g, f, a) && Final(g, s, r) == Apply(g, f, a);
    assert Durable(g, s, r) == if a.PutHeader? then f.view else Durable(g, s, run);
    InvInit(g, s);
    RunKeepsInv(g, s, run);
    ViewStep(g, f, a);
    if a.ClearAfterReplay? {
      IdleViewIsDurable(g, s, r);
    }
    hide Inv, Init, Apply, Enabled, Legal, Final, Durable, Shows;
    forall b: nat | g.Home(b)
      ensures Shows(r, b, false, Durable(g, s, r)[b], s.disk.blocks[b])
      ensures Up(Final(g, s, r)) ==> Shows(r, b, true, Final(g, s, r).view[b], s.disk.blocks[b])
    {
      BlockStep(g, s, run, a, b);
    }
    forall j: nat | !Up(Final(g, s, r)) && j < |r| && r[j].Log? ensures !Alive(r, j) {
      CoveredSnoc(run, a, j);
      assert r[j] == run[j];
      if a.Crash? {
        assert r[|run|].Crash?;
      }
    }
  }

  lemma BlockStep(g: Layout, s: State, run: seq<Action>, a: Action, b: nat)
    requires Legal(g, s, run) && Legal(g, s, run + [a]) && Told(g, s, run) && g.Home(b)
    requires var f, t := Final(g, s, run), Final(g, s, run + [a]);
             && |t.view| == g.total && |Durable(g, s, run + [a])| == g.total
             && Durable(g, s, run + [a]) == (if a.PutHeader? then f.view else Durable(g, s, run))
             && (a.Log? ==> Up(f) && a.b < g.total && t.view == f.view[a.b := a.v])
             && (a.PutHeader? ==> Up(f) && t.view == f.view)
             && (a.ClearAfterReplay? ==> !Up(f) && SameHome(g, t.view, Durable(g, s, run + [a])))
             && (a.Crash? ==> !Up(t))
             && (a.ReadHeader? || a.Replay? ==> !Up(t))
             && (a.Begin? || a.End? || a.PutLog? || a.PutHome? || a.Clear? ==> Up(f) && t.view == f.view)
    ensures Shows(run + [a], b, false, Durable(g, s, run + [a])[b], s.disk.blocks[b])
    ensures Up(Final(g, s, run + [a])) ==> Shows(run + [a], b, true, Final(g, s, run + [a]).view[b], s.disk.blocks[b])
  {
    hide Legal, Final, Durable, Shows, Up;
    var f, first := Final(g, s, run), s.disk.blocks[b];
    var d := Durable(g, s, run)[b];
    if a.Log? && a.b == b {
      ShowsLog(run, a.t, b, a.v, first, d);
    } else {
      if a.PutHeader? {
        ShowsSnoc(run, a, true, b, f.view[b], first);
      } else {
        ShowsSnoc(run, a, false, b, d, first);
        if a.ClearAfterReplay? {
          NothingLive(run + [a], b, d, first, run, a);
        } else if Up(f) && !a.Crash? {
          ShowsSnoc(run, a, true, b, f.view[b], first);
        }
      }
    }
  }

  lemma NothingLive(r: seq<Action>, b: nat, v: Data, first: Data, run: seq<Action>, a: Action)
    requires r == run + [a] && a.ClearAfterReplay? && Shows(r, b, false, v, first)
    requires forall j: nat :: j < |run| && run[j].Log? ==> !Alive(run, j)
    ensures Shows(r, b, true, v, first)
  {
    forall j: nat | LogsTo(r, j, b) ensures Counts(r, j, false) <==> Counts(r, j, true) {
      CoveredSnoc(run, a, j);
      assert r[j] == run[j];
    }
    ShowsSame(r, false, r, true, b, v, first);
  }

  // ---------------------------------------------------------------- all or none

  /** Steps j < k are log_write calls of one transaction: of t, with neither its end nor a crash in between. */
  ghost predicate OneTransaction(run: seq<Action>, t: nat, j: nat, k: nat) {
    && j < k < |run| && run[j].Log? && run[k].Log? && run[j].t == run[k].t == t
    && forall m :: j < m < k ==> !run[m].Crash? && run[m] != End(t)
  }

  lemma LastStep(g: Layout, s: State, run: seq<Action>)
    requires Legal(g, s, run) && run != []
    ensures var n := |run| - 1;
            && Legal(g, s, run[..n]) && Enabled(g, Final(g, s, run[..n]), run[n])
            && Final(g, s, run) == Apply(g, Final(g, s, run[..n]), run[n])
  {
    hide Enabled, Apply;
  }

  lemma StepOpen(g: Layout, s: State, a: Action, t: nat)
    requires Enabled(g, s, a) && !a.Crash? && a != End(t) && (t in s.open || (a.Log? && a.t == t))
    ensures t in Apply(g, s, a).open
  {
  }

  lemma {:induction false} StaysOpen(g: Layout, s: State, run: seq<Action>, t: nat, j: nat)
    requires Legal(g, s, run) && j < |run| && run[j].Log? && run[j].t == t
    requires forall m :: j < m < |run| ==> !run[m].Crash? && run[m] != End(t)
    ensures t in Final(g, s, run).open
    decreases |run|
  {
    hide Legal, Final, Enabled, Apply;
    var n := |run| - 1;
    LastStep(g, s, run);
    if j < n {
      StaysOpen(g, s, run[..n], t, j);
    }
    StepOpen(g, Final(g, s, run[..n]), run[n], t);
  }

  lemma {:induction false} LegalPrefix(g: Layout, s: State, run: seq<Action>, n: nat)
    requires Legal(g, s, run) && n <= |run|
    ensures Legal(g, s, run[..n])
  {
    assert run == run[..n] + run[n..];
    LegalSplit(g, s, run[..n], run[n..]);
  }

  /** Of one transaction either all log_write calls are covered by a header write or none. */
  lemma AllOrNone(g: Layout, s: State, run: seq<Action>, t: nat, j: nat, k: nat)
    requires g.Fits() && Init(g, s) && Legal(g, s, run) && OneTransaction(run, t, j, k)
    ensures Covered(run, j) <==> Covered(run, k)
  {
    hide Legal, Final, Init;
    if Covered(run, k) {
      var h: nat :| k < h < |run| && run[h].PutHeader? && NoCrash(run, k, h);
      assert NoCrash(run, j, h);
    }
    if Covered(run, j) {
      var h: nat :| j < h < |run| && run[h].PutHeader? && NoCrash(run, j, h);
      if h < k {
        NoHeaderWhileOpen(g, s, run, t, j, h);
      }
      assert NoCrash(run, k, h);
    }
  }

  /** While a transaction is open the header is not written. */
  lemma NoHeaderWhileOpen(g: Layout, s: State, run: seq<Action>, t: nat, j: nat, h: nat)
    requires g.Fits() && Init(g, s) && Legal(g, s, run) && j < h < |run| && run[j].Log? && run[j].t == t
    requires forall m :: j < m < h ==> !run[m].Crash? && run[m] != End(t)
    ensures !run[h].PutHeader?
  {
    StepAt(g, s, run, h);
    StaysOpen(g, s, run[..h], t, j);
    InvInit(g, s);
    RunKeepsInv(g, s, run[..h]);
    hide Legal, Final, Init;
  }

  lemma StepAt(g: Layout, s: State, run: seq<Action>, h: nat)
    requires Legal(g, s, run) && h < |run|
    ensures Legal(g, s, run[..h]) && Enabled(g, Final(g, s, run[..h]), run[h])
  {
    LegalPrefix(g, s, run, h + 1);
    assert run[..h + 1][..h] == run[..h];
    hide Final, Enabled;
  }
}
