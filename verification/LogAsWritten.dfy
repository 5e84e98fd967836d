/** kern/log.c where the code departs from what it means: the re-read of logged blocks and the size of the log. */
module LogAsWritten {
  import opened Params
  import opened Lists
  import opened LogProtocol

  // ---------------------------------------------------------------- bread of a logged block

  /** As written, log_write clears B_VALID, so the next bread of a logged block sends its cached contents home
      at once (kern/bio.c:127-129).  The protocol takes bread to return the cached copy. */
  function Reread(s: State, b: nat): State {
    if b in s.hdr then s.(disk := s.disk.(blocks := Put(s.disk.blocks, b, At(s.view, b)))) else s
  }

  /** The block is not logged, or its home copy is up to date, or the log on disk has it already. */
  predicate Harmless(s: State, b: nat) {
    b !in s.hdr || s.phase.Installing? || At(s.view, b) == At(s.disk.blocks, b)
  }

  lemma RereadKeepsInv(g: Layout, s: State, b: nat)
    requires Inv(g, s)
    ensures Inv(g, Reread(s, b))
  {
    if b in s.hdr {
      assert g.Home(b);
      var s' := Reread(s, b);
      assert forall i :: 0 <= i < |s.hdr| ==> s'.disk.blocks[g.Slot(i)] == s.disk.blocks[g.Slot(i)];
    }
  }

  /** In every state of the protocol: the early write leaves what a recovery gives as it is exactly when it is
      harmless. */
  lemma RereadBreaksAtomicity(g: Layout, s: State, b: nat)
    requires Inv(g, s)
    ensures Inv(g, Reread(s, b))
    ensures SameHome(g, Recover(g, Reread(s, b).disk).blocks, Recover(g, s.disk).blocks) <==> Harmless(s, b)
  {
    RereadKeepsInv(g, s, b);
    if b in s.hdr {
      assert g.Home(b);
      if s.phase.Installing? {
        RereadInstalling(g, s, b);
      } else if s.phase.Running? || s.phase.LogWriting? {
        assert Replayed(g, s.disk, 0) == s.disk.blocks;
        assert Replayed(g, Reread(s, b).disk, 0) == Reread(s, b).disk.blocks;
      } else {
        assert Reread(s, b).disk == s.disk;
      }
    }
  }

  lemma RereadInstalling(g: Layout, s: State, b: nat)
    requires Inv(g, s) && Inv(g, Reread(s, b)) && s.phase.Installing? && b in s.hdr
    ensures SameHome(g, Recover(g, Reread(s, b).disk).blocks, Recover(g, s.disk).blocks)
  {
    var d, c := Reread(s, b).disk, Recover(g, s.disk).blocks;
    RecoverMeaning(g, s.disk, c);
    RecoverMeaning(g, d, c);
    assert forall i :: 0 <= i < |s.hdr| ==> d.blocks[g.Slot(i)] == s.disk.blocks[g.Slot(i)];
  }

  // ---------------------------------------------------------------- runs with re-reads

  /** A step of the protocol, or a bread. */
  datatype Move = Do(a: Action) | Bread(b: nat)

  predicate Allowed(g: Layout, s: State, m: Move) {
    m.Do? ==> Enabled(g, s, m.a)
  }

  function Step(g: Layout, s: State, m: Move): State
    requires Allowed(g, s, m)
  {
    match m
    case Do(a) => Apply(g, s, a)
    case Bread(b) => Reread(s, b)
  }

  ghost predicate LegalMoves(g: Layout, s: State, run: seq<Move>)
    decreases |run|, 0
  {
    run == [] ||
    (var n := |run| - 1;
     LegalMoves(g, s, run[..n]) && Allowed(g, FinalState(g, s, run[..n]), run[n]))
  }

  ghost function FinalState(g: Layout, s: State, run: seq<Move>): State
    requires LegalMoves(g, s, run)
    decreases |run|, 1
  {
    if run == [] then s
    else var n := |run| - 1; Step(g, FinalState(g, s, run[..n]), run[n])
  }

  /** The view at the last header write, or the start. */
  ghost function DurableState(g: Layout, s: State, run: seq<Move>): seq<Data>
    requires LegalMoves(g, s, run)
    decreases |run|
  {
    if run == [] then s.disk.blocks
    else
      var n := |run| - 1;
      if run[n] == Do(PutHeader) then FinalState(g, s, run[..n]).view else DurableState(g, s, run[..n])
  }

  /** Recovery from the disk after the run gives the durable contents. */
  ghost predicate Atomic(g: Layout, s: State, run: seq<Move>)
    requires LegalMoves(g, s, run)
  {
    var d := FinalState(g, s, run).disk;
    GoodDisk(g, d) && SameHome(g, Recover(g, d).blocks, DurableState(g, s, run))
  }

  ghost predicate HarmlessLast(g: Layout, s: State, run: seq<Move>)
    requires LegalMoves(g, s, run)
  {
    run != [] && run[|run| - 1].Bread? ==>
      LegalMoves(g, s, run[..|run| - 1]) && Harmless(FinalState(g, s, run[..|run| - 1]), run[|run| - 1].b)
  }

  lemma {:induction false} MovesKeepInv(g: Layout, s: State, run: seq<Move>)
    requires g.Fits() && Init(g, s) && LegalMoves(g, s, run)
    ensures Inv(g, FinalState(g, s, run))
    decreases |run|
  {
    InvInit(g, s);
    if run != [] {
      var n := |run| - 1;
      MovesKeepInv(g, s, run[..n]);
      hide Inv, Apply, Reread;
      if run[n].Do? {
        StepKeepsOutcome(g, FinalState(g, s, run[..n]), run[n].a);
      } else {
        RereadKeepsInv(g, FinalState(g, s, run[..n]), run[n].b);
      }
    }
  }

  /** One more move keeps recovery at the durable contents exactly when it is no harmful re-read. */
  lemma OneMoreMove(g: Layout, s: State, run: seq<Move>)
    requires g.Fits() && Init(g, s) && LegalMoves(g, s, run) && run != []
    requires LegalMoves(g, s, run[..|run| - 1]) && Atomic(g, s, run[..|run| - 1])
    ensures Atomic(g, s, run) <==> HarmlessLast(g, s, run)
  {
    var n := |run| - 1;
    var t := FinalState(g, s, run[..n]);
    MovesKeepInv(g, s, run[..n]);
    hide Init, Inv, Apply, Reread, Recover, Harmless;
    if run[n].Do? {
      StepKeepsOutcome(g, t, run[n].a);
      InvDisk(g, Step(g, t, run[n]));
    } else {
      RereadBreaksAtomicity(g, t, run[n].b);
      InvDisk(g, Reread(t, run[n].b));
    }
  }

  lemma InvDisk(g: Layout, s: State)
    requires Inv(g, s)
    ensures GoodDisk(g, s.disk)
  {
  }

  lemma {:induction false} Prefixes(g: Layout, s: State, run: seq<Move>, n: nat)
    requires LegalMoves(g, s, run) && n <= |run|
    ensures LegalMoves(g, s, run[..n])
    decreases |run|
  {
    if n < |run| {
      Prefixes(g, s, run[..|run| - 1], n);
      assert run[..|run| - 1][..n] == run[..n];
    } else {
      assert run[..n] == run;
    }
  }

  /** At every point of the run recovery gives the durable contents. */
  ghost predicate AtomicThroughout(g: Layout, s: State, run: seq<Move>) {
    forall n: nat :: n <= |run| ==> LegalMoves(g, s, run[..n]) && Atomic(g, s, run[..n])
  }

  /** No re-read of the run does harm. */
  ghost predicate HarmlessThroughout(g: Layout, s: State, run: seq<Move>) {
    forall n: nat :: n <= |run| ==> LegalMoves(g, s, run[..n]) && HarmlessLast(g, s, run[..n])
  }

  lemma ThroughoutSnoc(g: Layout, s: State, run: seq<Move>)
    requires LegalMoves(g, s, run) && run != []
    ensures var r := run[..|run| - 1];
            && (AtomicThroughout(g, s, run) <==> AtomicThroughout(g, s, r) && Atomic(g, s, run))
            && (HarmlessThroughout(g, s, run) <==> HarmlessThroughout(g, s, r) && HarmlessLast(g, s, run))
  {
    hide LegalMoves, Atomic, HarmlessLast;
    var r := run[..|run| - 1];
    assert run[..|run|] == run;
    assert forall n: nat :: n <= |r| ==> run[..n] == r[..n];
  }

  /** Over every run of the code as written: recovery stays at the durable contents throughout exactly when no
      logged block whose home copy differs is re-read before the header write. */
  lemma {:induction false} AtomicityAsWritten(g: Layout, s: State, run: seq<Move>)
    requires g.Fits() && Init(g, s) && LegalMoves(g, s, run)
    ensures AtomicThroughout(g, s, run) <==> HarmlessThroughout(g, s, run)
    decreases |run|
  {
    hide Atomic, HarmlessLast, Init;
    if run == [] {
      StartAtomic(g, s);
      assert run[..0] == [];
    } else {
      var r := run[..|run| - 1];
      Prefixes(g, s, run, |run| - 1);
      hide LegalMoves, AtomicThroughout, HarmlessThroughout;
      AtomicityAsWritten(g, s, r);
      ThroughoutSnoc(g, s, run);
      if AtomicThroughout(g, s, r) {
        assert Atomic(g, s, r) by {
          ThroughoutLast(g, s, r);
        }
        OneMoreMove(g, s, run);
      }
    }
  }

  lemma ThroughoutLast(g: Layout, s: State, run: seq<Move>)
    requires AtomicThroughout(g, s, run)
    ensures LegalMoves(g, s, run) && Atomic(g, s, run)
  {
    assert run[..|run|] == run;
  }

  lemma StartAtomic(g: Layout, s: State)
    requires g.Fits() && Init(g, s)
    ensures Atomic(g, s, []) && HarmlessLast(g, s, [])
  {
    InvInit(g, s);
  }

  lemma Snoc(g: Layout, s: State, run: seq<Move>, m: Move)
    requires LegalMoves(g, s, run) && Allowed(g, FinalState(g, s, run), m)
    ensures LegalMoves(g, s, run + [m]) && FinalState(g, s, run + [m]) == Step(g, FinalState(g, s, run), m)
    ensures (run + [m])[..|run|] == run
  {
    assert (run + [m])[..|run|] == run;
  }

  ghost function ExampleRun(b: nat, v: Data): seq<Move> {
    [] + [Do(Begin(0))] + [Do(Log(0, b, v))] + [Do(End(0))] + [Bread(b)]
  }

  /** The failing input, from any fresh file system: one transaction writes one block, and commit reads it
      before the header write. */
  lemma RereadExample(g: Layout, s: State, b: nat, v: Data)
    requires g.Fits() && Init(g, s) && g.Home(b) && v != s.disk.blocks[b]
    ensures LegalMoves(g, s, ExampleRun(b, v)) && FinalState(g, s, ExampleRun(b, v)).phase.LogWriting?
    ensures !Atomic(g, s, ExampleRun(b, v))
  {
    var r0: seq<Move> := [];
    var r1 := r0 + [Do(Begin(0))];
    var r2 := r1 + [Do(Log(0, b, v))];
    var r3 := r2 + [Do(End(0))];
    var states := ExampleStates(g, s, b, v);
    hide Apply, LegalMoves, FinalState;
    EmptyRun(g, s);
    Snoc(g, s, r0, Do(Begin(0)));
    Snoc(g, s, r1, Do(Log(0, b, v)));
    Snoc(g, s, r2, Do(End(0)));
    Snoc(g, s, r3, Bread(b));
    hide Atomic, Init, Harmless;
    StartAtomic(g, s);
    OneMoreMove(g, s, r1);
    OneMoreMove(g, s, r2);
    OneMoreMove(g, s, r3);
    OneMoreMove(g, s, ExampleRun(b, v));
  }

  lemma EmptyRun(g: Layout, s: State)
    ensures LegalMoves(g, s, []) && FinalState(g, s, []) == s
  {
  }

  lemma ExampleStates(g: Layout, s: State, b: nat, v: Data) returns (r: (State, State, State))
    requires g.Fits() && Init(g, s) && g.Home(b) && v != s.disk.blocks[b]
    ensures Enabled(g, s, Begin(0)) && r.0 == Apply(g, s, Begin(0))
    ensures Enabled(g, r.0, Log(0, b, v)) && r.1 == Apply(g, r.0, Log(0, b, v))
    ensures Enabled(g, r.1, End(0)) && r.2 == Apply(g, r.1, End(0))
    ensures r.2.phase.LogWriting? && !Harmless(r.2, b) && Reread(r.2, b).phase.LogWriting?
  {
    var s1 := s.(open := map[0 := {}]);
    assert Apply(g, s, Begin(0)) == s1;
    assert s1.open[0] + {b} == {b};
    var s2 := s1.(open := map[0 := {b}], view := Put(s.view, b, v), hdr := [b]);
    OpenOne({});
    assert LogWrite(g, s1.(view := Put(s.view, b, v)), b) == s1.(view := Put(s.view, b, v), hdr := [b]);
    assert s1.open[0 := {b}] == s2.open;
    assert Apply(g, s1, Log(0, b, v)) == s2;
    var s3 := ExampleEnd(g, s2, b);
    r := (s1, s2, s3);
  }

  lemma OpenOne(bs: set<nat>)
    ensures |map[0 := bs]| == 1
  {
    assert map[0 := bs].Keys == {0};
  }

  lemma ExampleEnd(g: Layout, s: State, b: nat) returns (r: State)
    requires s.phase.Running? && s.open == map[0 := {b}] && s.hdr == [b] && At(s.view, b) != At(s.disk.blocks, b)
    ensures r == Apply(g, s, End(0)) && r.phase.LogWriting? && !Harmless(r, b)
  {
    assert s.open - {0} == map[];
    r := Apply(g, s, End(0));
  }

  /** commit itself re-reads every logged block before the header write (kern/log.c:179). */
  ghost function RereadAll(s: State, n: nat): State
    requires n <= |s.hdr|
  {
    if n == 0 then s else Reread(RereadAll(s, n - 1), s.hdr[n - 1])
  }

  lemma {:induction false} RereadAllEffect(g: Layout, s: State, n: nat)
    requires Inv(g, s) && s.phase.LogWriting? && n <= |s.hdr|
    ensures var t := RereadAll(s, n);
            && Inv(g, t) && t == s.(disk := t.disk) && |t.disk.blocks| == |s.view| == |s.disk.blocks| == g.total
            && (forall b: nat :: g.Home(b) ==>
                  t.disk.blocks[b] == if b in s.hdr[..n] then s.view[b] else s.disk.blocks[b])
  {
    hide Inv, Reread;
    Sizes(g, s);
    if n > 0 {
      RereadAllEffect(g, s, n - 1);
      var t := RereadAll(s, n - 1);
      RereadKeepsInv(g, t, s.hdr[n - 1]);
      assert s.hdr[..n] == s.hdr[..n - 1] + [s.hdr[n - 1]];
      RereadOne(g, t, s.hdr[n - 1]);
    }
  }

  lemma Sizes(g: Layout, s: State)
    requires Inv(g, s)
    ensures |s.disk.blocks| == |s.view| == g.total
  {
  }

  lemma RereadOne(g: Layout, s: State, b: nat)
    requires Inv(g, s) && b in s.hdr
    ensures var d := Reread(s, b).disk;
            && Reread(s, b) == s.(disk := d) && |s.view| == |s.disk.blocks| == g.total && b < g.total
            && d.blocks == s.disk.blocks[b := s.view[b]]
  {
    assert g.Home(b);
  }

  /** Commit as written keeps the old contents up to the header write exactly when no logged block has
      changed. */
  lemma CommitAsWritten(g: Layout, s: State)
    requires Inv(g, s) && s.phase.LogWriting?
    ensures Inv(g, RereadAll(s, |s.hdr|))
    ensures SameHome(g, Recover(g, RereadAll(s, |s.hdr|).disk).blocks, Recover(g, s.disk).blocks)
            <==> forall b :: b in s.hdr ==> s.view[b] == s.disk.blocks[b]
  {
    RereadAllEffect(g, s, |s.hdr|);
    var t := RereadAll(s, |s.hdr|);
    assert s.hdr[..|s.hdr|] == s.hdr;
    NothingToReplay(g, s);
    NothingToReplay(g, t);
    forall b | b in s.hdr ensures g.Home(b) && b < |s.view| {
    }
  }

  lemma NothingToReplay(g: Layout, s: State)
    requires Inv(g, s) && s.phase.LogWriting?
    ensures |s.disk.blocks| == g.total && Recover(g, s.disk).blocks == s.disk.blocks
  {
  }

  // ---------------------------------------------------------------- the size of the log

  /** The blocks that transaction t of the run below logs. */
  ghost function Share(base: nat, t: nat, n: nat): set<nat>
    decreases n
  {
    if n <= MAXOPBLOCKS * t then {}
    else Share(base, t, n - 1) + if n <= MAXOPBLOCKS * (t + 1) then {base + n - 1} else {}
  }

  lemma {:induction false} ShareSize(base: nat, t: nat, n: nat)
    ensures |Share(base, t, n)| == if n <= MAXOPBLOCKS * t then 0
                                   else if n <= MAXOPBLOCKS * (t + 1) then n - MAXOPBLOCKS * t
                                   else MAXOPBLOCKS
    ensures forall b :: b in Share(base, t, n) ==> b < base + n
    decreases n
  {
    if n > MAXOPBLOCKS * t {
      ShareSize(base, t, n - 1);
      assert base + n - 1 !in Share(base, t, n - 1);
    }
  }

  /** Three transactions begin, then log n blocks between them. */
  ghost function Filling(base: nat, n: nat): seq<Action> {
    if n == 0 then [] + [Begin(0)] + [Begin(1)] + [Begin(2)]
    else Filling(base, n - 1) + [Log((n - 1) / MAXOPBLOCKS, base + n - 1, [])]
  }

  ghost function Opened(base: nat, n: nat): map<nat, set<nat>> {
    map[0 := Share(base, 0, n), 1 := Share(base, 1, n), 2 := Share(base, 2, n)]
  }

  ghost predicate Filled(s: State, base: nat, n: nat) {
    s.phase.Running? && s.hdr == seq(n, i => base + i) && s.open == Opened(base, n)
  }

  lemma SnocAction(g: Layout, s: State, run: seq<Action>, a: Action)
    requires Legal(g, s, run) && Enabled(g, Final(g, s, run), a)
    ensures Legal(g, s, run + [a]) && Final(g, s, run + [a]) == Apply(g, Final(g, s, run), a)
  {
    assert (run + [a])[..|run|] == run;
  }

  lemma FillingStarts(g: Layout, s: State, base: nat)
    requires Init(g, s)
    ensures Legal(g, s, Filling(base, 0)) && Filled(Final(g, s, Filling(base, 0)), base, 0)
  {
    var r0: seq<Action> := [];
    assert Legal(g, s, r0) && Final(g, s, r0) == s;
    hide Legal, Final;
    SnocAction(g, s, r0, Begin(0));
    SnocAction(g, s, r0 + [Begin(0)], Begin(1));
    SnocAction(g, s, r0 + [Begin(0)] + [Begin(1)], Begin(2));
  }

  lemma LogStep(g: Layout, s: State, t: nat, b: nat, v: Data)
    requires g.Home(b) && t in s.open && |s.open[t] + {b}| <= MAXOPBLOCKS
    ensures Enabled(g, s, Log(t, b, v))
    ensures var s' := Apply(g, s, Log(t, b, v));
            && s'.phase == s.phase && s'.open == s.open[t := s.open[t] + {b}]
            && s'.hdr == if Full(g, s.hdr) || b in s.hdr then s.hdr else s.hdr + [b]
  {
    assert t in s.open.Keys;
  }

  lemma FillingStep(g: Layout, s: State, base: nat, n: nat)
    requires Filled(s, base, n) && n < LOGSIZE && base >= g.start + g.size && base + LOGSIZE <= g.total
    ensures Enabled(g, s, Log(n / MAXOPBLOCKS, base + n, []))
    ensures !Full(g, s.hdr) ==> Filled(Apply(g, s, Log(n / MAXOPBLOCKS, base + n, [])), base, n + 1)
    ensures Full(g, s.hdr) ==> base + n !in Apply(g, s, Log(n / MAXOPBLOCKS, base + n, [])).hdr
  {
    hide Apply, Enabled, Full, Opened;
    var t, b := n / MAXOPBLOCKS, base + n;
    OpenedNext(base, n);
    LogStep(g, s, t, b, []);
    assert b !in s.hdr;
    SeqSnoc(base, n);
  }

  lemma SeqSnoc(base: nat, n: nat)
    ensures seq(n, i => base + i) + [base + n] == seq(n + 1, i => base + i)
  {
  }

  lemma OpenedNext(base: nat, n: nat)
    requires n < LOGSIZE
    ensures var t, o := n / MAXOPBLOCKS, Opened(base, n);
            && t in o && |o[t] + {base + n}| <= MAXOPBLOCKS && o[t := o[t] + {base + n}] == Opened(base, n + 1)
  {
    hide Share;
    var t := n / MAXOPBLOCKS;
    ShareNext(base, 0, n);
    ShareNext(base, 1, n);
    ShareNext(base, 2, n);
    ShareSize(base, t, n + 1);
    assert t == 0 || t == 1 || t == 2;
    PutOfThree(Share(base, 0, n), Share(base, 1, n), Share(base, 2, n), t, Share(base, t, n + 1));
  }

  lemma PutOfThree(a: set<nat>, b: set<nat>, c: set<nat>, t: nat, x: set<nat>)
    requires t < 3
    ensures map[0 := a, 1 := b, 2 := c][t := x]
            == map[0 := if t == 0 then x else a, 1 := if t == 1 then x else b, 2 := if t == 2 then x else c]
  {
  }

  lemma ShareNext(base: nat, u: nat, n: nat)
    ensures Share(base, u, n + 1) == if u == n / MAXOPBLOCKS then Share(base, u, n) + {base + n} else Share(base, u, n)
  {
    ShareEmpty(base, u, n);
    ShareEmpty(base, u, n + 1);
  }

  lemma ShareEmpty(base: nat, u: nat, n: nat)
    ensures n <= MAXOPBLOCKS * u ==> Share(base, u, n) == {}
  {
  }

  lemma {:induction false} FillingLegal(g: Layout, s: State, base: nat, n: nat)
    requires Init(g, s) && g.size >= LOGSIZE && n <= LOGSIZE - 1
    requires base >= g.start + g.size && base + LOGSIZE <= g.total
    ensures Legal(g, s, Filling(base, n)) && Filled(Final(g, s, Filling(base, n)), base, n)
    decreases n
  {
    hide Init, Legal, Final, Apply, Enabled, Filled;
    if n == 0 {
      FillingStarts(g, s, base);
    } else {
      FillingLegal(g, s, base, n - 1);
      var t := Final(g, s, Filling(base, n - 1));
      FillingStep(g, t, base, n - 1);
      RoomLeft(g, t, base, n - 1);
      SnocAction(g, s, Filling(base, n - 1), Log((n - 1) / MAXOPBLOCKS, base + n - 1, []));
    }
  }

  lemma RoomLeft(g: Layout, s: State, base: nat, n: nat)
    requires Filled(s, base, n) && g.size >= LOGSIZE
    ensures |s.hdr| == n && (n < LOGSIZE - 1 ==> !Full(g, s.hdr))
    ensures g.size == LOGSIZE && n == LOGSIZE - 1 ==> Full(g, s.hdr)
  {
  }

  /** With the size that mkfs writes, three transactions that keep within their reservations fill the log with
      119 blocks, and the last block they may log is refused and left out of the log. */
  lemma LastBlockRefused(g: Layout, s: State, base: nat)
    requires Init(g, s) && g.size == LOGSIZE && base >= g.start + g.size && base + LOGSIZE <= g.total
    ensures var run := Filling(base, LOGSIZE - 1); var a := Log(2, base + LOGSIZE - 1, []);
            && Legal(g, s, run) && Enabled(g, Final(g, s, run), a)
            && |Final(g, s, run).hdr| == LOGSIZE - 1 && base + LOGSIZE - 1 !in Apply(g, Final(g, s, run), a).hdr
  {
    hide Legal, Final, Filling, Filled, Init, Apply, Enabled;
    FillingLegal(g, s, base, LOGSIZE - 1);
    FillingStep(g, Final(g, s, Filling(base, LOGSIZE - 1)), base, LOGSIZE - 1);
    RoomLeft(g, Final(g, s, Filling(base, LOGSIZE - 1)), base, LOGSIZE - 1);
  }
}
