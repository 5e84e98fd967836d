/** The write-ahead log of kern/log.c as a protocol. */
module LogProtocol {
  // Every transition is one critical section or one single-block disk write, so a crash may come between
  // any two of them.  A batch (bwrite_dozens) is a set of pending writes whose members reach the disk one
  // at a time in any order.

  import opened Params
  import opened Lists

  /** Where the log lies: the header in block `start`, log slot i in block `start + 1 + i`. */
  datatype Layout = Layout(start: nat, size: nat, total: nat) {
    predicate Fits() {
      start + size <= total && size >= LOGSIZE + 1
    }

    predicate Home(b: nat) {
      b < total && !(start <= b < start + size)
    }

    function Slot(i: nat): nat {
      start + 1 + i
    }
  }

  /** `header` is the live part (the first nblks entries) of the header block. */
  datatype Disk = Disk(header: seq<nat>, blocks: seq<Data>)

  datatype Phase =
    | Running                          // committing == 0
    | LogWriting(pending: set<nat>)    // commit(): the log blocks are on their way to the disk
    | Installing(pending: set<nat>)    // commit(): the home blocks are on their way to the disk
    | Down                             // crashed; only the disk is left
    | Replaying(pending: set<nat>)     // recover_from_log(): the home blocks are on their way
    | Panicked                         // end_transaction found `committing` set

  /** `hdr` is the in-memory header, `view` what bread returns for each block, `buf` the copies in
      buf_ptrs.  `open` maps each open transaction to the blocks it has logged; n_occupiers is its size. */
  datatype State = State(disk: Disk, hdr: seq<nat>, view: seq<Data>, buf: seq<Data>,
                         open: map<nat, set<nat>>, phase: Phase)

  datatype Action =
    | Begin(t: nat)
    | Log(t: nat, b: nat, v: Data)
    | End(t: nat)
    | PutLog(i: nat)
    | PutHeader
    | PutHome(i: nat)
    | Clear
    | Crash
    | ReadHeader
    | Replay(i: nat)
    | ClearAfterReplay

  // ---------------------------------------------------------------- transitions

  function At(s: seq<Data>, i: nat): Data {
    if i < |s| then s[i] else []
  }

  function Put(s: seq<Data>, i: nat, v: Data): seq<Data> {
    if i < |s| then s[i := v] else s
  }

  function Entry(h: seq<nat>, i: nat): nat {
    if i < |h| then h[i] else 0
  }

  function Below(n: nat): (r: set<nat>)
    ensures forall i :: i in r <==> 0 <= i < n
  {
    if n == 0 then {} else Below(n - 1) + {n - 1}
  }

  function Indices(h: seq<nat>): set<nat> {
    Below(|h|)
  }

  /** log_write's own test for room, made before it looks for the block in the header. */
  predicate FullAt(size: nat, nblks: nat) {
    nblks >= LOGSIZE || nblks >= size - 1
  }

  predicate Full(g: Layout, hdr: seq<nat>) {
    FullAt(g.size, |hdr|)
  }

  /** begin_transaction's test; the caller sleeps while it fails. */
  predicate Admits(s: State) {
    s.phase.Running? && |s.hdr| + (|s.open| + 1) * MAXOPBLOCKS <= LOGSIZE
  }

  /** When each transition may happen.  Log and End ask only what their callers promise: an open
      transaction, and for Log a home block and at most MAXOPBLOCKS distinct blocks. */
  predicate Enabled(g: Layout, s: State, a: Action) {
    match a
    case Begin(t) => t !in s.open && Admits(s)
    case Log(t, b, v) => t in s.open && g.Home(b) && |s.open[t] + {b}| <= MAXOPBLOCKS
    case End(t) => t in s.open
    case PutLog(i) => s.phase.LogWriting? && i in s.phase.pending
    case PutHeader => s.phase == LogWriting({})
    case PutHome(i) => s.phase.Installing? && i in s.phase.pending
    case Clear => s.phase == Installing({})
    case Crash => true
    case ReadHeader => s.phase.Down?
    case Replay(i) => s.phase.Replaying? && i in s.phase.pending
    case ClearAfterReplay => s.phase == Replaying({})
  }

  function LogWrite(g: Layout, s: State, b: nat): State {
    if Full(g, s.hdr) || |s.open| < 1 || b in s.hdr then s else s.(hdr := s.hdr + [b])
  }

  function Copies(view: seq<Data>, h: seq<nat>): seq<Data> {
    seq(|h|, i requires 0 <= i < |h| => At(view, h[i]))
  }

  function EndTransaction(s: State, t: nat): State {
    var s' := s.(open := s.open - {t});
    if !s.phase.Running? then s'.(phase := Panicked)
    else if |s'.open| == 0 && |s.hdr| > 0 then
      s'.(buf := Copies(s.view, s.hdr), phase := LogWriting(Indices(s.hdr)))
    else s'
  }

  function Apply(g: Layout, s: State, a: Action): State
    requires Enabled(g, s, a)
  {
    match a
    case Begin(t) => s.(open := s.open[t := {}])
    case Log(t, b, v) =>
      LogWrite(g, s.(view := Put(s.view, b, v)), b).(open := s.open[t := s.open[t] + {b}])
    case End(t) => EndTransaction(s, t)
    case PutLog(i) =>
      s.(disk := s.disk.(blocks := Put(s.disk.blocks, g.Slot(i), At(s.buf, i))),
         phase := LogWriting(s.phase.pending - {i}))
    case PutHeader =>
      s.(disk := s.disk.(header := s.hdr), phase := Installing(Indices(s.hdr)))
    case PutHome(i) =>
      s.(disk := s.disk.(blocks := Put(s.disk.blocks, Entry(s.hdr, i), At(s.buf, i))),
         phase := Installing(s.phase.pending - {i}))
    case Clear =>
      s.(disk := s.disk.(header := []), hdr := [], phase := Running)
    case Crash =>
      State(s.disk, [], s.disk.blocks, [], map[], Down)
    case ReadHeader =>
      s.(hdr := s.disk.header,
         buf := seq(|s.disk.header|, i requires 0 <= i < |s.disk.header| => At(s.disk.blocks, g.Slot(i))),
         phase := Replaying(Indices(s.disk.header)))
    case Replay(i) =>
      var blocks := Put(s.disk.blocks, Entry(s.hdr, i), At(s.buf, i));
      s.(disk := s.disk.(blocks := blocks), view := blocks, phase := Replaying(s.phase.pending - {i}))
    case ClearAfterReplay =>
      s.(disk := s.disk.(header := []), hdr := [], phase := Running)
  }

  // ---------------------------------------------------------------- runs

  ghost predicate Legal(g: Layout, s: State, run: seq<Action>)
    decreases |run|, 0
  {
    run == [] ||
    (var n := |run| - 1;
     Legal(g, s, run[..n]) && Enabled(g, Final(g, s, run[..n]), run[n]))
  }

  /** The state a legal run ends in. */
  ghost function Final(g: Layout, s: State, run: seq<Action>): State
    requires Legal(g, s, run)
    decreases |run|, 1
  {
    if run == [] then s
    else var n := |run| - 1; Apply(g, Final(g, s, run[..n]), run[n])
  }

  lemma {:induction false} LegalSplit(g: Layout, s: State, first: seq<Action>, second: seq<Action>)
    requires Legal(g, s, first + second)
    ensures Legal(g, s, first)
    ensures Legal(g, Final(g, s, first), second)
    ensures Final(g, Final(g, s, first), second) == Final(g, s, first + second)
    decreases |second|
  {
    if second == [] {
      assert first + second == first;
    } else {
      var n := |second| - 1;
      assert (first + second)[..|first + second| - 1] == first + second[..n];
      LegalSplit(g, s, first, second[..n]);
    }
  }

  /** A freshly made file system: nothing logged, nobody in a transaction. */
  ghost predicate Init(g: Layout, s: State) {
    && |s.disk.blocks| == g.total
    && s == State(Disk([], s.disk.blocks), [], s.disk.blocks, [], map[], Running)
  }

  // ---------------------------------------------------------------- recovery

  ghost predicate GoodHeader(g: Layout, h: seq<nat>) {
    Distinct(h) && |h| <= LOGSIZE && forall i :: 0 <= i < |h| ==> g.Home(h[i])
  }

  ghost predicate GoodDisk(g: Layout, d: Disk) {
    g.Fits() && |d.blocks| == g.total && GoodHeader(g, d.header)
  }

  /** The home blocks after the first n log blocks were copied, in the order of the recovery loop. */
  ghost function Replayed(g: Layout, d: Disk, n: nat): (r: seq<Data>)
    requires GoodDisk(g, d) && n <= |d.header|
    ensures |r| == |d.blocks|
  {
    if n == 0 then d.blocks
    else Replayed(g, d, n - 1)[d.header[n - 1] := d.blocks[g.Slot(n - 1)]]
  }

  /** One uninterrupted recover_from_log. */
  ghost function Recover(g: Layout, d: Disk): Disk
    requires GoodDisk(g, d)
  {
    Disk([], Replayed(g, d, |d.header|))
  }

  ghost predicate SameHome(g: Layout, a: seq<Data>, b: seq<Data>) {
    |a| == |b| == g.total && forall k: nat :: g.Home(k) ==> a[k] == b[k]
  }

  /** Pointwise reading of recovery: logged blocks take their log slot, the others keep their value. */
  ghost predicate RecoversTo(g: Layout, d: Disk, c: seq<Data>)
    requires GoodDisk(g, d)
  {
    && |c| == g.total
    && (forall i :: 0 <= i < |d.header| ==> c[d.header[i]] == d.blocks[g.Slot(i)])
    && (forall b: nat :: g.Home(b) && b !in d.header ==> c[b] == d.blocks[b])
  }

  lemma {:induction false} ReplayedPointwise(g: Layout, d: Disk, n: nat)
    requires GoodDisk(g, d) && n <= |d.header|
    ensures forall i :: 0 <= i < n ==> Replayed(g, d, n)[d.header[i]] == d.blocks[g.Slot(i)]
    ensures forall b :: 0 <= b < g.total && b !in d.header[..n] ==> Replayed(g, d, n)[b] == d.blocks[b]
  {
    if n > 0 {
      ReplayedPointwise(g, d, n - 1);
      assert d.header[..n] == d.header[..n - 1] + [d.header[n - 1]];
    }
  }

  /** The recovery loop and the pointwise reading agree. */
  lemma RecoverMeaning(g: Layout, d: Disk, c: seq<Data>)
    requires GoodDisk(g, d)
    ensures SameHome(g, Recover(g, d).blocks, c) <==> RecoversTo(g, d, c)
  {
    ReplayedPointwise(g, d, |d.header|);
    assert d.header[..|d.header|] == d.header;
    if SameHome(g, Recover(g, d).blocks, c) {
      forall i | 0 <= i < |d.header| ensures c[d.header[i]] == d.blocks[g.Slot(i)] {
        assert g.Home(d.header[i]);
      }
    }
    if RecoversTo(g, d, c) {
      forall k: nat | g.Home(k) ensures Recover(g, d).blocks[k] == c[k] {
        if k in d.header {
          var i :| 0 <= i < |d.header| && d.header[i] == k;
        }
      }
    }
  }

  // ---------------------------------------------------------------- reservations

  /** What the open transactions may still add to the log. */
  ghost function Unused(open: map<nat, set<nat>>): int {
    if open == map[] then 0
    else var t :| t in open; MAXOPBLOCKS - |open[t]| + Unused(open - {t})
  }

  lemma {:induction false} UnusedSplit(open: map<nat, set<nat>>, t: nat)
    requires t in open
    ensures Unused(open) == MAXOPBLOCKS - |open[t]| + Unused(open - {t})
    decreases |open|
  {
    var u :| u in open && Unused(open) == MAXOPBLOCKS - |open[u]| + Unused(open - {u});
    if u != t {
      UnusedSplit(open - {u}, t);
      UnusedSplit(open - {t}, u);
      assert open - {u} - {t} == open - {t} - {u};
    }
  }

  lemma {:induction false} UnusedBounds(open: map<nat, set<nat>>)
    requires forall t :: t in open ==> |open[t]| <= MAXOPBLOCKS
    ensures 0 <= Unused(open) <= |open| * MAXOPBLOCKS
    decreases |open|
  {
    if open != map[] {
      var t :| t in open;
      UnusedSplit(open, t);
      UnusedBounds(open - {t});
      assert (open - {t}).Keys == open.Keys - {t};
      assert |open - {t}| == |open| - 1;
    }
  }

  lemma UnusedUpdate(open: map<nat, set<nat>>, t: nat, bs: set<nat>)
    ensures Unused(open[t := bs]) ==
            MAXOPBLOCKS - |bs| + Unused(open - {t})
    ensures t !in open ==> open - {t} == open
  {
    UnusedSplit(open[t := bs], t);
    assert open[t := bs] - {t} == open - {t};
  }

  ghost predicate Reserved(hdr: seq<nat>, open: map<nat, set<nat>>) {
    && (forall t :: t in open ==> |open[t]| <= MAXOPBLOCKS)
    && (forall t, b :: t in open && b in open[t] ==> b in hdr)
    && |hdr| + Unused(open) <= LOGSIZE
    && (open == map[] ==> hdr == [])
  }

  // ---------------------------------------------------------------- the invariant

  /** The log slots with indices outside `pending` hold their copies. */
  ghost predicate SlotsHold(g: Layout, s: State, pending: set<nat>) {
    |s.buf| == |s.hdr| <= LOGSIZE && |s.disk.blocks| == g.total && g.Fits() &&
    forall i :: 0 <= i < |s.hdr| && i !in pending ==> s.disk.blocks[g.Slot(i)] == s.buf[i]
  }

  ghost predicate HomesHold(g: Layout, s: State, pending: set<nat>) {
    |s.buf| == |s.hdr| && |s.disk.blocks| == g.total && GoodHeader(g, s.hdr) &&
    forall i :: 0 <= i < |s.hdr| && i !in pending ==> s.disk.blocks[s.hdr[i]] == s.buf[i]
  }

  ghost predicate BufIsView(g: Layout, s: State) {
    |s.buf| == |s.hdr| && |s.view| == g.total && GoodHeader(g, s.hdr) &&
    forall i :: 0 <= i < |s.hdr| ==> s.buf[i] == s.view[s.hdr[i]]
  }

  /** Blocks outside the in-memory header are clean. */
  ghost predicate CleanOffLog(g: Layout, s: State) {
    |s.view| == |s.disk.blocks| == g.total &&
    forall b: nat :: g.Home(b) && b !in s.hdr ==> s.view[b] == s.disk.blocks[b]
  }

  ghost predicate Inv(g: Layout, s: State) {
    && GoodDisk(g, s.disk)
    && GoodHeader(g, s.hdr)
    && |s.view| == g.total
    && match s.phase
       case Running =>
         s.disk.header == [] && CleanOffLog(g, s) && Reserved(s.hdr, s.open)
       case LogWriting(p) =>
         && s.open == map[] && s.disk.header == [] && s.hdr != [] && p <= Indices(s.hdr)
         && CleanOffLog(g, s) && BufIsView(g, s) && SlotsHold(g, s, p)
       case Installing(p) =>
         && s.open == map[] && s.disk.header == s.hdr && s.hdr != [] && p <= Indices(s.hdr)
         && CleanOffLog(g, s) && BufIsView(g, s) && SlotsHold(g, s, {}) && HomesHold(g, s, p)
       case Down =>
         s.open == map[] && s.hdr == [] && s.view == s.disk.blocks
       case Replaying(p) =>
         && s.open == map[] && s.view == s.disk.blocks && s.hdr == s.disk.header
         && p <= Indices(s.hdr) && SlotsHold(g, s, {}) && HomesHold(g, s, p)
       case Panicked => false
  }

  lemma InvInit(g: Layout, s: State)
    requires g.Fits() && Init(g, s)
    ensures Inv(g, s)
  {
  }

  lemma BeginKeepsInv(g: Layout, s: State, t: nat)
    requires Inv(g, s) && Enabled(g, s, Begin(t))
    ensures Inv(g, Apply(g, s, Begin(t)))
  {
    var s' := Apply(g, s, Begin(t));
    UnusedUpdate(s.open, t, {});
    UnusedBounds(s.open);
    assert |s.hdr| + (|s.open| + 1) * MAXOPBLOCKS <= LOGSIZE;
    assert t in s'.open;
  }

  /** An open transaction means that no commit is in progress, and a transaction that logs a block it
      has not logged before finds room for it. */
  lemma OpenMeansRoom(g: Layout, s: State, t: nat, b: nat)
    requires Inv(g, s) && t in s.open && |s.open[t] + {b}| <= MAXOPBLOCKS
    ensures s.phase.Running?
    ensures b !in s.hdr ==> !Full(g, s.hdr) && |s.hdr| + 1 + Unused(s.open[t := s.open[t] + {b}]) <= LOGSIZE
    ensures |s.hdr| + Unused(s.open[t := s.open[t] + {b}]) <= LOGSIZE
  {
    UnusedSplit(s.open, t);
    UnusedUpdate(s.open, t, s.open[t] + {b});
    UnusedBounds(s.open - {t});
    if b in s.open[t] {
      assert s.open[t] + {b} == s.open[t];
    } else {
      assert |s.open[t] + {b}| == |s.open[t]| + 1;
    }
  }

  lemma LogKeepsInv(g: Layout, s: State, t: nat, b: nat, v: Data)
    requires Inv(g, s) && Enabled(g, s, Log(t, b, v))
    ensures Inv(g, Apply(g, s, Log(t, b, v)))
    ensures b in Apply(g, s, Log(t, b, v)).hdr
  {
    OpenMeansRoom(g, s, t, b);
    assert s.open != map[];
    assert |s.open.Keys| >= 1 by {
      assert t in s.open.Keys;
    }
    var s' := Apply(g, s, Log(t, b, v));
    assert t in s'.open;
    assert s'.hdr == if b in s.hdr then s.hdr else s.hdr + [b];
  }

  lemma EndKeepsInv(g: Layout, s: State, t: nat)
    requires Inv(g, s) && Enabled(g, s, End(t))
    ensures Inv(g, Apply(g, s, End(t)))
  {
    UnusedSplit(s.open, t);
    var s' := s.open - {t};
    if |s'| == 0 {
      assert s' == map[];
    }
  }

  lemma PutLogKeepsInv(g: Layout, s: State, i: nat, c: seq<Data>)
    requires Inv(g, s) && Enabled(g, s, PutLog(i)) && RecoversTo(g, s.disk, c)
    ensures var s' := Apply(g, s, PutLog(i)); Inv(g, s') && RecoversTo(g, s'.disk, c)
  {
  }

  lemma PutHeaderKeepsInv(g: Layout, s: State)
    requires Inv(g, s) && Enabled(g, s, PutHeader)
    ensures var s' := Apply(g, s, PutHeader); Inv(g, s') && RecoversTo(g, s'.disk, s.view)
  {
  }

  lemma PutHomeKeepsInv(g: Layout, s: State, i: nat, c: seq<Data>)
    requires Inv(g, s) && Enabled(g, s, PutHome(i)) && RecoversTo(g, s.disk, c)
    ensures var s' := Apply(g, s, PutHome(i)); Inv(g, s') && RecoversTo(g, s'.disk, c)
  {
    var s' := Apply(g, s, PutHome(i));
    assert s'.disk.blocks == s.disk.blocks[s.hdr[i] := s.buf[i]];
    forall k | 0 <= k < |s.hdr| ensures s'.disk.blocks[g.Slot(k)] == s.disk.blocks[g.Slot(k)] {
      assert g.Home(s.hdr[i]);
    }
  }

  lemma ClearKeepsInv(g: Layout, s: State, c: seq<Data>)
    requires Inv(g, s) && Enabled(g, s, Clear) && RecoversTo(g, s.disk, c)
    ensures var s' := Apply(g, s, Clear); Inv(g, s') && RecoversTo(g, s'.disk, c)
  {
    forall b: nat | g.Home(b) ensures s.view[b] == s.disk.blocks[b] == c[b] {
      if b in s.hdr {
        var i :| 0 <= i < |s.hdr| && s.hdr[i] == b;
      }
    }
  }

  lemma ReplayKeepsInv(g: Layout, s: State, i: nat, c: seq<Data>)
    requires Inv(g, s) && Enabled(g, s, Replay(i)) && RecoversTo(g, s.disk, c)
    ensures var s' := Apply(g, s, Replay(i)); Inv(g, s') && RecoversTo(g, s'.disk, c)
  {
    var s' := Apply(g, s, Replay(i));
    assert s'.disk.blocks == s.disk.blocks[s.hdr[i] := s.buf[i]];
    forall k | 0 <= k < |s.hdr| ensures s'.disk.blocks[g.Slot(k)] == s.disk.blocks[g.Slot(k)] {
      assert g.Home(s.hdr[i]);
    }
  }

  lemma RestartKeepsInv(g: Layout, s: State, a: Action, c: seq<Data>)
    requires a.Crash? || a.ReadHeader? || a.ClearAfterReplay?
    requires Inv(g, s) && Enabled(g, s, a) && RecoversTo(g, s.disk, c)
    ensures var s' := Apply(g, s, a); Inv(g, s') && RecoversTo(g, s'.disk, c)
  {
    if a.ClearAfterReplay? {
      forall b: nat | g.Home(b) ensures s.disk.blocks[b] == c[b] {
        if b in s.hdr {
          var i :| 0 <= i < |s.hdr| && s.hdr[i] == b;
        }
      }
    }
  }

  /** What recovery would make of the disk is changed by no step but the header write, and that one
      makes it the whole view. */
  lemma StepKeepsInv(g: Layout, s: State, a: Action, c: seq<Data>)
    requires Inv(g, s) && Enabled(g, s, a) && RecoversTo(g, s.disk, c)
    ensures var s' := Apply(g, s, a);
            Inv(g, s') && RecoversTo(g, s'.disk, if a.PutHeader? then s.view else c)
  {
    match a
    case Begin(t) => BeginKeepsInv(g, s, t);
    case Log(t, b, v) => LogKeepsInv(g, s, t, b, v);
    case End(t) => EndKeepsInv(g, s, t);
    case PutLog(i) => PutLogKeepsInv(g, s, i, c);
    case PutHeader => PutHeaderKeepsInv(g, s);
    case PutHome(i) => PutHomeKeepsInv(g, s, i, c);
    case Clear => ClearKeepsInv(g, s, c);
    case Replay(i) => ReplayKeepsInv(g, s, i, c);
    case Crash => RestartKeepsInv(g, s, a, c);
    case ReadHeader => RestartKeepsInv(g, s, a, c);
    case ClearAfterReplay => RestartKeepsInv(g, s, a, c);
  }

  lemma {:induction false} RunKeepsInv(g: Layout, s: State, run: seq<Action>)
    requires Inv(g, s) && Legal(g, s, run)
    ensures Inv(g, Final(g, s, run))
    decreases |run|
  {
    if run != [] {
      var n := |run| - 1;
      RunKeepsInv(g, s, run[..n]);
      StepKeepsOutcome(g, Final(g, s, run[..n]), run[n]);
    }
  }

  // ---------------------------------------------------------------- crash atomicity

  lemma StepKeepsOutcome(g: Layout, s: State, a: Action)
    requires Inv(g, s) && Enabled(g, s, a)
    ensures Inv(g, Apply(g, s, a))
    ensures SameHome(g, Recover(g, Apply(g, s, a).disk).blocks,
                     if a.PutHeader? then s.view else Recover(g, s.disk).blocks)
  {
    var c := Recover(g, s.disk).blocks;
    RecoverMeaning(g, s.disk, c);
    StepKeepsInv(g, s, a, c);
    RecoverMeaning(g, Apply(g, s, a).disk, if a.PutHeader? then s.view else c);
  }

  /** The home contents a crash now and a full recovery would give, predicted from the run alone: the
      view at the last header write, or the start if there was none. */
  ghost function Durable(g: Layout, s: State, run: seq<Action>): seq<Data>
    requires Legal(g, s, run)
    decreases |run|
  {
    if run == [] then s.disk.blocks
    else
      var n := |run| - 1;
      if run[n].PutHeader? then Final(g, s, run[..n]).view else Durable(g, s, run[..n])
  }

  /** Crash atomicity over all runs, with crashes, cut-off recoveries and every order of every batch:
      recovery from any reachable disk gives exactly the durable contents, never a mix. */
  lemma {:induction false} CrashAtomicity(g: Layout, s: State, run: seq<Action>)
    requires g.Fits() && Init(g, s) && Legal(g, s, run)
    ensures Inv(g, Final(g, s, run))
    ensures SameHome(g, Recover(g, Final(g, s, run).disk).blocks, Durable(g, s, run))
    decreases |run|
  {
    InvInit(g, s);
    if run != [] {
      var n := |run| - 1;
      CrashAtomicity(g, s, run[..n]);
      StepKeepsOutcome(g, Final(g, s, run[..n]), run[n]);
    }
  }

  /** A group becomes durable as a whole: at a header write no transaction is open, so the view holds
      every write of every transaction that took part, and nothing of any other. */
  lemma DurableGroupsAreClosed(g: Layout, s: State, run: seq<Action>)
    requires g.Fits() && Init(g, s) && Legal(g, s, run)
    requires run != [] && run[|run| - 1].PutHeader?
    ensures Final(g, s, run[..|run| - 1]).open == map[]
    ensures Durable(g, s, run) == Final(g, s, run).view
    ensures CleanOffLog(g, Final(g, s, run))
  {
    InvInit(g, s);
    RunKeepsInv(g, s, run[..|run| - 1]);
  }

  /** Once the machine is up again and idle, readers see the durable contents. */
  lemma IdleViewIsDurable(g: Layout, s: State, run: seq<Action>)
    requires g.Fits() && Init(g, s) && Legal(g, s, run)
    requires var f := Final(g, s, run); f.phase.Running? && f.open == map[]
    ensures SameHome(g, Final(g, s, run).view, Durable(g, s, run))
  {
    CrashAtomicity(g, s, run);
    var f := Final(g, s, run);
    RecoverMeaning(g, f.disk, f.disk.blocks);
  }

  predicate RecoveryAction(a: Action) {
    a.Crash? || a.ReadHeader? || a.Replay? || a.ClearAfterReplay?
  }

  /** Recovery is restartable: any number of recoveries cut off at any step leave the outcome of a full
      recovery as it was, and one that runs to its end leaves exactly that outcome and an empty header. */
  lemma {:induction false} RecoveryRestartable(g: Layout, s: State, run: seq<Action>)
    requires Inv(g, s) && Legal(g, s, run)
    requires forall k :: 0 <= k < |run| ==> RecoveryAction(run[k])
    ensures Inv(g, Final(g, s, run))
    ensures SameHome(g, Recover(g, Final(g, s, run).disk).blocks, Recover(g, s.disk).blocks)
    ensures run != [] && run[|run| - 1].ClearAfterReplay? ==>
              var f := Final(g, s, run);
              f.disk.header == [] && SameHome(g, f.disk.blocks, Recover(g, s.disk).blocks)
    decreases |run|
  {
    if run != [] {
      var n := |run| - 1;
      RecoveryRestartable(g, s, run[..n]);
      StepKeepsOutcome(g, Final(g, s, run[..n]), run[n]);
    }
  }

  /** The same for the recovery that ends a longer run. */
  lemma RecoveryEndsRun(g: Layout, s: State, earlier: seq<Action>, run: seq<Action>)
    requires g.Fits() && Init(g, s) && Legal(g, s, run) && earlier < run
    requires forall k :: |earlier| <= k < |run| ==> RecoveryAction(run[k])
    requires run[|run| - 1].ClearAfterReplay?
    ensures Legal(g, s, earlier) && Inv(g, Final(g, s, earlier)) && Final(g, s, run).disk.header == []
    ensures SameHome(g, Final(g, s, run).disk.blocks, Recover(g, Final(g, s, earlier).disk).blocks)
  {
    var replay := run[|earlier|..];
    assert run == earlier + replay;
    LegalSplit(g, s, earlier, replay);
    InvInit(g, s);
    RunKeepsInv(g, s, earlier);
    RecoveryRestartable(g, Final(g, s, earlier), replay);
  }

  // ---------------------------------------------------------------- reservation and group commit

  /** Over every run: blocks in the log plus unused reservations stay within LOGSIZE while the log is
      open, the commit flag is never set while a transaction is open, and the panic is not reached. */
  lemma ReservationHolds(g: Layout, s: State, run: seq<Action>)
    requires g.Fits() && Init(g, s) && Legal(g, s, run)
    ensures var f := Final(g, s, run);
            && !f.phase.Panicked?
            && (f.open != map[] ==> f.phase.Running?)
            && (f.phase.Running? ==> |f.hdr| + Unused(f.open) <= LOGSIZE)
  {
    InvInit(g, s);
    RunKeepsInv(g, s, run);
  }

  /** log_write inside a disciplined transaction returns -1 only when the log is full, and then the
      block is already in it: the refusal loses no write. */
  lemma RefusalLosesNothing(g: Layout, s: State, run: seq<Action>, t: nat, b: nat, v: Data)
    requires g.Fits() && Init(g, s) && Legal(g, s, run)
    requires Enabled(g, Final(g, s, run), Log(t, b, v))
    ensures var f := Final(g, s, run);
            && (Full(g, f.hdr) <==> |f.hdr| == LOGSIZE)
            && (Full(g, f.hdr) ==> b in f.hdr)
            && b in Apply(g, f, Log(t, b, v)).hdr
  {
    InvInit(g, s);
    RunKeepsInv(g, s, run);
    var f := Final(g, s, run);
    OpenMeansRoom(g, f, t, b);
    LogKeepsInv(g, f, t, b, v);
  }

  /** The room the reservations promise is there exactly when the log area has a block more than
      LOGSIZE: with the size mkfs writes (LOGSIZE) the last reserved block is refused. */
  lemma RoomNeedsOneMoreBlock(size: nat)
    ensures (forall nblks: nat :: nblks + 1 <= LOGSIZE ==> !FullAt(size, nblks)) <==> size >= LOGSIZE + 1
  {
    if size <= LOGSIZE {
      assert FullAt(size, LOGSIZE - 1);
    }
  }
}
