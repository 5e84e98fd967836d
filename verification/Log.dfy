/** kern/log.c as code.  Each method writes the disk and the log manager step by step and appends the
    matching transition of LogProtocol to `run`, so the theorems about runs hold between any two writes. */
module Log {
  import opened Params
  import opened LogProtocol

  /** `later` continues `earlier` with the single-block writes of one batch. */
  ghost predicate OnlyBatch(earlier: seq<Action>, later: seq<Action>, booting: bool) {
    earlier <= later && forall k :: |earlier| <= k < |later| ==>
      if booting then later[k].Replay? else later[k].PutLog? || later[k].PutHome?
  }

  /** `run` leads from a fresh file system to `s`. */
  ghost predicate IsTrace(g: Layout, boot: State, run: seq<Action>, s: State) {
    g.Fits() && Init(g, boot) && Legal(g, boot, run) && s == Final(g, boot, run)
  }

  ghost predicate OnlyCommit(earlier: seq<Action>, later: seq<Action>) {
    earlier <= later && forall k :: |earlier| <= k < |later| ==>
      later[k].PutLog? || later[k].PutHeader? || later[k].PutHome? || later[k].Clear?
  }

  ghost predicate OnlyRecovery(earlier: seq<Action>, later: seq<Action>) {
    earlier <= later && forall k :: |earlier| <= k < |later| ==> RecoveryAction(later[k])
  }

  /** Reading the header, replaying and erasing are the steps of a recovery. */
  lemma RecoverySteps(before: seq<Action>, replayed: seq<Action>)
    requires OnlyBatch(before + [ReadHeader], replayed, true)
    ensures OnlyRecovery(before, replayed + [ClearAfterReplay])
  {
  }

  class LogManager {
    const g: Layout

    // the disk: all blocks, and the header block read as a header
    var blocks: array<Data>
    var diskNblks: nat
    var diskBlksNo: array<nat>

    // struct log_manager
    var nblks: nat
    var blksNo: array<nat>
    var committing: bool
    var nOccupiers: int

    // what bread returns for each block, and buf_ptrs
    var cache: array<Data>
    var bufPtrs: array<Data>

    ghost var s: State
    ghost var boot: State
    ghost var run: seq<Action>

    ghost predicate Shape()
      reads this
    {
      && g.Fits()
      && blocks.Length == cache.Length == g.total
      && diskBlksNo.Length == blksNo.Length == bufPtrs.Length == LOGSIZE
      && diskNblks <= LOGSIZE && nblks <= LOGSIZE
      && blocks != cache && blocks != bufPtrs && cache != bufPtrs && diskBlksNo != blksNo
    }

    ghost predicate Traced()
      reads this`s, this`boot, this`run
    {
      IsTrace(g, boot, run, s)
    }

    /** Fields and trace agree, but for the in-memory header. */
    ghost predicate Synced()
      reads this, blocks, diskBlksNo, cache
    {
      && Shape() && Traced()
      && s.disk.blocks == blocks[..]
      && s.disk.header == diskBlksNo[..diskNblks]
      && s.view == cache[..]
      && nOccupiers == |s.open|
      && (s.phase.LogWriting? || s.phase.Installing? ==> committing)
      && (committing ==> s.open == map[])
    }

    ghost predicate Valid()
      reads this, blocks, diskBlksNo, blksNo, cache
    {
      Synced() && s.hdr == blksNo[..nblks]
    }

    ghost predicate BufSynced()
      reads this, bufPtrs
    {
      nblks <= bufPtrs.Length && s.buf == bufPtrs[..nblks]
    }

    /** The same log manager: only field contents and array elements have changed. */
    twostate predicate SameArrays()
      reads this
    {
      && blocks == old(blocks) && diskBlksNo == old(diskBlksNo) && blksNo == old(blksNo)
      && cache == old(cache) && bufPtrs == old(bufPtrs) && boot == old(boot)
    }

    constructor (g: Layout, contents: seq<Data>)
      requires g.Fits() && |contents| == g.total
      ensures Valid() && this.g == g && run == [] && s.view == contents
      ensures fresh(blocks) && fresh(diskBlksNo) && fresh(blksNo) && fresh(cache) && fresh(bufPtrs)
    {
      this.g := g;
      blocks := new Data[g.total](i requires 0 <= i < |contents| => contents[i]);
      cache := new Data[g.total](i requires 0 <= i < |contents| => contents[i]);
      diskBlksNo := new nat[LOGSIZE](_ => 0);
      blksNo := new nat[LOGSIZE](_ => 0);
      bufPtrs := new Data[LOGSIZE](_ => []);
      diskNblks, nblks, committing, nOccupiers := 0, 0, false, 0;
      s := State(Disk([], contents), [], contents, [], map[], Running);
      boot := State(Disk([], contents), [], contents, [], map[], Running);
      run := [];
      new;
      assert blocks[..] == contents;
      assert cache[..] == contents;
    }

    lemma Invariant()
      requires Traced()
      ensures Inv(g, s)
    {
      InvInit(g, boot);
      RunKeepsInv(g, boot, run);
    }

    /** What the last step of a transaction does to an open log. */
    lemma EndEffect(t: nat)
      requires Traced() && t in s.open
      ensures s.phase.Running? && Enabled(g, s, End(t))
      ensures var s' := Apply(g, s, End(t));
              && s'.open == s.open - {t} && |s'.open| == |s.open| - 1 && s'.view == s.view
              && s'.disk == s.disk && s'.hdr == s.hdr
              && s'.phase == if |s'.open| == 0 && |s.hdr| > 0 then LogWriting(Below(|s.hdr|)) else Running
    {
      Invariant();
      assert (s.open - {t}).Keys == s.open.Keys - {t};
    }

    /** What log_write does to an open log. */
    lemma LogEffect(t: nat, b: nat, v: Data)
      requires Traced() && |s.view| == g.total && Enabled(g, s, Action.Log(t, b, v))
      ensures b < g.total && |s.open| >= 1
      ensures var s' := Apply(g, s, Action.Log(t, b, v));
              && b in s'.hdr && s'.hdr == (if Full(g, s.hdr) || b in s.hdr then s.hdr else s.hdr + [b])
              && s'.disk == s.disk && s'.phase == s.phase && s'.view == s.view[b := v] && s'.open != map[]
              && |s'.open| == |s.open|
    {
      Invariant();
      LogKeepsInv(g, s, t, b, v);
      assert t in s.open.Keys;
      assert s.open[t := s.open[t] + {b}].Keys == s.open.Keys;
    }

    lemma ClosedLogIsEmpty()
      requires Traced() && s.phase.Running? && s.open == map[]
      ensures s.hdr == [] && SameHome(g, s.disk.blocks, s.view)
    {
      Invariant();
    }

    lemma RecoveredTrace(before: State, earlier: seq<Action>)
      requires IsTrace(g, boot, earlier, before) && Traced()
      requires OnlyRecovery(earlier, run) && earlier < run && run[|run| - 1].ClearAfterReplay?
      ensures Inv(g, before) && SameHome(g, s.disk.blocks, Recover(g, before.disk).blocks)
    {
      RecoveryEndsRun(g, boot, earlier, run);
    }

    /** Records one transition. */
    ghost method Do(a: Action)
      requires Traced() && Enabled(g, s, a)
      modifies this`s, this`run
      ensures Traced() && s == Apply(g, old(s), a) && run == old(run) + [a]
    {
      var run' := run + [a];
      assert run'[..|run|] == run;
      s := Apply(g, s, a);
      run := run';
    }

    /** One round of begin_transaction's loop; `false` is the round that ends in sleep. */
    method BeginTransaction(ghost t: nat) returns (admitted: bool)
      requires Valid() && (s.phase.Running? || committing) && t !in s.open
      modifies this
      ensures Valid() && SameArrays()
      ensures admitted <==> !old(committing) && old(nblks) + (old(nOccupiers) + 1) * MAXOPBLOCKS <= LOGSIZE
      ensures admitted == (Admits(old(s)) && !old(committing))
      ensures admitted ==> s == Apply(g, old(s), Begin(t)) && run == old(run) + [Begin(t)]
      ensures !admitted ==> s == old(s) && run == old(run)
    {
      if committing {
        return false;
      } else if nblks + (nOccupiers + 1) * MAXOPBLOCKS > LOGSIZE {
        return false;
      }
      nOccupiers := nOccupiers + 1;
      Do(Begin(t));
      admitted := true;
    }

    /** The search of log_write: a block already in the header keeps its entry. */
    method MergeIntoHeader(b: nat)
      requires Shape() && nblks < LOGSIZE
      modifies this`nblks, blksNo
      ensures nblks <= LOGSIZE
      ensures blksNo[..nblks] ==
              if b in old(blksNo[..nblks]) then old(blksNo[..nblks]) else old(blksNo[..nblks]) + [b]
    {
      var i := 0;
      while i < nblks
        invariant i <= nblks
        invariant forall k :: 0 <= k < i ==> blksNo[k] != b
      {
        if blksNo[i] == b {
          break;
        }
        i := i + 1;
      }
      blksNo[i] := b;
      nblks := nblks + if i == nblks then 1 else 0;
    }

    /** The caller changes a block it holds and logs it. */
    method LogWrite(ghost t: nat, b: nat, v: Data) returns (r: int)
      requires Valid() && Enabled(g, s, Action.Log(t, b, v))
      modifies this, cache, blksNo
      ensures Valid() && SameArrays()
      ensures s == Apply(g, old(s), Action.Log(t, b, v)) && run == old(run) + [Action.Log(t, b, v)]
      ensures r == if Full(g, old(s.hdr)) then -1 else 0
      ensures b in s.hdr
    {
      hide IsTrace, Apply, Enabled;
      LogEffect(t, b, v);
      assert cache[..][b := v] == s.view[b := v];
      cache[b] := v;
      if nblks >= LOGSIZE || nblks >= g.size - 1 {
        r := -1;
      } else if nOccupiers < 1 {
        r := -1;
      } else {
        MergeIntoHeader(b);
        r := 0;
      }
      Do(Action.Log(t, b, v));
    }

    /** The block a batch sends its i-th buffer to. */
    ghost function Target(i: nat): nat
      reads this
    {
      if s.phase.LogWriting? then g.Slot(i) else Entry(s.hdr, i)
    }

    ghost function BatchAction(i: nat): Action
      reads this
    {
      if s.phase.LogWriting? then PutLog(i) else if s.phase.Installing? then PutHome(i) else Replay(i)
    }

    ghost function HeaderAction(p: Phase): Action {
      match p
      case LogWriting(_) => PutHeader
      case Installing(_) => Clear
      case _ => ClearAfterReplay
    }

    ghost function Remaining(p: Phase, pending: set<nat>): Phase {
      match p
      case LogWriting(_) => LogWriting(pending)
      case Installing(_) => Installing(pending)
      case Replaying(_) => Replaying(pending)
      case _ => p
    }

    /** What is known of a batch that is under way. */
    ghost predicate Batch(targets: seq<nat>, data: seq<Data>)
      reads this
    {
      && |targets| == |data| == |s.hdr| == nblks <= LOGSIZE && data == s.buf
      && forall i :: 0 <= i < nblks ==> targets[i] == Target(i) < g.total
    }

    /** One block of a batch reaches the disk. */
    method WriteOne(i: nat, targets: seq<nat>, data: seq<Data>, booting: bool)
      requires Valid() && Batch(targets, data) && i < nblks
      requires s.phase.LogWriting? || s.phase.Installing? || s.phase.Replaying?
      requires i in s.phase.pending && (booting <==> s.phase.Replaying?)
      requires booting ==> s.view == s.disk.blocks
      modifies this`s, this`run, blocks, cache
      ensures Valid() && Batch(targets, data) && run == old(run) + [old(BatchAction(i))]
      ensures s == old(s).(disk := s.disk, view := s.view,
                           phase := Remaining(old(s.phase), old(s.phase.pending) - {i}))
      ensures s.disk.header == old(s.disk.header)
      ensures s.view == if booting then s.disk.blocks else old(s.view)
    {
      hide IsTrace;
      if booting {
        cache[targets[i]] := data[i];
      }
      blocks[targets[i]] := data[i];
      Do(BatchAction(i));
      forall k | 0 <= k < nblks ensures targets[k] == Target(k) < g.total {
        assert targets[k] == old(Target(k)) < g.total;
      }
    }

    /** bwrite_dozens: the disk takes the buffers in an order of its own choosing. */
    method BwriteDozens(targets: seq<nat>, data: seq<Data>, booting: bool)
      requires Valid() && Batch(targets, data)
      requires s.phase == LogWriting(Below(nblks)) || s.phase == Installing(Below(nblks))
               || s.phase == Replaying(Below(nblks))
      requires booting <==> s.phase.Replaying?
      requires booting ==> s.view == s.disk.blocks
      modifies this`s, this`run, blocks, cache
      ensures Valid()
      ensures s == old(s).(disk := s.disk, view := s.view, phase := Remaining(old(s.phase), {}))
      ensures s.disk.header == old(s.disk.header)
      ensures s.view == if booting then s.disk.blocks else old(s.view)
      ensures OnlyBatch(old(run), run, booting)
    {
      hide IsTrace;
      var pending := Below(nblks);
      while pending != {}
        invariant Valid() && Batch(targets, data) && pending <= Below(nblks)
        invariant s == old(s).(disk := s.disk, view := s.view, phase := Remaining(old(s.phase), pending))
        invariant s.disk.header == old(s.disk.header)
        invariant s.view == if booting then s.disk.blocks else old(s.view)
        invariant OnlyBatch(old(run), run, booting)
      {
        var i :| i in pending;
        WriteOne(i, targets, data, booting);
        pending := pending - {i};
      }
    }

    // What the header write, a crash and the header read do to the log.

    lemma HeaderEffect(x: State)
      requires x.phase == LogWriting({}) || x.phase == Installing({}) || x.phase == Replaying({})
      ensures Enabled(g, x, HeaderAction(x.phase))
      ensures Apply(g, x, HeaderAction(x.phase))
              == if x.phase.LogWriting?
                 then x.(disk := x.disk.(header := x.hdr), phase := Installing(Below(|x.hdr|)))
                 else x.(disk := x.disk.(header := []), hdr := [], phase := Running)
    {
    }

    lemma CrashEffect(x: State)
      ensures Enabled(g, x, Crash)
      ensures Apply(g, x, Crash) == State(x.disk, [], x.disk.blocks, [], map[], Down)
    {
    }

    lemma ReadEffect(x: State)
      requires x.phase.Down?
      ensures Enabled(g, x, ReadHeader)
      ensures var x' := Apply(g, x, ReadHeader);
              x' == x.(hdr := x.disk.header, buf := x'.buf, phase := Replaying(Below(|x.disk.header|)))
    {
    }

    /** The copying loop of write_log_blk: each logged block into its buffer of the log, kept in buf_ptrs. */
    method CollectLogs() returns (targets: seq<nat>, data: seq<Data>)
      requires Valid() && BufIsView(g, s) && (forall i :: 0 <= i < nblks ==> g.Home(s.hdr[i]))
      modifies bufPtrs
      ensures data == s.buf && BufSynced() && |targets| == nblks
      ensures forall k :: 0 <= k < nblks ==> targets[k] == g.Slot(k)
    {
      hide IsTrace;
      targets, data := [], [];
      var i := 0;
      while i < nblks
        invariant i <= nblks && |targets| == |data| == i
        invariant data == s.buf[..i] == bufPtrs[..i]
        invariant forall k :: 0 <= k < i ==> targets[k] == g.Slot(k)
        modifies bufPtrs
      {
        assert g.Home(s.hdr[i]);
        targets := targets + [g.start + i + 1];
        data := data + [cache[blksNo[i]]];
        bufPtrs[i] := data[i];
        i := i + 1;
      }
    }

    method WriteLogBlk()
      requires Valid() && s.phase == LogWriting(Below(nblks))
      modifies this`s, this`run, blocks, cache, bufPtrs
      ensures Valid() && BufSynced()
      ensures s == old(s).(disk := s.disk, phase := LogWriting({})) && s.disk.header == old(s.disk.header)
      ensures OnlyBatch(old(run), run, false)
    {
      hide IsTrace, Enabled, Apply, OnlyBatch;
      assert BufIsView(g, s) && (forall i :: 0 <= i < nblks ==> g.Home(s.hdr[i])) by {
        Invariant();
      }
      var targets, data := CollectLogs();
      BwriteDozens(targets, data, false);
    }

    /** The copying loop of write_log_header. */
    method CopyHeader()
      requires Shape()
      modifies this`diskNblks, diskBlksNo
      ensures diskNblks == nblks && diskBlksNo[..diskNblks] == blksNo[..nblks]
    {
      diskNblks := nblks;
      var i := 0;
      while i < nblks
        invariant i <= nblks == diskNblks
        invariant diskBlksNo[..i] == blksNo[..i]
      {
        diskBlksNo[i] := blksNo[i];
        i := i + 1;
      }
    }

    /** Writes the in-memory header over the disk's: with entries it is the commit point, with none it
        erases the log. */
    method WriteLogHeader()
      requires Synced()
      requires if s.phase == LogWriting({}) then s.hdr == blksNo[..nblks]
               else nblks == 0 && (s.phase == Installing({}) || s.phase == Replaying({}))
      modifies this`diskNblks, this`s, this`run, diskBlksNo
      ensures Valid()
      ensures s == if old(s.phase).LogWriting?
                   then old(s).(disk := old(s.disk).(header := old(s.hdr)), phase := Installing(Below(nblks)))
                   else old(s).(disk := old(s.disk).(header := []), hdr := [], phase := Running)
      ensures run == old(run) + [HeaderAction(old(s.phase))]
    {
      hide IsTrace, Enabled, Apply;
      HeaderEffect(s);
      CopyHeader();
      Do(HeaderAction(s.phase));
    }

    /** The copying loops of keep_consistent_on_disk: from the log when booting, from buf_ptrs otherwise. */
    method CollectHomes(booting: bool) returns (targets: seq<nat>, data: seq<Data>)
      requires Valid() && SlotsHold(g, s, {}) && |s.buf| == nblks
      requires !booting ==> BufSynced()
      ensures targets == s.hdr && data == s.buf
    {
      hide IsTrace;
      targets, data := [], [];
      var i := 0;
      while i < nblks
        invariant i <= nblks
        invariant data == s.buf[..i] && targets == s.hdr[..i]
      {
        assert s.disk.blocks[g.Slot(i)] == s.buf[i];
        data := data + [if booting then blocks[g.start + i + 1] else bufPtrs[i]];
        targets := targets + [blksNo[i]];
        i := i + 1;
      }
    }

    method KeepConsistentOnDisk(booting: bool)
      requires Valid() && s.phase == if booting then Replaying(Below(nblks)) else Installing(Below(nblks))
      requires if booting then s.view == s.disk.blocks else BufSynced()
      modifies this`s, this`run, blocks, cache
      ensures Valid()
      ensures s == old(s).(disk := s.disk, view := s.view, phase := Remaining(old(s.phase), {}))
      ensures s.disk.header == old(s.disk.header)
      ensures s.view == if booting then s.disk.blocks else old(s.view)
      ensures OnlyBatch(old(run), run, booting)
    {
      if nblks == 0 {
        return;
      }
      assert SlotsHold(g, s, {}) && (forall i :: 0 <= i < nblks ==> g.Home(s.hdr[i])) by {
        Invariant();
      }
      var targets, data := CollectHomes(booting);
      BwriteDozens(targets, data, booting);
    }

    /** commit(), called with `committing` set and every transaction closed.  Afterwards the log is empty
        and the disk holds the view. */
    method Commit()
      requires Valid() && committing && s.open == map[]
      requires if nblks > 0 then s.phase == LogWriting(Below(nblks)) else s.phase.Running?
      modifies this, blocks, cache, bufPtrs, diskBlksNo
      ensures Valid() && SameArrays() && committing
      ensures s.phase.Running? && s.open == map[] && s.hdr == [] && s.view == old(s.view)
      ensures SameHome(g, blocks[..], cache[..])
      ensures OnlyCommit(old(run), run)
    {
      hide IsTrace;
      if nblks > 0 {
        WriteLogBlk();
        WriteLogHeader();
        KeepConsistentOnDisk(false);
        nblks := 0;
        WriteLogHeader();
      }
      ClosedLogIsEmpty();
    }

    /** The critical section of end_transaction.  The panic is not reached. */
    method Leave(ghost t: nat) returns (doCommit: bool)
      requires Valid() && t in s.open
      modifies this`nOccupiers, this`committing, this`s, this`run
      ensures Valid() && (doCommit <==> committing) && (doCommit <==> s.open == map[])
      ensures s.open == old(s.open) - {t} && s.view == old(s.view) && s.hdr == old(s.hdr)
      ensures s.phase == if doCommit && nblks > 0 then LogWriting(Below(nblks)) else Running
      ensures run == old(run) + [End(t)]
    {
      hide IsTrace, Apply, Enabled;
      EndEffect(t);
      nOccupiers := nOccupiers - 1;
      assert !committing;
      doCommit := nOccupiers == 0;
      committing := doCommit;
      Do(End(t));
    }

    /** end_transaction: the last one out commits the whole group. */
    method EndTransaction(ghost t: nat)
      requires Valid() && t in s.open
      modifies this, blocks, cache, bufPtrs, diskBlksNo
      ensures Valid() && SameArrays() && !committing && s.phase.Running?
      ensures s.open == old(s.open) - {t} && s.view == old(s.view)
      ensures s.hdr == if s.open == map[] then [] else old(s.hdr)
      ensures s.open == map[] ==> SameHome(g, blocks[..], cache[..])
      ensures OnlyCommit(old(run) + [End(t)], run)
    {
      hide IsTrace, SameHome;
      var doCommit := Leave(t);
      if doCommit {
        Commit();
        committing := false;
      }
    }

    /** Power loss: the memory is gone and bread will read the disk again. */
    method LoseMemory()
      requires Shape() && Traced() && s.disk.blocks == blocks[..] && s.disk.header == diskBlksNo[..diskNblks]
      modifies this`nblks, this`committing, this`nOccupiers, this`s, this`run, cache
      ensures Valid() && !committing && run == old(run) + [Crash] && s == Apply(g, old(s), Crash)
    {
      hide IsTrace, Enabled, Apply;
      CrashEffect(s);
      nblks, committing, nOccupiers := 0, false, 0;
      forall i | 0 <= i < g.total {
        cache[i] := blocks[i];
      }
      assert cache[..] == blocks[..];
      Do(Crash);
    }

    method ReadLogHeader()
      requires Valid() && s.phase.Down?
      modifies this`nblks, this`s, this`run, blksNo
      ensures Valid() && run == old(run) + [ReadHeader]
      ensures s == old(s).(hdr := old(s.disk.header), buf := s.buf, phase := Replaying(Below(nblks)))
    {
      hide IsTrace, Enabled, Apply;
      ReadEffect(s);
      nblks := diskNblks;
      var i := 0;
      while i < nblks
        invariant i <= nblks == diskNblks
        invariant Traced() && s == old(s) && run == old(run)
        invariant blksNo[..i] == diskBlksNo[..i]
      {
        blksNo[i] := diskBlksNo[i];
        i := i + 1;
      }
      Do(ReadHeader);
    }

    /** recover_from_log after a crash in any state: the home blocks become what recovery of the disk
        found at the crash prescribes, the log is empty and the cache agrees with the disk. */
    method RecoverFromLog()
      requires Valid() && s.phase.Down?
      modifies this, blocks, cache, blksNo, diskBlksNo
      ensures Valid() && SameArrays() && s.phase.Running? && s.open == map[]
      ensures s.hdr == [] && s.disk.header == [] && s.view == s.disk.blocks
      ensures Inv(g, old(s)) && SameHome(g, blocks[..], Recover(g, old(s.disk)).blocks)
      ensures OnlyRecovery(old(run), run)
    {
      hide IsTrace, Inv, Recover, SameHome, OnlyBatch, OnlyRecovery, Enabled, Apply;
      assert s.view == s.disk.blocks by {
        Invariant();
      }
      ReadLogHeader();
      KeepConsistentOnDisk(true);
      nblks := 0;
      RecoverySteps(old(run), run);
      WriteLogHeader();
      RecoveredTrace(old(s), old(run));
    }
  }
}
