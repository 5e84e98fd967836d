/** The log and the block cache together: whether the buffers that a commit or a recovery holds at once are
    there. */
module CacheRoom {
  // A process that finds no buffer sleeps in getblk until one is released; here the only ones that could
  // release one are held by the sleeper itself, or dirty until it has finished.

  import opened Params
  import opened Lists
  import opened BufferState
  import opened BufferContents

  const NBUF: nat := MAXOPBLOCKS * 3

  /** The buffers that getblk cannot give to another block. */
  ghost function Pinned(c: Cache): set<nat> {
    set b | 0 <= b < |c.bufs| && (c.bufs[b].busy || c.bufs[b].dirty)
  }

  /** No held or dirty buffer has this block. */
  ghost predicate Unpinned(c: Cache, blockno: nat) {
    forall b :: 0 <= b < |c.bufs| && (c.bufs[b].busy || c.bufs[b].dirty) ==> c.bufs[b].blockno != blockno
  }

  /** A buffer that nobody holds has a logged content of this block. */
  ghost predicate Dirty(c: Cache, blockno: nat) {
    exists b :: 0 <= b < |c.bufs| && DirtyIn(c, blockno, b)
  }

  ghost predicate DirtyIn(c: Cache, blockno: nat, b: nat)
    requires b < |c.bufs|
  {
    c.bufs[b].hashed && c.bufs[b].blockno == blockno && c.bufs[b].dirty && !c.bufs[b].busy
  }

  // ---------------------------------------------------------------- counting

  lemma {:induction false} Elements(s: seq<nat>, t: set<nat>)
    requires Distinct(s) && forall x :: x in s <==> x in t
    ensures |s| == |t|
    decreases s
  {
    if s == [] {
      assert t == {};
    } else {
      assert Distinct(s[1..]) && s == [s[0]] + s[1..];
      assert forall x :: x in s[1..] <==> x in s && x != s[0];
      Elements(s[1..], t - {s[0]});
    }
  }

  lemma {:induction false} Injective(m: map<nat, nat>)
    requires forall b, d :: b in m && d in m && b != d ==> m[b] != m[d]
    ensures |m.Keys| == |m.Values|
    decreases |m|
  {
    if m == map[] {
      assert m.Keys == {} && m.Values == {};
    } else {
      var b :| b in m;
      var rest := m - {b};
      Injective(rest);
      assert m.Keys == rest.Keys + {b};
      assert m.Values == rest.Values + {m[b]};
    }
  }

  /** As many keys as values when the values are those of the list, each once. */
  lemma Matched(m: map<nat, nat>, s: seq<nat>)
    requires Distinct(s) && (forall b, d :: b in m && d in m && b != d ==> m[b] != m[d])
    requires (forall b :: b in m ==> m[b] in s) && forall x :: x in s ==> exists b :: b in m && m[b] == x
    ensures |m.Keys| == |s|
  {
    hide Distinct;
    Injective(m);
    assert forall x :: x in s <==> x in m.Values;
    Elements(s, m.Values);
  }

  lemma {:induction false} Numbers(n: nat) returns (t: set<nat>)
    ensures |t| == n && forall x :: x in t <==> 0 <= x < n
  {
    if n == 0 {
      t := {};
    } else {
      t := Numbers(n - 1);
      t := t + {n - 1};
    }
  }

  /** Every buffer is pinned or on the free list. */
  lemma FreeCount(c: Cache)
    requires Inv(c)
    ensures |c.free| == |c.bufs| - |Pinned(c)|
  {
    hide Chained;
    var all := Numbers(|c.bufs|);
    assert all == (all - Pinned(c)) + Pinned(c);
    Elements(c.free, all - Pinned(c));
  }

  // ---------------------------------------------------------------- bread and brelse

  ghost function Brelse(c: Cache, p: nat, b: nat): (c': Cache)
    requires Inv(c) && Enabled(c, Release(p, b))
    ensures Inv(c') && |c'.bufs| == |c.bufs|
  {
    OtherKeeps(c, Release(p, b));
    Apply(c, Release(p, b))
  }

  /** A block that is not pinned gets a buffer from the free list. */
  lemma GetUnpinned(c: Cache, p: nat, blockno: nat)
    requires Inv(c) && Unpinned(c, blockno)
    ensures |c.chains| == HASHSLOT && forall b :: b in c.free ==> b < |c.bufs|
    ensures forall b :: 0 <= b < |c.bufs| && c.bufs[b].hashed ==> b in c.chains[Hash(c.bufs[b].blockno)]
    ensures var (c1, b) := TryGet(c, p, blockno);
            && (b < |c.bufs| <==> c.free != [])
            && (b < |c.bufs| ==>
                  && b in c.free
                  && c1.bufs == c.bufs[b := Buf(true, c1.bufs[b].valid, false, true, blockno, c1.bufs[b].data)])
  {
    Shapes(c);
    FreeOnes(c);
    FindIs(c, blockno);
    hide Inv, Chained, Listed, Find, Without;
    assert c.free != [] ==> c.free[0] in c.free;
  }

  lemma FreeOnes(c: Cache)
    requires Inv(c)
    ensures forall b :: b in c.free <==> 0 <= b < |c.bufs| && !c.bufs[b].busy && !c.bufs[b].dirty
  {
  }

  /** A block that is not pinned needs a buffer that is not: it is there exactly when not all are pinned. */
  lemma BreadUnpinned(c: Cache, p: nat, blockno: nat)
    requires Inv(c) && Unpinned(c, blockno)
    ensures var r := Bread(c, p, blockno);
            && (r.Some? <==> |Pinned(c)| < |c.bufs|)
            && (r.Some? ==>
                  var (c1, b) := r.value;
                  && b !in Pinned(c) && Pinned(c1) == Pinned(c) + {b} && |c1.bufs| == |c.bufs|
                  && c1.bufs == c.bufs[b := Buf(true, true, false, true, blockno, c1.bufs[b].data)])
  {
    hide Inv, TryGet, Bread;
    FreeCount(c);
    FreeOnes(c);
    GetUnpinned(c, p, blockno);
    BreadIs(c, p, blockno);
    var (c1, b) := TryGet(c, p, blockno);
    assert |c.free| == 0 <==> c.free == [];
    if b < |c.bufs| {
      PinnedPut(c, Bread(c, p, blockno).value.0, b);
    }
  }

  lemma BreadIs(c: Cache, p: nat, blockno: nat)
    requires Inv(c)
    ensures |c.chains| == HASHSLOT && forall b :: b in c.free ==> b < |c.bufs|
    ensures forall b :: 0 <= b < |c.bufs| && c.bufs[b].hashed ==> b in c.chains[Hash(c.bufs[b].blockno)]
    ensures var r, (c1, b) := Bread(c, p, blockno), TryGet(c, p, blockno);
            && (r.Some? <==> b < |c.bufs|)
            && (r.Some? ==>
                  && r.value.1 == b && |c1.bufs| == |c.bufs|
                  && r.value.0.bufs == if c1.bufs[b].valid || c1.bufs[b].dirty then c1.bufs
                                       else c1.bufs[b := c1.bufs[b].(valid := true, data := Stored(c.disk, blockno))])
  {
    hide Inv, TryGet;
    GetKeeps(c, p, blockno);
  }

  lemma PinnedPut(c: Cache, c1: Cache, b: nat)
    requires b < |c.bufs| == |c1.bufs| && c1.bufs == c.bufs[b := c1.bufs[b]] && c1.bufs[b].busy
    ensures Pinned(c1) == Pinned(c) + {b}
  {
  }

  /** A logged block is found in its dirty buffer. */
  lemma BreadDirty(c: Cache, p: nat, blockno: nat, b: nat)
    requires Inv(c) && b < |c.bufs| && DirtyIn(c, blockno, b)
    ensures var r := Bread(c, p, blockno);
            && r.Some? && r.value.1 == b && r.value.0.bufs == c.bufs[b := c.bufs[b].(busy := true)]
            && Pinned(r.value.0) == Pinned(c)
  {
    FindIs(c, blockno);
    OneBuffer(c);
    BreadIs(c, p, blockno);
    hide Inv, Bread, Find;
    PinnedPut(c, Bread(c, p, blockno).value.0, b);
  }

  /** A released buffer is pinned no more, unless it is dirty. */
  lemma BrelsePinned(c: Cache, p: nat, b: nat)
    requires Inv(c) && Enabled(c, Release(p, b))
    ensures var c' := Brelse(c, p, b);
            && c'.bufs == c.bufs[b := c.bufs[b].(busy := false)]
            && Pinned(c') == if c.bufs[b].dirty then Pinned(c) else Pinned(c) - {b}
  {
    hide Inv;
  }

  // ---------------------------------------------------------------- commit

  /** The loop of write_log_blk: each slot of the log is held until the batch is written; the cached block is
      read and released. */
  ghost function CopyToLog(c: Cache, p: nat, slots: seq<nat>, homes: seq<nat>): Option<Cache>
    requires Inv(c) && |slots| == |homes|
    decreases |slots|
  {
    hide Inv, Bread, Enabled;
    if slots == [] then Some(c)
    else
      var to := Bread(c, p, slots[0]);
      if to.None? then None
      else
        var from := Bread(to.value.0, p, homes[0]);
        if from.None? then None
        else CopyToLog(Brelse(from.value.0, p, from.value.1), p, slots[1..], homes[1..])
  }

  /** The blocks of the log are not in use, and the logged blocks are dirty in the cache. */
  ghost predicate CommitReady(c: Cache, slots: seq<nat>, homes: seq<nat>) {
    && |slots| == |homes| && Distinct(slots)
    && (forall x :: x in slots ==> Unpinned(c, x) && x !in homes)
    && (forall x :: x in homes ==> Dirty(c, x))
  }

  /** One turn pins one more buffer. */
  lemma CopyTurn(c: Cache, p: nat, slots: seq<nat>, homes: seq<nat>)
    requires Inv(c) && CommitReady(c, slots, homes) && slots != []
    ensures var to := Bread(c, p, slots[0]);
            && (to.Some? <==> |Pinned(c)| < |c.bufs|)
            && (to.Some? ==>
                  var from := Bread(to.value.0, p, homes[0]);
                  && from.Some?
                  && var c2 := Brelse(from.value.0, p, from.value.1);
                  |c2.bufs| == |c.bufs| && |Pinned(c2)| == |Pinned(c)| + 1 && CommitReady(c2, slots[1..], homes[1..]))
  {
    hide Inv, Bread, Brelse, Enabled, Pinned;
    BreadUnpinned(c, p, slots[0]);
    var to := Bread(c, p, slots[0]);
    if to.Some? {
      var (c1, t) := to.value;
      assert Dirty(c, homes[0]);
      var b :| 0 <= b < |c.bufs| && DirtyIn(c, homes[0], b);
      IsPinned(c, b);
      BreadDirty(c1, p, homes[0], b);
      var c3 := Bread(c1, p, homes[0]).value.0;
      BrelsePinned(c3, p, b);
      var c2 := Brelse(c3, p, b);
      assert c2.bufs == c1.bufs;
      ReadyOn(c, c2, t, c1.bufs[t].data, slots, homes);
    }
  }

  lemma IsPinned(c: Cache, b: nat)
    requires b < |c.bufs| && (c.bufs[b].busy || c.bufs[b].dirty)
    ensures b in Pinned(c)
  {
  }

  lemma ReadyOn(c: Cache, c2: Cache, t: nat, v: Data, slots: seq<nat>, homes: seq<nat>)
    requires CommitReady(c, slots, homes) && slots != [] && t < |c.bufs| && t !in Pinned(c)
    requires c2.bufs == c.bufs[t := Buf(true, true, false, true, slots[0], v)]
    ensures CommitReady(c2, slots[1..], homes[1..])
  {
    assert slots == [slots[0]] + slots[1..] && homes == [homes[0]] + homes[1..];
    forall x | x in slots[1..] ensures Unpinned(c2, x) && x !in homes[1..] {
      assert x in slots && x != slots[0];
    }
    forall x | x in homes[1..] ensures Dirty(c2, x) {
      assert Dirty(c, x);
      var b :| 0 <= b < |c.bufs| && DirtyIn(c, x, b);
      IsPinned(c, b);
      assert DirtyIn(c2, x, b);
    }
  }

  /** The loop finds all its buffers exactly when those pinned before and the slots are no more than there
      are. */
  lemma {:induction false} CopyRoom(c: Cache, p: nat, slots: seq<nat>, homes: seq<nat>)
    requires Inv(c) && CommitReady(c, slots, homes)
    ensures CopyToLog(c, p, slots, homes).Some? <==> |Pinned(c)| + |slots| <= |c.bufs|
    decreases |slots|
  {
    FreeCount(c);
    if slots != [] {
      hide Inv, Pinned, CommitReady, Bread, Brelse;
      CopyTurn(c, p, slots, homes);
      var to := Bread(c, p, slots[0]);
      if to.Some? {
        var from := Bread(to.value.0, p, homes[0]);
        CopyRoom(Brelse(from.value.0, p, from.value.1), p, slots[1..], homes[1..]);
      }
    }
  }

  /** Nothing is pinned but the logged blocks, which nobody holds. */
  ghost predicate Quiet(c: Cache, homes: seq<nat>) {
    forall b :: b in Pinned(c) ==> !c.bufs[b].busy && c.bufs[b].blockno in homes
  }

  lemma PinnedCount(c: Cache, homes: seq<nat>)
    requires Inv(c) && Distinct(homes) && Quiet(c, homes) && forall x :: x in homes ==> Dirty(c, x)
    ensures |Pinned(c)| == |homes|
  {
    HashedOnes(c);
    OneBuffer(c);
    hide Inv;
    var m := map b | b in Pinned(c) :: c.bufs[b].blockno;
    forall x | x in homes ensures exists b :: b in m && m[b] == x {
      assert Dirty(c, x);
      var b :| 0 <= b < |c.bufs| && DirtyIn(c, x, b);
      IsPinned(c, b);
      assert b in m;
    }
    Matched(m, homes);
    assert m.Keys == Pinned(c);
  }

  /** With only the n blocks of the group pinned, write_log_blk gets its buffers exactly when 2n are there:
      with NBUF buffers, for groups of at most 60 blocks. */
  lemma CommitRoom(c: Cache, p: nat, slots: seq<nat>, homes: seq<nat>)
    requires Inv(c) && CommitReady(c, slots, homes) && Distinct(homes) && Quiet(c, homes)
    ensures |Pinned(c)| == |homes|
    ensures CopyToLog(c, p, slots, homes).Some? <==> 2 * |homes| <= |c.bufs|
    ensures |c.bufs| == NBUF ==> (CopyToLog(c, p, slots, homes).Some? <==> |homes| <= 60)
  {
    hide Inv, CopyToLog, Pinned, Quiet;
    PinnedCount(c, homes);
    CopyRoom(c, p, slots, homes);
  }

  /** Reading, marking and releasing each block of a group. */
  ghost function LogGroup(c: Cache, p: nat, homes: seq<nat>, vs: seq<Data>): Option<Cache>
    requires Inv(c) && |vs| == |homes|
    decreases |homes|
  {
    hide Inv, Bread;
    if homes == [] then Some(c)
    else
      var r := Bread(c, p, homes[0]);
      if r.None? then None else LogGroup(Mark(r.value.0, p, r.value.1, vs[0]), p, homes[1..], vs[1..])
  }

  /** log_write and brelse. */
  ghost function Mark(c: Cache, p: nat, b: nat, v: Data): (c': Cache)
    requires Inv(c) && Enabled(c, Release(p, b))
    ensures Inv(c') && |c'.bufs| == |c.bufs|
    ensures c'.bufs == c.bufs[b := c.bufs[b].(busy := false, valid := false, dirty := true, data := v)]
  {
    OtherKeeps(c, LogWrite(p, b, v));
    hide Inv;
    Brelse(Apply(c, LogWrite(p, b, v)), p, b)
  }

  lemma MarkTurn(c: Cache, p: nat, before: seq<nat>, h: nat, v: Data)
    requires Inv(c) && Distinct(before) && Quiet(c, before) && (forall x :: x in before ==> Dirty(c, x))
    requires h !in before && |before| < |c.bufs|
    ensures var r := Bread(c, p, h);
            && r.Some?
            && var c' := Mark(r.value.0, p, r.value.1, v);
            && |c'.bufs| == |c.bufs| && Quiet(c', before + [h]) && forall x :: x in before + [h] ==> Dirty(c', x)
  {
    hide Inv, Bread, Mark, Enabled;
    PinnedCount(c, before);
    assert Unpinned(c, h) by {
      forall b | 0 <= b < |c.bufs| && (c.bufs[b].busy || c.bufs[b].dirty) ensures c.bufs[b].blockno != h {
        IsPinned(c, b);
      }
    }
    BreadUnpinned(c, p, h);
    var (c1, b) := Bread(c, p, h).value;
    var c' := Mark(c1, p, b, v);
    assert DirtyIn(c', h, b);
    forall x | x in before ensures Dirty(c', x) {
      assert Dirty(c, x);
      var d :| 0 <= d < |c.bufs| && DirtyIn(c, x, d);
      IsPinned(c, d);
      assert DirtyIn(c', x, d);
    }
    forall d | d in Pinned(c') ensures !c'.bufs[d].busy && c'.bufs[d].blockno in before + [h] {
      if d != b {
        IsPinned(c, d);
      }
    }
  }

  lemma {:induction false} LogAll(c: Cache, p: nat, before: seq<nat>, homes: seq<nat>, vs: seq<Data>)
    requires Inv(c) && Distinct(before + homes) && Quiet(c, before) && (forall x :: x in before ==> Dirty(c, x))
    requires |before| + |homes| <= |c.bufs| && |vs| == |homes|
    ensures var r := LogGroup(c, p, homes, vs);
            && r.Some? && Inv(r.value) && |r.value.bufs| == |c.bufs| && Quiet(r.value, before + homes)
            && forall x :: x in before + homes ==> Dirty(r.value, x)
    decreases |homes|
  {
    hide Inv, Bread, Mark, Quiet, Dirty;
    if homes == [] {
      assert before + homes == before;
    } else {
      var h := homes[0];
      assert before + homes == before + [h] + homes[1..];
      SplitDistinct(before, h, homes[1..]);
      MarkTurn(c, p, before, h, vs[0]);
      var r := Bread(c, p, h);
      LogAll(Mark(r.value.0, p, r.value.1, vs[0]), p, before + [h], homes[1..], vs[1..]);
    }
  }

  lemma SplitDistinct(a: seq<nat>, h: nat, b: seq<nat>)
    requires Distinct(a + [h] + b)
    ensures Distinct(a) && h !in a
  {
    var s := a + [h] + b;
    assert forall i :: 0 <= i < |a| ==> s[i] == a[i];
    assert s[|a|] == h;
  }

  /** In a fresh cache of NBUF buffers any group up to NBUF blocks can be logged, and its commit gets its buffers
      exactly when the group has at most 60 blocks. */
  lemma GroupInFreshCache(c: Cache, p: nat, slots: seq<nat>, homes: seq<nat>, vs: seq<Data>)
    requires Init(c) && |c.bufs| == NBUF && Distinct(slots) && Distinct(homes) && |slots| == |homes| == |vs| <= NBUF
    requires forall x :: x in slots ==> x !in homes
    ensures Inv(c)
    ensures var r := LogGroup(c, p, homes, vs);
            && r.Some? && Inv(r.value) && CommitReady(r.value, slots, homes)
            && (CopyToLog(r.value, p, slots, homes).Some? <==> |homes| <= 60)
  {
    InitInv(c);
    assert Quiet(c, []);
    hide Inv, Init, LogGroup, CopyToLog, Dirty, Distinct, Quiet, Pinned, Unpinned, CommitReady;
    assert [] + homes == homes;
    LogAll(c, p, [], homes, vs);
    var d := LogGroup(c, p, homes, vs).value;
    GroupReady(d, slots, homes);
    CommitRoom(d, p, slots, homes);
  }

  lemma GroupReady(c: Cache, slots: seq<nat>, homes: seq<nat>)
    requires Quiet(c, homes) && (forall x :: x in homes ==> Dirty(c, x))
    requires |slots| == |homes| && Distinct(slots) && forall x :: x in slots ==> x !in homes
    ensures CommitReady(c, slots, homes)
  {
    hide Dirty, Distinct;
    forall x | x in slots ensures Unpinned(c, x) {
      forall b | 0 <= b < |c.bufs| && (c.bufs[b].busy || c.bufs[b].dirty) ensures c.bufs[b].blockno != x {
        IsPinned(c, b);
      }
    }
  }

  /** keep_consistent_on_disk(0): all home blocks are held at once. */
  ghost function HoldHomes(c: Cache, p: nat, homes: seq<nat>): Option<Cache>
    requires Inv(c)
    decreases |homes|
  {
    if homes == [] then Some(c)
    else
      var b := Bread(c, p, homes[0]);
      if b.None? then None else HoldHomes(b.value.0, p, homes[1..])
  }

  /** They are in the cache, so that no other buffer is needed. */
  lemma {:induction false} InstallRoom(c: Cache, p: nat, homes: seq<nat>)
    requires Inv(c) && Distinct(homes) && forall x :: x in homes ==> Dirty(c, x)
    ensures var r := HoldHomes(c, p, homes); r.Some? && Pinned(r.value) == Pinned(c)
    decreases |homes|
  {
    if homes != [] {
      hide Inv, Bread, Pinned;
      assert homes[0] in homes && Dirty(c, homes[0]) && Distinct(homes[1..]);
      var b :| 0 <= b < |c.bufs| && DirtyIn(c, homes[0], b);
      BreadDirty(c, p, homes[0], b);
      var c1 := Bread(c, p, homes[0]).value.0;
      forall x | x in homes[1..] ensures Dirty(c1, x) {
        assert homes == [homes[0]] + homes[1..] && x in homes && x != homes[0];
        assert Dirty(c, x);
        var d :| 0 <= d < |c.bufs| && DirtyIn(c, x, d);
        assert DirtyIn(c1, x, d);
      }
      InstallRoom(c1, p, homes[1..]);
    }
  }

  // ---------------------------------------------------------------- recovery

  /** keep_consistent_on_disk(1): each slot of the log is read and released, the home blocks are held. */
  ghost function CopyHome(c: Cache, p: nat, slots: seq<nat>, homes: seq<nat>): Option<Cache>
    requires Inv(c) && |slots| == |homes|
    decreases |slots|
  {
    hide Inv, Bread, Enabled;
    if slots == [] then Some(c)
    else
      var log := Bread(c, p, slots[0]);
      if log.None? then None
      else
        var home := Bread(log.value.0, p, homes[0]);
        if home.None? then None
        else CopyHome(Brelse(home.value.0, p, log.value.1), p, slots[1..], homes[1..])
  }

  /** Neither the blocks of the log nor the home blocks are in use. */
  ghost predicate RecoveryReady(c: Cache, slots: seq<nat>, homes: seq<nat>) {
    && |slots| == |homes| && Distinct(slots) && Distinct(homes)
    && (forall x :: x in slots ==> Unpinned(c, x) && x !in homes)
    && (forall x :: x in homes ==> Unpinned(c, x))
  }

  /** One turn needs two buffers and keeps one of them. */
  lemma RecoveryTurn(c: Cache, p: nat, slots: seq<nat>, homes: seq<nat>)
    requires Inv(c) && RecoveryReady(c, slots, homes) && slots != []
    ensures var log := Bread(c, p, slots[0]);
            && (log.Some? <==> |Pinned(c)| < |c.bufs|)
            && (log.Some? ==>
                  var home := Bread(log.value.0, p, homes[0]);
                  && (home.Some? <==> |Pinned(c)| + 1 < |c.bufs|)
                  && (home.Some? ==>
                        var c2 := Brelse(home.value.0, p, log.value.1);
                        && |c2.bufs| == |c.bufs| && |Pinned(c2)| == |Pinned(c)| + 1
                        && RecoveryReady(c2, slots[1..], homes[1..])))
  {
    hide Inv, Bread, Brelse, Enabled, Pinned;
    BreadUnpinned(c, p, slots[0]);
    var log := Bread(c, p, slots[0]);
    if log.Some? {
      var (c1, t) := log.value;
      assert slots[0] in slots && homes[0] in homes;
      BreadUnpinned(c1, p, homes[0]);
      var home := Bread(c1, p, homes[0]);
      if home.Some? {
        var (c3, b) := home.value;
        BrelsePinned(c3, p, t);
        IsPinned(c1, t);
        RecoveryOn(c, Brelse(c3, p, t), t, c1.bufs[t].data, b, c3.bufs[b].data, slots, homes);
      }
    }
  }

  lemma RecoveryOn(c: Cache, c2: Cache, t: nat, v: Data, b: nat, w: Data, slots: seq<nat>, homes: seq<nat>)
    requires RecoveryReady(c, slots, homes) && slots != [] && t < |c.bufs| && b < |c.bufs| && t != b
    requires var x, y := Buf(false, true, false, true, slots[0], v), Buf(true, true, false, true, homes[0], w);
             c2.bufs == c.bufs[t := x][b := y]
    ensures RecoveryReady(c2, slots[1..], homes[1..])
  {
    assert slots == [slots[0]] + slots[1..] && homes == [homes[0]] + homes[1..];
    forall x | x in slots[1..] ensures Unpinned(c2, x) && x !in homes[1..] {
      assert x in slots && homes[0] in homes;
    }
    forall x | x in homes[1..] ensures Unpinned(c2, x) {
      assert x in homes && x != homes[0];
    }
  }

  /** A recovery of n blocks gets its buffers exactly when n and one for the log are free. */
  lemma {:induction false} RecoveryRoom(c: Cache, p: nat, slots: seq<nat>, homes: seq<nat>)
    requires Inv(c) && RecoveryReady(c, slots, homes)
    ensures CopyHome(c, p, slots, homes).Some? <==> slots == [] || |Pinned(c)| + |slots| + 1 <= |c.bufs|
    decreases |slots|
  {
    if slots != [] {
      hide Inv, Pinned, RecoveryReady, Bread, Brelse;
      RecoveryTurn(c, p, slots, homes);
      var log := Bread(c, p, slots[0]);
      if log.Some? {
        var home := Bread(log.value.0, p, homes[0]);
        if home.Some? {
          RecoveryRoom(Brelse(home.value.0, p, log.value.1), p, slots[1..], homes[1..]);
        }
      }
    }
  }
}
