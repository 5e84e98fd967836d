/** kern/inode.c with balloc and bfree of kern/bio.c: mapping, reading, writing and emptying files.  Blocks are
    read and written through the log, so that a block number stands for its current content. */
module Inodes {
  import opened Params
  import opened FileBlocks
  import DiskBitmap
  import Lists

  /** Inodes to a block of the disk: sizeof(struct d_inode) is 64. */
  const IPB: nat := BLKSIZE / 64

  const MAXBYTES: nat := (MAXOPBLOCKS - 4) / 2 * BLKSIZE

  class FileSystem {
    const size: nat           // blocks of the file system
    const meta: nat           // boot block, superblock, log, inodes and bitmap
    const inodeStart: nat
    const bitmapStart: nat
    var inodes: map<nat, Inode>      // in memory
    var dinodes: map<nat, Inode>     // on disk
    var bitmap: DiskBitmap.Bitmap
    var data: map<nat, seq<Byte>>    // a block's bytes
    var index: map<nat, seq<nat>>    // the same block as an array of addresses
    ghost var logged: set<nat>       // the blocks given to log_write

    ghost predicate Layout()
      reads this
    {
      DiskBitmap.Covers(bitmap, size) && 0 < size
    }

    ghost function Now(): Fs
      reads this
      requires Layout()
    {
      Fs(size, meta, inodes, DiskBitmap.Used(bitmap, size), data, index)
    }

    /** The bitmap blocks that hold the bits of these blocks. */
    ghost function MarksOf(blocks: set<nat>): set<nat> {
      set b | b in blocks :: bitmapStart + b / DiskBitmap.BITPB
    }

    lemma {:induction false} MarksSize(blocks: set<nat>)
      ensures |MarksOf(blocks)| <= |blocks|
    {
      if blocks == {} {
        assert MarksOf(blocks) == {};
      } else {
        var b :| b in blocks;
        MarksSize(blocks - {b});
        assert blocks == blocks - {b} + {b};
        MarksSum(blocks - {b}, {b});
        MarksOne(b);
      }
    }

    lemma MarksSum(a: set<nat>, b: set<nat>)
      ensures MarksOf(a + b) == MarksOf(a) + MarksOf(b)
    {
    }

    lemma MarksOne(b: nat)
      ensures MarksOf({b}) == {bitmapStart + b / DiskBitmap.BITPB} && MarksOf({}) == {}
    {
    }

    ghost predicate Valid()
      reads this
    {
      Layout() && Inv(Now())
    }

    /** The disk s with its bitmap, as it is mounted. */
    constructor (s: Fs, bitmap: DiskBitmap.Bitmap, inodeStart: nat, bitmapStart: nat)
      requires Inv(s) && DiskBitmap.Covers(bitmap, s.size) && DiskBitmap.Used(bitmap, s.size) == s.used
      ensures Valid() && Synced() && Now() == s && this.inodeStart == inodeStart && this.bitmapStart == bitmapStart
    {
      size, meta := s.size, s.meta;
      this.inodeStart, this.bitmapStart, this.bitmap := inodeStart, bitmapStart, bitmap;
      inodes, dinodes, data, index := s.inodes, s.inodes, s.data, s.index;
      logged := {};
    }

    /** balloc: a free block, marked and cleared, or 0 exactly when none is free. */
    method Balloc() returns (b: nat)
      requires Valid()
      modifies `bitmap, `data, `index, `logged
      ensures b == 0 <==> old(|Now().used|) == size
      ensures Layout() && (b == 0 ==> Now() == old(Now()) && logged == old(logged))
      ensures b != 0 ==> Now() == Taken(old(Now()), b) && meta <= b < size && b !in old(Now()).used
      ensures b != 0 ==> logged == old(logged) + MarksOf({b}) + {b}
      ensures |bitmap| == old(|bitmap|)
    {
      hide Inv, DiskBitmap.Covers, DiskBitmap.Bit, DiskBitmap.Used, DiskBitmap.Marked;
      BlockZero(Now());
      DiskBitmap.BitUsed(bitmap, size, 0);
      b := DiskBitmap.FirstClear(bitmap, size);
      DiskBitmap.FirstFree(bitmap, size, b);
      DiskBitmap.UsedBelow(bitmap, size);
      AllTaken(Now().used, size);
      if b == 0 {
        return;
      }
      BlockFree(Now(), b);
      DiskBitmap.MarkedUsed(bitmap, size, b, true);
      MarksOne(b);
      bitmap := DiskBitmap.Marked(bitmap, size, b, true);
      logged := logged + {bitmapStart + b / DiskBitmap.BITPB};
      data := data[b := Zeros()];
      index := index[b := NoEntries()];
      logged := logged + {b};
    }

    /** bfree: -1 when the block was free already. */
    method Bfree(b: nat) returns (r: int)
      requires Layout() && b < size
      modifies `bitmap, `logged
      ensures Layout() && Now() == old(Now()).(used := old(Now()).used - {b})
      ensures r == if b in old(Now()).used then 0 else -1
      ensures |bitmap| == old(|bitmap|) && logged == old(logged) + if r == 0 then MarksOf({b}) else {}
    {
      hide DiskBitmap.Covers, DiskBitmap.Bit, DiskBitmap.Used, DiskBitmap.Marked;
      DiskBitmap.BitUsed(bitmap, size, b);
      if !DiskBitmap.Bit(bitmap, size, b) {
        return -1;
      }
      DiskBitmap.MarkedUsed(bitmap, size, b, false);
      MarksOne(b);
      bitmap := DiskBitmap.Marked(bitmap, size, b, false);
      logged := logged + {bitmapStart + b / DiskBitmap.BITPB};
      return 0;
    }

    static lemma BlockZero(s: Fs)
      requires Inv(s)
      ensures 0 in s.used
    {
    }

    static lemma BlockFree(s: Fs, b: nat)
      requires Inv(s) && b !in s.used
      ensures s.meta <= b
    {
    }

    static lemma InodeFields(s: Fs, i: nat)
      requires Inv(s) && i in s.inodes
      ensures |s.inodes[i].addrs| == NDIRECT + 2
      ensures forall t :: 0 <= t <= NDIRECT ==> s.inodes[i].addrs[t] == Ref(s, i, t)
    {
    }

    /** iupdate. */
    method Iupdate(i: nat)
      requires i in inodes
      modifies `dinodes, `logged
      ensures dinodes == old(dinodes)[i := inodes[i]] && logged == old(logged) + {inodeStart + i / IPB}
    {
      dinodes := dinodes[i := inodes[i]];
      logged := logged + {inodeStart + i / IPB};
    }

    /** An empty address of inode i gets a block, unless there is none. */
    method FillAddr(i: nat, t: nat) returns (addr: nat)
      requires Valid() && i in inodes && t <= NDIRECT && Ref(Now(), i, t) == 0
      modifies `inodes, `bitmap, `data, `index, `logged
      ensures Valid() && i in inodes && (addr == 0 <==> |old(Now()).used| == size)
      ensures addr == 0 ==> Now() == old(Now()) && logged == old(logged)
      ensures addr != 0 ==>
                && addr == Ref(Now(), i, t) && Grown(old(Now()), Now(), i, t)
                && addr !in old(Now().used) && Now().used == old(Now().used) + {addr}
                && logged == old(logged) + MarksOf({addr}) + {addr}
      ensures inodes == old(inodes)[i := inodes[i]] && |bitmap| == old(|bitmap|)
    {
      hide Inv, Grown, Shape, MarksOf, DiskBitmap.Covers, DiskBitmap.Used;
      InodeFields(Now(), i);
      MetaPositive(Now());
      ghost var s := Now();
      addr := Balloc();
      if addr == 0 {
        return;
      }
      PutAddrIs(s, i, t, addr);
      inodes := inodes[i := inodes[i].(addrs := inodes[i].addrs[t := addr])];
      OneMoreKeeps(s, Now(), i, t, addr);
      OneMoreGrows(s, Now(), i, t, addr);
    }

    /** An empty entry of the index block of inode i gets a block, unless there is none. */
    method FillEntry(i: nat, e: nat) returns (addr: nat)
      requires Valid() && i in inodes && e < NINDIRECT
      requires Ref(Now(), i, NDIRECT) != 0 && Ref(Now(), i, NDIRECT + 1 + e) == 0
      modifies `bitmap, `data, `index, `logged
      ensures Valid() && |bitmap| == old(|bitmap|) && (addr == 0 <==> |old(Now()).used| == size)
      ensures addr == 0 ==> Now() == old(Now()) && logged == old(logged)
      ensures addr != 0 ==>
                && addr == Ref(Now(), i, NDIRECT + 1 + e) && Grown(old(Now()), Now(), i, NDIRECT + 1 + e)
                && addr !in old(Now().used) && Now().used == old(Now().used) + {addr}
                && logged == old(logged) + MarksOf({addr}) + {addr, Ref(Now(), i, NDIRECT)}
    {
      hide Inv, Grown, Shape, MarksOf, DiskBitmap.Covers, DiskBitmap.Used;
      InodeFields(Now(), i);
      MetaPositive(Now());
      ghost var s := Now();
      var b := inodes[i].addrs[NDIRECT];
      addr := Balloc();
      if addr == 0 {
        return;
      }
      PutEntryIs(s, i, e, addr);
      var entries: seq<nat> := index[b][e := addr];
      index := index[b := entries];
      logged := logged + {b};
      OneMoreKeeps(s, Now(), i, NDIRECT + 1 + e, addr);
      OneMoreGrows(s, Now(), i, NDIRECT + 1 + e, addr);
    }

    static lemma MetaPositive(s: Fs)
      requires Inv(s)
      ensures s.meta > 0
    {
    }

    /** Since `was`, the log has been given the new blocks, the bitmap blocks of their bits and `all`, and nothing
        else but perhaps some of `more`. */
    ghost predicate Logs(was: set<nat>, took: set<nat>, all: set<nat>, more: set<nat>)
      reads this`logged
    {
      was + MarksOf(took) + took + all <= logged <= was + MarksOf(took) + all + more
    }

    /** From s to s' at most the index block of inode i is new, and the disk is full now. */
    static ghost predicate OutOfBlocks(s: Fs, s': Fs, i: nat) {
      |s'.used| == s'.size && s.used <= s'.used && (s' == s || (Ref(s, i, NDIRECT) == 0 && Grown(s, s', i, NDIRECT)))
    }

    /** From s to s' logical block l of inode i has block addr, and what it lacked was taken. */
    static ghost predicate Mapped(s: Fs, s': Fs, i: nat, l: nat, addr: nat) {
      && addr == Ref(s', i, SlotOf(l)) && s.used <= s'.used && Grown(s, s', i, SlotOf(l))
      && (l >= NDIRECT ==> Ref(s', i, NDIRECT) != 0)
      && |s'.used| == |s.used| + Needs(s, i, l, l + 1)
    }

    static lemma MappedTwice(s: Fs, s1: Fs, s2: Fs, i: nat, e: nat, addr: nat)
      requires Grown(s, s1, i, NDIRECT) && Ref(s1, i, NDIRECT) != 0 && Grown(s1, s2, i, NDIRECT + 1 + e)
      requires addr == Ref(s2, i, NDIRECT + 1 + e) && s.used <= s1.used <= s2.used
      requires |s1.used| == |s.used| + (if Ref(s, i, NDIRECT) == 0 then 1 else 0)
      requires |s2.used| == |s1.used| + (if Ref(s1, i, NDIRECT + 1 + e) == 0 then 1 else 0)
      ensures Mapped(s, s2, i, NDIRECT + e, addr) && Ref(s2, i, NDIRECT) == Ref(s1, i, NDIRECT)
    {
      NeedsOne(s, i, NDIRECT + e);
      EntryStays(s, s1, i, NDIRECT + 1 + e);
      GrownTwice(s, s1, s2, i, NDIRECT + 1 + e);
      GrownIndex(s1, s2, i, NDIRECT + 1 + e);
      hide Grown, Ref, Needs, Missing;
    }

    static lemma NoneTaken(s: Fs, i: nat)
      requires |s.used| == s.size
      ensures OutOfBlocks(s, s, i)
    {
    }

    static lemma IndexTaken(s: Fs, s1: Fs, i: nat)
      requires |s1.used| == s1.size && s.used <= s1.used
      requires s1 == s || (Ref(s, i, NDIRECT) == 0 && Grown(s, s1, i, NDIRECT))
      ensures OutOfBlocks(s, s1, i)
    {
    }

    static lemma MappedOnce(s: Fs, s1: Fs, i: nat, t: nat, addr: nat)
      requires t < NDIRECT && addr == Ref(s1, i, t) && s.used <= s1.used && Grown(s, s1, i, t)
      requires |s1.used| == |s.used| + (if Ref(s, i, t) == 0 then 1 else 0)
      ensures Mapped(s, s1, i, t, addr)
    {
      NeedsOne(s, i, t);
      hide Grown, Ref, Needs, Missing;
    }

    /** The branch of bmap for a direct address. */
    method BmapDirect(i: nat, t: nat) returns (addr: nat)
      requires Valid() && i in inodes && t < NDIRECT
      modifies `inodes, `bitmap, `data, `index, `logged
      ensures Valid() && i in inodes && inodes == old(inodes)[i := inodes[i]] && |bitmap| == old(|bitmap|)
      ensures addr == 0 <==> |old(Now()).used| + Needs(old(Now()), i, t, t + 1) > size
      ensures addr == 0 ==> OutOfBlocks(old(Now()), Now(), i)
      ensures addr != 0 ==>
                && Mapped(old(Now()), Now(), i, t, addr)
                && Logs(old(logged), Now().used - old(Now().used), {}, {addr})
      ensures Ref(old(Now()), i, t) != 0 ==> Now() == old(Now()) && logged == old(logged)
    {
      hide Inv, Grown, MarksOf, Ref, Needs, Missing, Logs, Mapped, OutOfBlocks, DiskBitmap.Covers, DiskBitmap.Used;
      InodeFields(Now(), i);
      NeedsOne(Now(), i, t);
      ghost var s, was := Now(), logged;
      UsedBound(s);
      addr := inodes[i].addrs[t];
      if addr == 0 {
        addr := FillAddr(i, t);
        if addr == 0 {
          NoneTaken(s, i);
          return;
        }
        LogsOne(was, s.used, addr, {addr});
      } else {
        GrownNot(s, i, t);
        LogsNone(s.used, {addr});
      }
      MappedOnce(s, Now(), i, t, addr);
    }

    static lemma EntryIs(s: Fs, i: nat, e: nat)
      requires Inv(s) && i in s.inodes && e < NINDIRECT && Ref(s, i, NDIRECT) != 0
      ensures Ref(s, i, NDIRECT) in s.index && |s.index[Ref(s, i, NDIRECT)]| == NINDIRECT
      ensures Ref(s, i, NDIRECT + 1 + e) == s.index[Ref(s, i, NDIRECT)][e]
    {
      IndexUsed(s, i);
    }

    /** The branch of bmap behind the index block. */
    method BmapEntry(i: nat, e: nat) returns (addr: nat)
      requires Valid() && i in inodes && e < NINDIRECT && Ref(Now(), i, NDIRECT) != 0
      modifies `bitmap, `data, `index, `logged
      ensures Valid() && |bitmap| == old(|bitmap|) && old(Now().used) <= Now().used
      ensures addr == 0 <==> Ref(old(Now()), i, NDIRECT + 1 + e) == 0 && |old(Now()).used| == size
      ensures addr == 0 || Ref(old(Now()), i, NDIRECT + 1 + e) != 0 ==> Now() == old(Now()) && logged == old(logged)
      ensures addr != 0 ==>
                && addr == Ref(Now(), i, NDIRECT + 1 + e) && Grown(old(Now()), Now(), i, NDIRECT + 1 + e)
                && |Now().used| == |old(Now()).used| + (if Ref(old(Now()), i, NDIRECT + 1 + e) == 0 then 1 else 0)
                && Logs(old(logged), Now().used - old(Now().used), {}, {addr, Ref(Now(), i, NDIRECT)})
    {
      hide Inv, Grown, MarksOf, Ref, Logs, DiskBitmap.Covers, DiskBitmap.Used;
      ghost var was, used := logged, Now().used;
      EntryIs(Now(), i, e);
      InodeFields(Now(), i);
      addr := index[inodes[i].addrs[NDIRECT]][e];
      if addr == 0 {
        addr := FillEntry(i, e);
        if addr != 0 {
          LogsOne(was, used, addr, {addr, Ref(Now(), i, NDIRECT)});
        }
      } else {
        GrownNot(Now(), i, NDIRECT + 1 + e);
        LogsNone(used, {addr, Ref(Now(), i, NDIRECT)});
      }
    }

    /** The index block of inode i, taken if there is none; `false` when no block is free for it. */
    method BmapIndex(i: nat) returns (ok: bool)
      requires Valid() && i in inodes
      modifies `inodes, `bitmap, `data, `index, `logged
      ensures Valid() && i in inodes && inodes == old(inodes)[i := inodes[i]] && |bitmap| == old(|bitmap|)
      ensures ok <==> Ref(old(Now()), i, NDIRECT) != 0 || |old(Now()).used| < size
      ensures !ok || Ref(old(Now()), i, NDIRECT) != 0 ==> Now() == old(Now()) && logged == old(logged)
      ensures ok ==>
                && Ref(Now(), i, NDIRECT) != 0 && Grown(old(Now()), Now(), i, NDIRECT)
                && |Now().used| == |old(Now()).used| + (if Ref(old(Now()), i, NDIRECT) == 0 then 1 else 0)
                && old(Now().used) <= Now().used
                && Logs(old(logged), Now().used - old(Now().used), {}, {Ref(Now(), i, NDIRECT)})
    {
      hide Inv, Grown, MarksOf, Ref, Logs, DiskBitmap.Covers, DiskBitmap.Used;
      InodeFields(Now(), i);
      UsedBound(Now());
      ghost var was, used := logged, Now().used;
      if inodes[i].addrs[NDIRECT] == 0 {
        var x := FillAddr(i, NDIRECT);
        if x == 0 {
          return false;
        }
        LogsOne(was, used, x, {x});
      } else {
        GrownNot(Now(), i, NDIRECT);
        LogsNone(used, {Ref(Now(), i, NDIRECT)});
      }
      ok := true;
    }

    /** The branch of bmap behind the direct addresses: the index block and then the entry. */
    method BmapIndirect(i: nat, e: nat) returns (addr: nat)
      requires Valid() && i in inodes && e < NINDIRECT
      modifies `inodes, `bitmap, `data, `index, `logged
      ensures Valid() && i in inodes && inodes == old(inodes)[i := inodes[i]] && |bitmap| == old(|bitmap|)
      ensures addr == 0 <==> |old(Now()).used| + Needs(old(Now()), i, NDIRECT + e, NDIRECT + e + 1) > size
      ensures addr == 0 ==> OutOfBlocks(old(Now()), Now(), i)
      ensures addr != 0 ==>
                && Mapped(old(Now()), Now(), i, NDIRECT + e, addr)
                && Logs(old(logged), Now().used - old(Now().used), {}, {addr, Ref(Now(), i, NDIRECT)})
      ensures Ref(old(Now()), i, NDIRECT + 1 + e) != 0 ==> Now() == old(Now()) && logged == old(logged)
    {
      hide Inv, Grown, MarksOf, Ref, Missing, Needs, Logs, OutOfBlocks, Mapped, DiskBitmap.Covers, DiskBitmap.Used;
      NeedsOne(Now(), i, NDIRECT + e);
      ghost var s, was := Now(), logged;
      UsedBound(s);
      EntryNeedsIndex(s, i, e);
      var ok := BmapIndex(i);
      if !ok {
        NoneTaken(s, i);
        return 0;
      }
      EntryStays(s, Now(), i, NDIRECT + 1 + e);
      ghost var s1 := Now();
      UsedBound(s1);
      LogsOut(was, s1.used - s.used, {}, {Ref(s1, i, NDIRECT)});
      ghost var before := logged;
      addr := BmapEntry(i, e);
      if addr == 0 {
        IndexTaken(s, s1, i);
        return;
      }
      MappedTwice(s, s1, Now(), i, e, addr);
      LogsTwo(was, before, s.used, s1.used, Now().used, Ref(s1, i, NDIRECT), {addr, Ref(s1, i, NDIRECT)});
    }

    lemma LogsTwo(was: set<nat>, before: set<nat>, u0: set<nat>, u1: set<nat>, u2: set<nat>, x: nat, more: set<nat>)
      requires u0 <= u1 <= u2 && x in more && Logs(before, u2 - u1, {}, more)
      requires was + MarksOf(u1 - u0) + (u1 - u0) + {} <= before <= was + MarksOf(u1 - u0) + {} + {x}
      ensures Logs(was, u2 - u0, {}, more)
    {
      hide Logs, MarksOf;
      var none: set<nat> := {};
      assert none + none == none;
      LogsTurn(was, before, u0, u1, u2, none, none, {x}, more, more);
    }

    lemma LogsOut(was: set<nat>, took: set<nat>, all: set<nat>, more: set<nat>)
      requires Logs(was, took, all, more)
      ensures was + MarksOf(took) + took + all <= logged <= was + MarksOf(took) + all + more
    {
    }

    lemma LogsAlso(was: set<nat>, before: set<nat>, took: set<nat>, b: nat, more: set<nat>)
      requires was + MarksOf(took) + took + {} <= before <= was + MarksOf(took) + {} + ({b} + more)
      requires logged == before + {b}
      ensures Logs(was, took, {b}, more)
    {
      hide MarksOf;
    }

    static lemma EntryStays(s: Fs, s': Fs, i: nat, u: nat)
      requires Grown(s, s', i, NDIRECT) && u > NDIRECT
      ensures Ref(s', i, u) == Ref(s, i, u)
    {
    }

    lemma LogsOne(was: set<nat>, used: set<nat>, b: nat, more: set<nat>)
      requires b !in used && b in more && was + MarksOf({b}) + {b} <= logged <= was + MarksOf({b}) + more
      ensures Logs(was, used + {b} - used, {}, more)
    {
      assert used + {b} - used == {b};
    }

    static lemma StableSelf(s: Fs)
      ensures Stable(s, s)
    {
    }

    lemma LogsNone(used: set<nat>, more: set<nat>)
      ensures Logs(logged, used - used, {}, more)
    {
      MarksOne(0);
      assert used - used == {};
    }

    /** bmap: the block of logical block lblkno, taken from the free ones where the file has none; 0 exactly when
        there are not enough of them.  The doubly indirect branch is not reached
        (FileBlocks.DoubleIndirectUnreachable). */
    method Bmap(i: nat, lblkno: nat) returns (addr: nat)
      requires Valid() && i in inodes && lblkno < NDIRECT + NINDIRECT
      modifies `inodes, `bitmap, `data, `index, `logged
      ensures Valid() && i in inodes && inodes == old(inodes)[i := inodes[i]] && |bitmap| == old(|bitmap|)
      ensures addr == 0 <==> |old(Now()).used| + Needs(old(Now()), i, lblkno, lblkno + 1) > size
      ensures addr == 0 ==> OutOfBlocks(old(Now()), Now(), i)
      ensures addr != 0 ==>
                && Mapped(old(Now()), Now(), i, lblkno, addr)
                && Logs(old(logged), Now().used - old(Now().used), {}, {addr} + IndexOf(Now(), i, lblkno + 1))
      ensures Ref(old(Now()), i, SlotOf(lblkno)) != 0 ==> Now() == old(Now()) && logged == old(logged)
    {
      hide Inv, Grown, MarksOf, Ref, Missing, Needs, Logs, Mapped, OutOfBlocks, IndexOf, DiskBitmap.Covers,
        DiskBitmap.Used;
      if lblkno >= NDIRECT {
        addr := BmapIndirect(i, lblkno - NDIRECT);
      } else {
        addr := BmapDirect(i, lblkno);
      }
      WithIndex(Now(), i, lblkno, addr);
    }

    static lemma WithIndex(s: Fs, i: nat, l: nat, addr: nat)
      ensures {addr} + IndexOf(s, i, l + 1) == if l < NDIRECT then {addr} else {addr, Ref(s, i, NDIRECT)}
    {
    }

    static lemma NeedsOne(s: Fs, i: nat, l: nat)
      ensures Needs(s, i, l, l + 1) == (if Ref(s, i, SlotOf(l)) == 0 then 1 else 0)
                                       + if l >= NDIRECT && Ref(s, i, NDIRECT) == 0 then 1 else 0
    {
      assert Missing(s, i, l + 1, l + 1) == 0;
    }

    static lemma EntryNeedsIndex(s: Fs, i: nat, e: nat)
      requires Inv(s) && i in s.inodes
      ensures Ref(s, i, NDIRECT) == 0 ==> Ref(s, i, NDIRECT + 1 + e) == 0
    {
    }

    static lemma GrownIndex(s: Fs, s': Fs, i: nat, t: nat)
      requires Grown(s, s', i, t) && Ref(s, i, NDIRECT) != 0
      ensures Ref(s', i, NDIRECT) == Ref(s, i, NDIRECT) && (i in s.inodes <==> i in s'.inodes)
    {
    }

    // ---------------------------------------------------------------- reading and writing

    /** In memory and on disk the inodes agree. */
    ghost predicate Synced()
      reads this
    {
      dinodes == inodes
    }

    /** readi, for a file that is not a device; -1 stands for E_BAD_OFFSET. */
    method Readi(i: nat, offset: nat, nbytes: nat) returns (r: int, dst: seq<Byte>)
      requires Valid() && i in inodes && offset < WORD && nbytes < WORD
      modifies `inodes, `bitmap, `data, `index, `logged
      ensures Layout() && Now() == old(Now()) && logged == old(logged)
      ensures r == -1 <==> offset > inodes[i].size || (offset + nbytes) % WORD < offset
      ensures r != -1 ==>
                var end := if offset + nbytes > inodes[i].size then inodes[i].size else offset + nbytes;
                r == end - offset && dst == Contents(Now(), i)[offset..end]
    {
      hide Inv, MarksOf, Ref, Contents, DiskBitmap.Covers, DiskBitmap.Used;
      dst := [];
      var fileSize := inodes[i].size;
      if offset > fileSize || (offset + nbytes) % WORD < offset {
        return -1, dst;
      }
      var n := nbytes;
      if offset + n > fileSize {
        n := fileSize - offset;
      }
      ghost var s := Now();
      ContentsLength(s, i);
      var total := 0;
      while total < n
        invariant 0 <= total <= n && Layout() && Now() == s && logged == old(logged)
        invariant dst == Contents(s, i)[offset..offset + total]
      {
        var at := offset + total;
        var rd := BLKSIZE - at % BLKSIZE;
        if n - total < rd {
          rd := n - total;
        }
        var chunk := ReadChunk(i, at, rd);
        SliceJoin(Contents(s, i), offset, at, at + rd);
        dst := dst + chunk;
        total := total + rd;
      }
      r := n;
    }

    static lemma ContentsLength(s: Fs, i: nat)
      requires i in s.inodes
      ensures |Contents(s, i)| == s.inodes[i].size
    {
    }

    static lemma SliceJoin(c: seq<Byte>, a: nat, b: nat, d: nat)
      requires a <= b <= d <= |c|
      ensures c[a..b] + c[b..d] == c[a..d]
    {
    }

    /** bread of the block of an existing byte, and the bytes from there on. */
    method ReadChunk(i: nat, at: nat, rd: nat) returns (chunk: seq<Byte>)
      requires Valid() && i in inodes && at < inodes[i].size
      requires at % BLKSIZE + rd <= BLKSIZE && at + rd <= inodes[i].size
      modifies `inodes, `bitmap, `data, `index, `logged
      ensures Layout() && Now() == old(Now()) && logged == old(logged)
      ensures at + rd <= |Contents(Now(), i)| && chunk == Contents(Now(), i)[at..at + rd]
    {
      hide Inv, Grown, MarksOf, Ref, Missing, Needs, DiskBitmap.Covers, DiskBitmap.Used;
      BlockMapped(Now(), i, at);
      NeedsOne(Now(), i, at / BLKSIZE);
      UsedBound(Now());
      EntryNeedsIndexAt(Now(), i, at / BLKSIZE);
      BlockBytes(Now(), i, at, rd, Ref(Now(), i, SlotOf(at / BLKSIZE)));
      var b := Bmap(i, at / BLKSIZE);
      chunk := data[b][at % BLKSIZE..at % BLKSIZE + rd];
    }

    static lemma UsedBound(s: Fs)
      requires Inv(s)
      ensures |s.used| <= s.size
    {
      forall b | b in s.used ensures b < s.size {
      }
      Lists.BoundedSet(s.used, s.size);
    }

    static lemma EntryNeedsIndexAt(s: Fs, i: nat, l: nat)
      requires Inv(s) && i in s.inodes && Ref(s, i, SlotOf(l)) != 0
      ensures l >= NDIRECT ==> Ref(s, i, NDIRECT) != 0
    {
      if l >= NDIRECT {
        EntryNeedsIndex(s, i, l - NDIRECT);
      }
    }

    /** Bytes of one block are bytes of the file. */
    static lemma BlockBytes(s: Fs, i: nat, at: nat, rd: nat, b: nat)
      requires Inv(s) && i in s.inodes && at % BLKSIZE + rd <= BLKSIZE && at + rd <= s.inodes[i].size
      requires b == Ref(s, i, SlotOf(at / BLKSIZE)) && b != 0
      ensures b in s.data && |s.data[b]| == BLKSIZE
      ensures s.data[b][at % BLKSIZE..at % BLKSIZE + rd] == Contents(s, i)[at..at + rd]
    {
      var x, y := s.data[b][at % BLKSIZE..at % BLKSIZE + rd], Contents(s, i)[at..at + rd];
      forall k | 0 <= k < rd ensures x[k] == y[k] {
        InChunk(at, at + k, rd);
      }
    }

    /** One turn of the loop of writei: bmap, bread, memmove, log_write. */
    method WriteChunk(i: nat, at: nat, chunk: seq<Byte>) returns (ghost s1: Fs)
      requires Valid() && i in inodes && at / BLKSIZE < NDIRECT + NINDIRECT && at % BLKSIZE + |chunk| <= BLKSIZE
      requires |Now().used| + Needs(Now(), i, at / BLKSIZE, at / BLKSIZE + 1) <= size
      modifies `inodes, `bitmap, `data, `index, `logged
      ensures var b := Ref(s1, i, SlotOf(at / BLKSIZE));
              && b in s1.data && at % BLKSIZE + |chunk| <= |s1.data[b]|
              && Layout() && Now() == Poke(s1, b, at % BLKSIZE, chunk)
              && Logs(old(logged), s1.used - old(Now().used), {b}, IndexOf(s1, i, at / BLKSIZE + 1))
      ensures old(Now().used) <= Now().used == s1.used && forall j: nat, u: nat :: Ref(Now(), j, u) == Ref(s1, j, u)
      ensures Inv(s1) && Inv(Now()) && Grown(old(Now()), s1, i, SlotOf(at / BLKSIZE))
      ensures at / BLKSIZE >= NDIRECT ==> Ref(s1, i, NDIRECT) != 0
      ensures |s1.used| == |old(Now()).used| + Needs(old(Now()), i, at / BLKSIZE, at / BLKSIZE + 1)
      ensures i in inodes && inodes == old(inodes)[i := inodes[i]] && |bitmap| == old(|bitmap|)
      ensures Ref(old(Now()), i, SlotOf(at / BLKSIZE)) != 0 ==> inodes == old(inodes)
    {
      hide Inv, Grown, MarksOf, Ref, Missing, Needs, DiskBitmap.Covers, DiskBitmap.Used, IndexOf, Logs;
      ghost var was, used, index := logged, Now().used, at / BLKSIZE + 1;
      var o := at % BLKSIZE;
      var b := Bmap(i, at / BLKSIZE);
      s1 := Now();
      LogsOut(was, s1.used - used, {}, {b} + IndexOf(s1, i, index));
      PokeBytes(s1, i, at / BLKSIZE, o, chunk, i, 0);
      GrownSlot(s1, i, at / BLKSIZE, b);
      PokeKeeps(s1, b, o, chunk);
      data := data[b := data[b][..o] + chunk + data[b][o + |chunk|..]];
      ghost var before := logged;
      logged := logged + {b};
      LogsAlso(was, before, s1.used - used, b, IndexOf(s1, i, index));
    }

    /** From s0 to s the writes up to logical block l have moved no block, and the log has gone from `was` to
        `now` by what they log. */
    ghost predicate Charged(was: set<nat>, s0: Fs, s: Fs, now: set<nat>, i: nat, lo: nat, l: nat) {
      var took := s.used - s0.used;
      && s0.used <= s.used && Stable(s0, s)
      && was + MarksOf(took) + took + Touched(s, i, lo, l) <= now
      && now <= was + MarksOf(took) + Touched(s, i, lo, l) + IndexOf(s, i, l)
    }

    lemma ChargedStart(s: Fs, i: nat, lo: nat)
      ensures Charged(logged, s, s, logged, i, lo, lo)
    {
      TouchedNone(s, i, lo);
      StableSelf(s);
      LogsNone(s.used, IndexOf(s, i, lo));
      hide Stable, Touched, IndexOf;
    }

    lemma ChargedLogs(was: set<nat>, s0: Fs, s: Fs, i: nat, lo: nat, l: nat)
      requires Charged(was, s0, s, logged, i, lo, l)
      ensures s0.used <= s.used && Stable(s0, s)
      ensures Logs(was, s.used - s0.used, Touched(s, i, lo, l), IndexOf(s, i, l))
    {
      hide MarksOf, Stable, Touched, IndexOf;
    }

    lemma ChargedTurn(was: set<nat>, s0: Fs, s: Fs, before: set<nat>, s1: Fs, s2: Fs, i: nat, lo: nat, l: nat)
      requires Charged(was, s0, s, before, i, lo, l) && Grown(s, s1, i, SlotOf(l)) && lo <= l
      requires s.used <= s1.used == s2.used && forall j: nat, u: nat :: Ref(s2, j, u) == Ref(s1, j, u)
      requires Touched(s2, i, lo, l + 1) == Touched(s, i, lo, l) + {Ref(s1, i, SlotOf(l))}
      requires IndexOf(s, i, l) + IndexOf(s1, i, l + 1) <= IndexOf(s2, i, l + 1)
      requires Logs(before, s1.used - s.used, {Ref(s1, i, SlotOf(l))}, IndexOf(s1, i, l + 1))
      ensures Charged(was, s0, s2, logged, i, lo, l + 1)
    {
      hide MarksOf, Stable, Touched, IndexOf, Grown, Ref;
      TurnStable(s0, s, s1, s2, i, SlotOf(l));
      LogsTurn(was, before, s0.used, s.used, s1.used, Touched(s, i, lo, l), {Ref(s1, i, SlotOf(l))},
               IndexOf(s, i, l), IndexOf(s1, i, l + 1), IndexOf(s2, i, l + 1));
    }

    /** The loop of writei has written the first `total` bytes of src over what s0 was, up to logical block l;
        room for the blocks up to h is left. */
    ghost predicate Underway(s0: Fs, was: set<nat>, i: nat, src: seq<Byte>, offset: nat, total: nat, l: nat, h: nat)
      reads this
    {
      var n, lo, hi := |src|, offset / BLKSIZE, Blocks(offset + |src|);
      && Valid() && Inv(s0) && i in inodes && i in s0.inodes && offset <= s0.inodes[i].size
      && 0 < n && offset + n <= MAXFILESIZ && total <= n
      && lo <= l <= hi <= h && l == (if total < n then (offset + total) / BLKSIZE else hi)
      && Written(s0, Now(), i, offset, src, total)
      && inodes == s0.inodes[i := inodes[i]] && (offset + n <= s0.inodes[i].size ==> inodes == s0.inodes)
      && |Now().used| + Needs(Now(), i, l, h) == |s0.used| + Needs(s0, i, lo, h) <= size
      && |Now().used| + Needs(Now(), i, l, hi) == |s0.used| + Needs(s0, i, lo, hi)
      && (forall m {:trigger SlotOf(m)} :: lo <= m < l ==> Ref(Now(), i, SlotOf(m)) != 0)
      && (l > NDIRECT ==> Ref(Now(), i, NDIRECT) != 0)
      && Charged(was, s0, Now(), logged, i, lo, l)
    }

    /** One turn of the loop of writei. */
    method WriteTurn(i: nat, src: seq<Byte>, offset: nat, total: nat, ghost s0: Fs, ghost was: set<nat>, ghost l: nat,
                     ghost h: nat)
        returns (wr: nat)
      requires Underway(s0, was, i, src, offset, total, l, h) && total < |src|
      modifies `inodes, `bitmap, `data, `index, `logged
      ensures 0 < wr && Underway(s0, was, i, src, offset, total + wr, l + 1, h) && |bitmap| == old(|bitmap|)
    {
      hide Inv, Grown, MarksOf, Ref, Missing, Needs, Written, Poke, DiskBitmap.Covers, DiskBitmap.Used, IndexOf,
        Touched, SlotOf, Blocks, Logs, Stable, Charged;
      var n, at := |src|, offset + total;
      ghost var lo, hi := offset / BLKSIZE, Blocks(offset + n);
      wr := BLKSIZE - at % BLKSIZE;
      if n - total < wr {
        wr := n - total;
      }
      ChunkEnd(at, wr, offset + n);
      DoubleIndirectUnreachable(at);
      ghost var s, before := Now(), logged;
      NeedsPart(s, i, l, h);
      WrittenSizes(s0, s, i, offset, src, total);
      AlreadyMapped(s, i, at, offset + n, s0);
      ghost var s1 := WriteChunk(i, at, src[total..total + wr]);
      WrittenStep(s0, s, s1, i, offset, src, total, wr);
      TurnTaken(s, s1, Now(), i, lo, l, h);
      TurnNeeds(s, s1, Now(), i, l, hi);
      ChargedTurn(was, s0, s, before, s1, Now(), i, lo, l);
    }

    lemma UnderwayStart(i: nat, src: seq<Byte>, offset: nat, h: nat)
      requires Valid() && i in inodes && offset <= inodes[i].size && 0 < |src| && offset + |src| <= MAXFILESIZ
      requires Blocks(offset + |src|) <= h && |Now().used| + Needs(Now(), i, offset / BLKSIZE, h) <= size
      ensures Underway(Now(), logged, i, src, offset, 0, offset / BLKSIZE, h)
    {
      hide Inv, Ref, Missing, Needs, Written, DiskBitmap.Covers, DiskBitmap.Used, SlotOf, Blocks, Charged;
      WrittenNone(Now(), i, offset, src);
      IndexPresent(Now(), i, offset);
      ChargedStart(Now(), i, offset / BLKSIZE);
      LastBlock(offset, |src|);
    }

    /** The loop of writei.  Exactly the missing blocks are taken; room for the blocks up to h stays. */
    method WriteBlocks(i: nat, src: seq<Byte>, offset: nat, ghost h: nat)
      requires Valid() && i in inodes && offset <= inodes[i].size && 0 < |src| && offset + |src| <= MAXFILESIZ
      requires Blocks(offset + |src|) <= h && |Now().used| + Needs(Now(), i, offset / BLKSIZE, h) <= size
      modifies `inodes, `bitmap, `data, `index, `logged
      ensures Valid() && i in inodes && Written(old(Now()), Now(), i, offset, src, |src|)
      ensures inodes == old(inodes)[i := inodes[i]] && (offset + |src| <= old(inodes[i].size) ==> inodes == old(inodes))
      ensures |Now().used| + Needs(Now(), i, Blocks(offset + |src|), h)
              == |old(Now()).used| + Needs(old(Now()), i, offset / BLKSIZE, h)
      ensures forall m {:trigger SlotOf(m)} :: offset / BLKSIZE <= m < Blocks(offset + |src|) ==>
                Ref(Now(), i, SlotOf(m)) != 0
      ensures Blocks(offset + |src|) > NDIRECT ==> Ref(Now(), i, NDIRECT) != 0
      ensures |bitmap| == old(|bitmap|) && old(Now().used) <= Now().used && Stable(old(Now()), Now())
      ensures |Now().used| == |old(Now()).used| + Needs(old(Now()), i, offset / BLKSIZE, Blocks(offset + |src|))
      ensures Logs(old(logged), Now().used - old(Now().used),
                   Touched(Now(), i, offset / BLKSIZE, Blocks(offset + |src|)),
                   IndexOf(Now(), i, Blocks(offset + |src|)))
    {
      hide Inv, MarksOf, Ref, Missing, Needs, Written, DiskBitmap.Covers, DiskBitmap.Used, IndexOf, Touched,
        SlotOf, Blocks, Logs, Stable, Charged;
      ghost var s0, hi := Now(), Blocks(offset + |src|);
      ghost var l: nat := offset / BLKSIZE;
      LastBlock(offset, |src|);
      UnderwayStart(i, src, offset, h);
      var total := 0;
      while total < |src|
        invariant Underway(s0, old(logged), i, src, offset, total, l, h) && |bitmap| == old(|bitmap|)
        decreases |src| - total
      {
        var wr := WriteTurn(i, src, offset, total, s0, old(logged), l, h);
        total := total + wr;
        l := l + 1;
      }
      NeedsPart(Now(), i, offset / BLKSIZE, hi);
      ChargedLogs(old(logged), s0, Now(), i, offset / BLKSIZE, hi);
    }

    static lemma TurnNeeds(s: Fs, s1: Fs, s2: Fs, i: nat, l: nat, hi: nat)
      requires Grown(s, s1, i, SlotOf(l)) && l < hi && (l >= NDIRECT ==> Ref(s1, i, NDIRECT) != 0)
      requires forall j: nat, u: nat :: Ref(s2, j, u) == Ref(s1, j, u)
      ensures Needs(s, i, l, hi) == Needs(s, i, l, l + 1) + Needs(s2, i, l + 1, hi)
    {
      hide Grown, Needs, Missing, Ref;
      NeedsStep(s, s1, i, l, hi);
      MissingRefs(s1, s2, i, l + 1, hi);
    }

    /** What one turn logs joins what the earlier ones have logged. */
    lemma LogsTurn(was: set<nat>, before: set<nat>, u0: set<nat>, u1: set<nat>, u2: set<nat>, touched: set<nat>,
                   b: set<nat>, more: set<nat>, more1: set<nat>, more2: set<nat>)
      requires u0 <= u1 <= u2 && more + more1 <= more2
      requires was + MarksOf(u1 - u0) + (u1 - u0) + touched <= before <= was + MarksOf(u1 - u0) + touched + more
      requires Logs(before, u2 - u1, b, more1)
      ensures Logs(was, u2 - u0, touched + b, more2)
    {
      MarksSum(u1 - u0, u2 - u1);
      assert u2 - u0 == (u1 - u0) + (u2 - u1);
      hide MarksOf;
    }

    static lemma WrittenSizes(s0: Fs, s: Fs, i: nat, off: nat, src: seq<Byte>, total: nat)
      requires total <= |src| && Written(s0, s, i, off, src, total) && i in s0.inodes
      ensures i in s.inodes && s.inodes[i].size == s0.inodes[i].size
    {
    }

    static lemma TouchedNone(s: Fs, i: nat, lo: nat)
      ensures Touched(s, i, lo, lo) == {}
    {
    }

    /** A write inside the file finds its blocks. */
    static lemma AlreadyMapped(s: Fs, i: nat, at: nat, end: nat, s0: Fs)
      requires Inv(s) && i in s.inodes && i in s0.inodes && s.inodes[i].size == s0.inodes[i].size && at < end
      ensures end <= s0.inodes[i].size ==> Ref(s, i, SlotOf(at / BLKSIZE)) != 0
    {
      if end <= s0.inodes[i].size {
        BlockMapped(s, i, at);
      }
    }

    /** The inode's block on disk, if the file has grown. */
    ghost function InodeBlock(i: nat, grown: bool): set<nat> {
      if grown then {inodeStart + i / IPB} else {}
    }

    /** writei from its loop on: the blocks, then the size and the inode on disk when the file has grown. */
    method WriteSome(i: nat, src: seq<Byte>, offset: nat, ghost h: nat)
      requires Valid() && Synced() && i in inodes && offset <= inodes[i].size
      requires 0 < |src| && offset + |src| <= MAXFILESIZ
      requires Blocks(offset + |src|) <= h && |Now().used| + Needs(Now(), i, offset / BLKSIZE, h) <= size
      modifies this
      ensures Valid() && Synced() && i in inodes && inodes.Keys == old(inodes.Keys) && |bitmap| == old(|bitmap|)
      ensures Contents(Now(), i) == Spliced(old(Contents(Now(), i)), offset, src)
      ensures forall j :: j in inodes && j != i ==> Contents(Now(), j) == old(Contents(Now(), j))
      ensures |Now().used| + Needs(Now(), i, Blocks(offset + |src|), h)
              == |old(Now()).used| + Needs(old(Now()), i, offset / BLKSIZE, h)
      ensures Ref(Now(), i, SlotOf(Blocks(offset + |src|) - 1)) != 0
      ensures Blocks(offset + |src|) > NDIRECT ==> Ref(Now(), i, NDIRECT) != 0
      ensures old(Now().used) <= Now().used && Stable(old(Now()), Now())
      ensures |Now().used| == |old(Now()).used| + Needs(old(Now()), i, offset / BLKSIZE, Blocks(offset + |src|))
      ensures Logs(old(logged), Now().used - old(Now().used),
                   Touched(Now(), i, offset / BLKSIZE, Blocks(offset + |src|))
                   + InodeBlock(i, offset + |src| > old(inodes[i].size)),
                   IndexOf(Now(), i, Blocks(offset + |src|)))
    {
      hide Inv, MarksOf, Missing, Needs, Written, DiskBitmap.Covers, DiskBitmap.Used, Touched, Spliced, ByteAt,
        Contents, IndexOf, Ref, SlotOf, Stable;
      ghost var s0, hi := Now(), Blocks(offset + |src|);
      WriteBlocks(i, src, offset, h);
      ghost var s := Now();
      LastBlock(offset, |src|);
      SizeLimit(s0, i);
      WrittenContents(s0, s, i, offset, src);
      WrittenSizes(s0, s, i, offset, src, |src|);
      if offset + |src| > inodes[i].size {
        inodes := inodes[i := inodes[i].(size := offset + |src|)];
        SizeStable(s0, s, i, offset + |src|);
        SizeOnly(s, i, offset + |src|, offset / BLKSIZE, hi, h);
        Iupdate(i);
      }
    }

    static lemma LastBlock(offset: nat, n: nat)
      requires n > 0
      ensures offset / BLKSIZE <= Blocks(offset + n) - 1 && Blocks(offset + n) > 0
    {
    }

    static lemma SizeOnly(s: Fs, i: nat, n: nat, lo: nat, hi: nat, h: nat)
      requires i in s.inodes && forall m {:trigger SlotOf(m)} :: lo <= m < hi ==> Ref(s, i, SlotOf(m)) != 0
      ensures var s' := SetSize(s, i, n);
              && Needs(s', i, hi, h) == Needs(s, i, hi, h) && Touched(s', i, lo, hi) == Touched(s, i, lo, hi)
              && IndexOf(s', i, hi) == IndexOf(s, i, hi) && forall u: nat :: Ref(s', i, u) == Ref(s, i, u)
    {
      var s' := SetSize(s, i, n);
      assert forall j: nat, u: nat :: Ref(s', j, u) == Ref(s, j, u);
      hide Ref, Missing, Needs, Touched;
      MissingRefs(s, s', i, hi, h);
      TouchedSame(s, s', i, lo, hi);
    }

    /** How many of n bytes writei takes at this offset. */
    function Limit(offset: nat, n: nat): nat
      requires offset <= MAXFILESIZ
    {
      if offset + n > MAXFILESIZ then MAXFILESIZ - offset else n
    }

    /** writei, for a file that is not a device; -1 stands for E_BAD_OFFSET.  The file is spliced, the other
        files stay, the bitmap grows by the missing blocks, and the transaction logs no other blocks. */
    method Writei(i: nat, src: seq<Byte>, offset: nat, ghost h: nat) returns (r: int)
      requires Valid() && Synced() && i in inodes && offset < WORD && |src| < WORD
      requires offset <= inodes[i].size && (offset + |src|) % WORD >= offset ==>
                 Blocks(offset + Limit(offset, |src|)) <= h
                 && |Now().used| + Needs(Now(), i, offset / BLKSIZE, h) <= size
      modifies this
      ensures Valid() && Synced() && inodes.Keys == old(inodes.Keys) && |bitmap| == old(|bitmap|)
      ensures r == -1 <==> offset > old(inodes[i].size) || (offset + |src|) % WORD < offset
      ensures r == -1 ==> Now() == old(Now()) && logged == old(logged)
      ensures r != -1 ==>
                && i in inodes && r == Limit(offset, |src|)
                && Contents(Now(), i) == Spliced(old(Contents(Now(), i)), offset, src[..r])
                && (forall j :: j in inodes && j != i ==> Contents(Now(), j) == old(Contents(Now(), j)))
                && (r > 0 ==> |Now().used| + Needs(Now(), i, Blocks(offset + r), h)
                              == |old(Now()).used| + Needs(old(Now()), i, offset / BLKSIZE, h))
                && (r > 0 ==> Ref(Now(), i, SlotOf(Blocks(offset + r) - 1)) != 0
                              && (Blocks(offset + r) > NDIRECT ==> Ref(Now(), i, NDIRECT) != 0))
                && (r == 0 ==> Now() == old(Now()))
                && old(Now().used) <= Now().used && (r == 0 ==> logged == old(logged)) && Stable(old(Now()), Now())
                && (r > 0 ==> |Now().used|
                              == |old(Now()).used| + Needs(old(Now()), i, offset / BLKSIZE, Blocks(offset + r)))
                && (r > 0 ==> Logs(old(logged), Now().used - old(Now().used),
                                   Touched(Now(), i, offset / BLKSIZE, Blocks(offset + r))
                                   + InodeBlock(i, offset + r > old(inodes[i].size)),
                                   IndexOf(Now(), i, Blocks(offset + r))))
    {
      hide Inv, MarksOf, Missing, Needs, Written, DiskBitmap.Covers, DiskBitmap.Used, Touched, Spliced, ByteAt,
        Contents, Logs, Stable,
        IndexOf, Ref, SlotOf;
      var fileSize := inodes[i].size;
      if offset > fileSize || (offset + |src|) % WORD < offset {
        return -1;
      }
      SizeLimit(Now(), i);
      var n := |src|;
      if offset + n > MAXFILESIZ {
        n := MAXFILESIZ - offset;
      }
      if n > 0 {
        WriteSome(i, src[..n], offset, h);
      } else {
        SplicedNone(Contents(Now(), i), offset);
        StableSelf(Now());
      }
      r := n;
    }

    static lemma SizeLimit(s: Fs, i: nat)
      requires Inv(s) && i in s.inodes
      ensures s.inodes[i].size <= MAXFILESIZ && |Contents(s, i)| == s.inodes[i].size
    {
    }

    static lemma SplicedNone(c: seq<Byte>, off: nat)
      requires off <= |c|
      ensures Spliced(c, off, []) == c
    {
    }

    // ---------------------------------------------------------------- file_write

    /** The blocks that a write of logical blocks lo up to hi takes are at most those that it touches and the
        index block; where it starts inside a block that block is there. */
    static lemma ChunkNeeds(s: Fs, i: nat, offset: nat, n: nat)
      requires Inv(s) && i in s.inodes && offset <= s.inodes[i].size && 0 < n <= MAXBYTES
      ensures var lo, hi := offset / BLKSIZE, Blocks(offset + n);
              (hi - lo) + 2 + Needs(s, i, lo, hi) <= MAXOPBLOCKS
    {
      var lo, hi := offset / BLKSIZE, Blocks(offset + n);
      ChunkSpan(offset, n);
      MissingBound(s, i, lo, hi);
      if offset % BLKSIZE != 0 {
        SameBlock(offset);
        BlockMapped(s, i, offset - 1);
        MissingBound(s, i, lo + 1, hi);
      }
      hide Inv, Ref, SlotOf, Blocks;
    }

    static lemma ChunkSpan(offset: nat, n: nat)
      requires 0 < n <= MAXBYTES
      ensures offset / BLKSIZE < Blocks(offset + n) <= offset / BLKSIZE + if offset % BLKSIZE == 0 then 18 else 19
    {
    }

    static lemma SameBlock(offset: nat)
      requires offset % BLKSIZE != 0
      ensures (offset - 1) / BLKSIZE == offset / BLKSIZE
    {
    }

    static lemma {:induction false} MissingBound(s: Fs, i: nat, lo: nat, hi: nat)
      requires lo <= hi
      ensures Missing(s, i, lo, hi) <= hi - lo
      decreases hi - lo
    {
      if lo < hi {
        MissingBound(s, i, lo + 1, hi);
      }
    }

    /** A chunk of file_write logs at most MAXOPBLOCKS blocks: those it touches, the index block, the inode's
        block, and a bitmap block for each block it takes. */
    lemma ChunkFits(s: Fs, i: nat, offset: nat, n: nat, took: set<nat>, touched: set<nat>, inode: set<nat>,
                    index: set<nat>)
      requires Inv(s) && i in s.inodes && offset <= s.inodes[i].size && 0 < n <= MAXBYTES
      requires |touched| <= Blocks(offset + n) - offset / BLKSIZE && |inode| <= 1 && |index| <= 1
      requires |took| <= Needs(s, i, offset / BLKSIZE, Blocks(offset + n)) && Logs({}, took, touched + inode, index)
      ensures |logged| <= MAXOPBLOCKS
    {
      ChunkNeeds(s, i, offset, n);
      MarksSize(took);
      hide Needs, MarksOf, Blocks;
      var all := MarksOf(took) + (touched + inode) + index;
      assert logged <= all;
      Subset(logged, all);
      assert |touched + inode| <= |touched| + |inode|;
      assert |MarksOf(took) + (touched + inode)| <= |MarksOf(took)| + |touched + inode|;
      assert |all| <= |MarksOf(took) + (touched + inode)| + |index|;
    }

    static lemma Larger(a: set<nat>, b: set<nat>)
      requires a <= b
      ensures |b - a| == |b| - |a|
    {
      assert b == a + (b - a);
    }

    static lemma Subset(a: set<nat>, b: set<nat>)
      requires a <= b
      ensures |a| <= |b|
    {
      assert b == a + (b - a);
    }

    /** One transaction of file_write. */
    method WriteTransaction(i: nat, chunk: seq<Byte>, offset: nat, ghost h: nat) returns (r: int, ghost count: nat)
      requires Valid() && Synced() && i in inodes && offset < WORD && 0 < |chunk| <= MAXBYTES
      requires offset <= inodes[i].size ==>
                 Blocks(offset + Limit(offset, |chunk|)) <= h
                 && |Now().used| + Needs(Now(), i, offset / BLKSIZE, h) <= size
      modifies this
      ensures Valid() && Synced() && i in inodes && inodes.Keys == old(inodes.Keys)
      ensures |bitmap| == old(|bitmap|) && count <= MAXOPBLOCKS
      ensures r == -1 <==> offset > old(inodes[i].size)
      ensures r == -1 ==> Now() == old(Now())
      ensures r != -1 ==>
                && offset <= MAXFILESIZ && r == Limit(offset, |chunk|) && offset <= old(|Contents(Now(), i)|)
                && offset + r <= inodes[i].size
                && Contents(Now(), i) == Spliced(old(Contents(Now(), i)), offset, chunk[..r])
                && (forall j :: j in inodes && j != i ==> Contents(Now(), j) == old(Contents(Now(), j)))
                && |Now().used| + Needs(Now(), i, (offset + r) / BLKSIZE, h) <= size
      ensures r > 0 ==>
                && count == |logged| && old(Now().used) <= Now().used && Stable(old(Now()), Now())
                && |Now().used| == |old(Now()).used| + Needs(old(Now()), i, offset / BLKSIZE, Blocks(offset + r))
                && Logs({}, Now().used - old(Now().used),
                        Touched(Now(), i, offset / BLKSIZE, Blocks(offset + r))
                        + InodeBlock(i, offset + r > old(inodes[i].size)),
                        IndexOf(Now(), i, Blocks(offset + r)))
    {
      hide Inv, MarksOf, Missing, Needs, DiskBitmap.Covers, DiskBitmap.Used, Touched, Spliced, ByteAt, Contents,
        IndexOf, Ref, SlotOf, Logs, Stable;
      logged := {};
      SizeLimit(Now(), i);
      if offset <= MAXFILESIZ {
        NoWrap(offset, |chunk|);
      }
      r := Writei(i, chunk, offset, h);
      count := |logged|;
      if r != -1 {
        SizeLimit(Now(), i);
        SpliceLength(old(Contents(Now(), i)), offset, chunk[..r]);
        TouchedBound(Now(), i, offset, r);
        IndexBound(Now(), i, Blocks(offset + r));
        if r > 0 {
          Larger(old(Now()).used, Now().used);
          ChunkFits(old(Now()), i, offset, r, Now().used - old(Now()).used,
                    Touched(Now(), i, offset / BLKSIZE, Blocks(offset + r)),
                    InodeBlock(i, offset + r > old(inodes[i].size)), IndexOf(Now(), i, Blocks(offset + r)));
          RestFits(Now(), i, offset, r, h);
        }
      }
    }

    static lemma NoWrap(offset: nat, n: nat)
      requires offset <= MAXFILESIZ && n <= MAXBYTES
      ensures (offset + n) % WORD >= offset
    {
      DoubleIndirectUnreachable(0);
      assert offset + n < WORD;
    }

    static lemma SpliceLength(c: seq<Byte>, off: nat, x: seq<Byte>)
      requires off <= |c|
      ensures off + |x| <= |Spliced(c, off, x)|
    {
    }

    static lemma TouchedBound(s: Fs, i: nat, offset: nat, n: nat)
      ensures |Touched(s, i, offset / BLKSIZE, Blocks(offset + n))| <= Blocks(offset + n) - offset / BLKSIZE
    {
      assert offset / BLKSIZE <= Blocks(offset + n);
      TouchedSize(s, i, offset / BLKSIZE, Blocks(offset + n));
    }

    static lemma IndexBound(s: Fs, i: nat, hi: nat)
      ensures |IndexOf(s, i, hi)| <= 1
    {
    }

    /** What comes after a chunk starts in its last block or in the next one. */
    static lemma RestFits(s: Fs, i: nat, offset: nat, r: nat, h: nat)
      requires r > 0 && Blocks(offset + r) <= h
      requires Ref(s, i, SlotOf(Blocks(offset + r) - 1)) != 0
      requires Blocks(offset + r) > NDIRECT ==> Ref(s, i, NDIRECT) != 0
      ensures Needs(s, i, (offset + r) / BLKSIZE, h) == Needs(s, i, Blocks(offset + r), h)
    {
      hide Ref, Missing, Needs, SlotOf;
      var l := Blocks(offset + r);
      if (offset + r) / BLKSIZE != l {
        assert (offset + r) / BLKSIZE == l - 1;
        NeedsHeld(s, i, l - 1, h);
      }
    }

    /** file_write has written the first `total` bytes of src to what s0 was; room for the blocks up to h is left. */
    ghost predicate Advanced(s0: Fs, i: nat, src: seq<Byte>, offset0: nat, total: nat, h: nat)
      reads this
    {
      && Valid() && Synced() && Inv(s0) && i in s0.inodes && inodes.Keys == s0.inodes.Keys && total <= |src|
      && (forall j :: j in inodes && j != i ==> Contents(Now(), j) == Contents(s0, j))
      && if offset0 > s0.inodes[i].size then total == 0 && Now() == s0
         else
           && offset0 + total <= |Contents(Now(), i)| && offset0 + total <= MAXFILESIZ && offset0 <= |Contents(s0, i)|
           && Contents(Now(), i) == Spliced(Contents(s0, i), offset0, src[..total])
           && Blocks(offset0 + Limit(offset0, |src|)) <= h
           && |Now().used| + Needs(Now(), i, (offset0 + total) / BLKSIZE, h) <= size
    }

    lemma AdvancedStart(i: nat, src: seq<Byte>, offset0: nat, h: nat)
      requires Valid() && Synced() && i in inodes
      requires offset0 <= inodes[i].size ==>
                 && offset0 <= MAXFILESIZ && Blocks(offset0 + Limit(offset0, |src|)) <= h
                 && |Now().used| + Needs(Now(), i, offset0 / BLKSIZE, h) <= size
      ensures Advanced(Now(), i, src, offset0, 0, h)
    {
      hide Inv, Missing, Needs, DiskBitmap.Covers, DiskBitmap.Used, Spliced, Contents, Blocks;
      SizeLimit(Now(), i);
      assert src[..0] == [];
      if offset0 <= inodes[i].size {
        SplicedNone(Contents(Now(), i), offset0);
      }
    }

    /** One turn of the loop of file_write: a transaction for the next `perop` bytes. */
    method FileTurn(i: nat, src: seq<Byte>, offset0: nat, total: nat, perop: nat, ghost s0: Fs, ghost h: nat)
        returns (wrbytes: int, ghost count: nat)
      requires Advanced(s0, i, src, offset0, total, h) && offset0 < WORD
      requires 0 < perop <= MAXBYTES && total + perop <= |src|
      modifies this
      ensures count <= MAXOPBLOCKS && -1 <= wrbytes <= perop && (wrbytes == -1 <==> offset0 > s0.inodes[i].size)
      ensures wrbytes != -1 ==> offset0 + total <= MAXFILESIZ && wrbytes == Limit(offset0 + total, perop)
      ensures Advanced(s0, i, src, offset0, if wrbytes == -1 then total else total + wrbytes, h)
    {
      hide Inv, MarksOf, Missing, Needs, DiskBitmap.Covers, DiskBitmap.Used, Spliced, ByteAt, Contents, Blocks, Logs,
        Stable, Touched, IndexOf, Ref, SlotOf;
      SizeLimit(Now(), i);
      SizeLimit(s0, i);
      if offset0 <= s0.inodes[i].size {
        BlocksMonotone(offset0 + total + Limit(offset0 + total, perop), offset0 + Limit(offset0, |src|));
      }
      wrbytes, count := WriteTransaction(i, src[total..total + perop], offset0 + total, h);
      if wrbytes >= 0 {
        SplicedMore(Contents(s0, i), offset0, src, total, perop, wrbytes);
        SizeLimit(Now(), i);
      }
    }

    /** file_write for a file that is no pipe: the offset in the file moves with what was written. */
    method FileWrite(i: nat, src: seq<Byte>, offset0: nat) returns (r: int, offset: nat, ghost most: nat)
      requires Valid() && Synced() && i in inodes && offset0 < WORD
      requires offset0 <= inodes[i].size ==>
                 offset0 <= MAXFILESIZ
                 && |Now().used| + Needs(Now(), i, offset0 / BLKSIZE, Blocks(offset0 + Limit(offset0, |src|))) <= size
      modifies this
      ensures Valid() && Synced() && i in inodes && inodes.Keys == old(inodes.Keys) && most <= MAXOPBLOCKS
      ensures r == if |src| == 0 || (offset0 <= old(inodes[i].size) && offset0 + |src| <= MAXFILESIZ) then |src| else -1
      ensures offset0 > old(inodes[i].size) ==> offset == offset0 && Now() == old(Now())
      ensures offset0 <= old(inodes[i].size) ==>
                && offset0 <= old(|Contents(Now(), i)|) && offset0 <= MAXFILESIZ
                && offset == offset0 + Limit(offset0, |src|)
                && Contents(Now(), i) == Spliced(old(Contents(Now(), i)), offset0, src[..offset - offset0])
      ensures forall j :: j in inodes && j != i ==> Contents(Now(), j) == old(Contents(Now(), j))
    {
      hide Inv, Missing, Needs, DiskBitmap.Covers, DiskBitmap.Used, Spliced, Contents, Blocks;
      offset, most := offset0, 0;
      ghost var s0, h := Now(), if offset0 <= inodes[i].size then Blocks(offset0 + Limit(offset0, |src|)) else 0;
      AdvancedStart(i, src, offset0, h);
      var total := 0;
      while total < |src|
        invariant 0 <= total <= |src| && most <= MAXOPBLOCKS && offset == offset0 + total
        invariant Advanced(s0, i, src, offset0, total, h)
        decreases |src| - total
      {
        var perop := if |src| - total > MAXBYTES then MAXBYTES else |src| - total;
        var wrbytes; ghost var count;
        wrbytes, count := FileTurn(i, src, offset0, total, perop, s0, h);
        most := if count > most then count else most;
        if wrbytes > 0 {
          offset := offset + wrbytes;
        }
        if wrbytes < 0 || wrbytes != perop {
          return -1, offset, most;
        }
        total := total + wrbytes;
      }
      r := total;
    }

    static lemma BlocksMonotone(a: nat, b: nat)
      requires a <= b
      ensures Blocks(a) <= Blocks(b)
    {
    }

    // ---------------------------------------------------------------- ifree

    /** The address at slot t is freed and cleared. */
    method FreeAddr(i: nat, t: nat, ghost s0: Fs, ghost gone: set<nat>)
      requires Layout() && i in inodes && t < |inodes[i].addrs| && Now().used == s0.used - gone
      requires var b := inodes[i].addrs[t]; 0 < b < size && b in s0.used && b !in gone
      modifies `bitmap, `logged, `inodes
      ensures Layout() && i in inodes
      ensures inodes == old(inodes)[i := old(inodes[i]).(addrs := old(inodes[i]).addrs[t := 0])]
      ensures Now().used == s0.used - (gone + {old(inodes[i].addrs[t])})
    {
      hide DiskBitmap.Covers, DiskBitmap.Used;
      var r := Bfree(inodes[i].addrs[t]);
      assert r == 0;
      inodes := inodes[i := inodes[i].(addrs := inodes[i].addrs[t := 0])];
    }

    /** The first loop of ifree. */
    method FreeDirect(i: nat)
      requires Valid() && i in inodes
      modifies `bitmap, `logged, `inodes
      ensures Layout() && i in inodes && Now().used == old(Now()).used - HeldIn(old(Now()), i, 0, NDIRECT)
      ensures inodes == old(inodes)[i := inodes[i]] && |inodes[i].addrs| == NDIRECT + 2
      ensures inodes[i].size == old(inodes[i].size)
      ensures forall t :: 0 <= t < NDIRECT ==> inodes[i].addrs[t] == 0
      ensures inodes[i].addrs[NDIRECT..] == old(inodes[i].addrs)[NDIRECT..]
    {
      hide Inv, DiskBitmap.Covers, DiskBitmap.Used, HeldIn;
      ghost var s0 := Now();
      InodeFields(s0, i);
      HeldStart(s0, i, 0);
      var j := 0;
      while j < NDIRECT
        invariant 0 <= j <= NDIRECT && Layout() && i in inodes && Now().used == s0.used - HeldIn(s0, i, 0, j)
        invariant inodes == s0.inodes[i := inodes[i]] && |inodes[i].addrs| == NDIRECT + 2
        invariant inodes[i].size == s0.inodes[i].size
        invariant forall t :: 0 <= t < j ==> inodes[i].addrs[t] == 0
        invariant inodes[i].addrs[j..] == s0.inodes[i].addrs[j..]
      {
        assert inodes[i].addrs[j] == inodes[i].addrs[j..][0] == s0.inodes[i].addrs[j..][0] == Ref(s0, i, j);
        HeldNext(s0, i, 0, j);
        if inodes[i].addrs[j] != 0 {
          StillMarked(s0, i, j, 0, j);
          FreeAddr(i, j, s0, HeldIn(s0, i, 0, j));
        }
        assert inodes[i].addrs[j + 1..] == s0.inodes[i].addrs[j + 1..];
        j := j + 1;
      }
    }

    /** The second loop of ifree: the blocks that the index block names. */
    method FreeEntries(i: nat, b: nat, ghost s0: Fs)
      requires Inv(s0) && i in s0.inodes && Layout() && size == s0.size
      requires index == s0.index && b == Ref(s0, i, NDIRECT) && b != 0
      requires Now().used == s0.used - HeldIn(s0, i, 0, NDIRECT)
      modifies `bitmap, `logged
      ensures Layout() && Now().used == s0.used - (HeldIn(s0, i, 0, NDIRECT) + HeldIn(s0, i, NDIRECT + 1, SLOTS))
    {
      hide Inv, DiskBitmap.Covers, DiskBitmap.Used, HeldIn, Ref;
      IndexUsed(s0, i);
      HeldStart(s0, i, NDIRECT + 1);
      var j := 0;
      while j < NINDIRECT
        invariant 0 <= j <= NINDIRECT && Layout()
        invariant Now().used == s0.used - (HeldIn(s0, i, 0, NDIRECT) + HeldIn(s0, i, NDIRECT + 1, NDIRECT + 1 + j))
      {
        var entry := index[b][j];
        EntryIs(s0, i, j);
        HeldNext(s0, i, NDIRECT + 1, NDIRECT + 1 + j);
        if entry != 0 {
          StillMarked(s0, i, NDIRECT + 1 + j, 0, NDIRECT);
          StillMarked(s0, i, NDIRECT + 1 + j, NDIRECT + 1, NDIRECT + 1 + j);
          var r := Bfree(entry);
          assert r == 0;
        }
        j := j + 1;
      }
    }

    static lemma NoIndexNoEntries(s: Fs, i: nat)
      requires Inv(s) && i in s.inodes && Ref(s, i, NDIRECT) == 0
      ensures HeldIn(s, i, NDIRECT + 1, SLOTS) == {} && HeldIn(s, i, NDIRECT, NDIRECT + 1) == {}
    {
      forall t | NDIRECT <= t < SLOTS ensures Ref(s, i, t) == 0 {
        if t > NDIRECT {
          EntryNeedsIndex(s, i, t - NDIRECT - 1);
        }
      }
      HeldNone(s, i, NDIRECT + 1, SLOTS);
      HeldNone(s, i, NDIRECT, NDIRECT + 1);
    }

    static lemma HeldNone(s: Fs, i: nat, lo: nat, hi: nat)
      requires forall t :: lo <= t < hi ==> Ref(s, i, t) == 0
      ensures HeldIn(s, i, lo, hi) == {}
      decreases hi
    {
      if lo < hi {
        HeldNone(s, i, lo, hi - 1);
      }
    }

    /** The index block and the blocks that it names. */
    method FreeIndex(i: nat, ghost s0: Fs)
      requires Inv(s0) && Layout() && i in s0.inodes && size == s0.size && index == s0.index && i in inodes
      requires |inodes[i].addrs| == NDIRECT + 2 && inodes[i].addrs[NDIRECT] == Ref(s0, i, NDIRECT)
      requires Now().used == s0.used - HeldIn(s0, i, 0, NDIRECT)
      modifies `bitmap, `logged, `inodes
      ensures Layout() && i in inodes && Now().used == s0.used - Held(s0, i)
      ensures inodes == old(inodes)[i := old(inodes[i]).(addrs := old(inodes[i]).addrs[NDIRECT := 0])]
    {
      hide Inv, DiskBitmap.Covers, DiskBitmap.Used, HeldIn, Ref, Held;
      HeldIsAll(s0, i);
      if inodes[i].addrs[NDIRECT] != 0 {
        FreeEntries(i, inodes[i].addrs[NDIRECT], s0);
        StillMarked(s0, i, NDIRECT, 0, NDIRECT);
        StillMarked(s0, i, NDIRECT, NDIRECT + 1, SLOTS);
        HeldStart(s0, i, NDIRECT);
        HeldNext(s0, i, NDIRECT, NDIRECT);
        FreeAddr(i, NDIRECT, s0, HeldIn(s0, i, 0, NDIRECT) + HeldIn(s0, i, NDIRECT + 1, SLOTS));
      } else {
        NoIndexNoEntries(s0, i);
        assert inodes[i].addrs[NDIRECT := 0] == inodes[i].addrs;
        assert inodes == inodes[i := inodes[i].(addrs := inodes[i].addrs[NDIRECT := 0])];
      }
    }

    /** ifree: the file is empty, its blocks are free, each of them was marked until then, and nothing else
        changes.  The doubly indirect address is always zero. */
    method Ifree(i: nat)
      requires Valid() && Synced() && i in inodes
      modifies this
      ensures Valid() && Synced() && Now() == Emptied(old(Now()), i)
      ensures i in inodes && Contents(Now(), i) == [] && forall t: nat :: Ref(Now(), i, t) == 0
      ensures Now().used == old(Now().used) - old(Held(Now(), i)) && old(Held(Now(), i)) <= old(Now().used)
      ensures inodes.Keys == old(inodes.Keys) && forall j :: j in inodes && j != i ==> inodes[j] == old(inodes[j])
      ensures forall j :: j in inodes && j != i ==> j in old(inodes) && Contents(Now(), j) == old(Contents(Now(), j))
    {
      hide Inv, DiskBitmap.Covers, DiskBitmap.Used, HeldIn, Ref, Held, Contents;
      ghost var s0 := Now();
      InodeFields(s0, i);
      LastAddress(s0, i);
      FreeDirect(i);
      assert inodes[i].addrs[NDIRECT] == inodes[i].addrs[NDIRECT..][0] == s0.inodes[i].addrs[NDIRECT..][0];
      assert inodes[i].addrs[NDIRECT + 1] == inodes[i].addrs[NDIRECT..][1] == s0.inodes[i].addrs[NDIRECT..][1];
      FreeIndex(i, s0);
      inodes := inodes[i := inodes[i].(size := 0)];
      assert inodes[i].addrs == seq(NDIRECT + 2, _ => 0);
      assert Now() == Emptied(s0, i);
      EmptiedKeeps(s0, i);
      EmptiedMeans(s0, i);
      SameContents(s0, i);
      Iupdate(i);
    }

    static lemma LastAddress(s: Fs, i: nat)
      requires Inv(s) && i in s.inodes
      ensures |s.inodes[i].addrs| == NDIRECT + 2 && s.inodes[i].addrs[NDIRECT + 1] == 0
    {
    }

    static lemma SameContents(s: Fs, i: nat)
      requires Inv(s) && i in s.inodes
      ensures forall j :: j in s.inodes && j != i ==> Contents(Emptied(s, i), j) == Contents(s, j)
    {
      hide ByteAt;
      EmptiedKeeps(s, i);
    }

    static lemma HeldStart(s: Fs, i: nat, lo: nat)
      ensures HeldIn(s, i, lo, lo) == {}
    {
    }

    static lemma HeldNext(s: Fs, i: nat, lo: nat, j: nat)
      requires lo <= j
      ensures HeldIn(s, i, lo, j + 1) == HeldIn(s, i, lo, j) + if Ref(s, i, j) != 0 then {Ref(s, i, j)} else {}
    {
    }
  }
}
