/** The reservation of a chunk of file_write is tight: a disk on which one transaction logs 40 blocks. */
module FullChunk {
  import opened Params
  import opened FileBlocks
  import opened Inodes
  import DiskBitmap
  import Lists

  // Twenty bitmap blocks, of which all but the first have one free bit, their first.  File 0 has one byte; the
  // other files hold everything else, so that a chunk at offset 1 takes every free block.

  const BITMAPS: nat := 20
  const SIZE: nat := BITMAPS * DiskBitmap.BITPB
  const META: nat := 2000
  const INODESTART: nat := 900
  const BITMAPSTART: nat := 1900
  const FILES: nat := 60000

  predicate Free(b: nat) {
    b >= DiskBitmap.BITPB && b % DiskBitmap.BITPB == 0
  }

  /** Block META is that of file 0; the others follow file by file, eleven blocks each. */
  function AddrAt(j: nat, t: nat): nat {
    if j == 0 then if t == 0 then META else 0
    else if t >= NDIRECT then 0
    else
      var b := META + 1 + NDIRECT * (j - 1) + t;
      if b < SIZE && !Free(b) then b else 0
  }

  function InodeAt(j: nat): Inode {
    Inode(if j == 0 then 1 else 0, seq(NDIRECT + 2, t requires t >= 0 => AddrAt(j, t)))
  }

  /** All blocks are cleared. */
  function BytesAt(b: nat): seq<Byte> {
    Zeros()
  }

  function EntriesAt(b: nat): seq<nat> {
    NoEntries()
  }

  function Disk(): Fs {
    Fs(SIZE, META, map j: nat | j < FILES :: InodeAt(j), set b: nat | b < SIZE && !Free(b),
       map b: nat | b < SIZE :: BytesAt(b), map b: nat | b < SIZE :: EntriesAt(b))
  }

  lemma RefIs(j: nat, u: nat)
    ensures Ref(Disk(), j, u) == if j < FILES && u < NDIRECT then AddrAt(j, u) else 0
  {
    if j < FILES {
      assert Disk().inodes[j] == InodeAt(j);
    }
  }

  lemma AddrRange(j: nat, t: nat)
    requires t < NDIRECT && AddrAt(j, t) != 0
    ensures META <= AddrAt(j, t) < SIZE && !Free(AddrAt(j, t))
  {
  }

  lemma AddrOnce(j: nat, t: nat, k: nat, u: nat)
    requires t < NDIRECT && u < NDIRECT && AddrAt(j, t) != 0 && AddrAt(j, t) == AddrAt(k, u)
    ensures j == k && t == u
  {
  }

  lemma Owner(b: nat) returns (j: nat, t: nat)
    requires META <= b < SIZE && !Free(b)
    ensures j < FILES && t < NDIRECT && AddrAt(j, t) == b
  {
    if b == META {
      j, t := 0, 0;
    } else {
      j, t := 1 + (b - META - 1) / NDIRECT, (b - META - 1) % NDIRECT;
    }
  }

  lemma DiskInv()
    ensures Inv(Disk())
  {
    hide AddrAt, Free;
    var s := Disk();
    forall i: nat, t: nat ensures Ref(s, i, t) != 0 ==> s.meta <= Ref(s, i, t) < s.size {
      RefIs(i, t);
      if Ref(s, i, t) != 0 {
        AddrRange(i, t);
      }
    }
    forall i: nat, t: nat, j: nat, u: nat | Ref(s, i, t) != 0 && Ref(s, i, t) == Ref(s, j, u) ensures i == j && t == u {
      RefIs(i, t);
      RefIs(j, u);
      AddrOnce(i, t, j, u);
    }
    DiskMarked();
    DiskShape();
  }

  lemma DiskInodes()
    ensures forall i :: i in Disk().inodes ==> i < FILES && Disk().inodes[i] == InodeAt(i)
    ensures Disk().size == SIZE && Disk().meta == META
  {
    hide InodeAt;
  }

  lemma DiskBlocks()
    ensures forall b :: 0 <= b < SIZE ==> b in Disk().data && |Disk().data[b]| == BLKSIZE
    ensures forall b :: 0 <= b < SIZE ==> b in Disk().index && |Disk().index[b]| == NINDIRECT
  {
    hide InodeAt, Free;
  }

  lemma DiskShape()
    ensures Shape(Disk()) && Sized(Disk())
  {
    DiskInodes();
    DiskBlocks();
    FirstBlock();
    hide Disk, InodeAt, AddrAt, Ref;
    var s := Disk();
    forall i | i in s.inodes ensures |s.inodes[i].addrs| == NDIRECT + 2 && s.inodes[i].addrs[NDIRECT + 1] == 0 {
      LastAddr(i);
    }
    forall i | i in s.inodes ensures s.inodes[i].size == if i == 0 then 1 else 0 {
      SizeAt(i);
    }
    OneByte();
    hide SlotOf;
    forall i, l: nat {:trigger Ref(s, i, SlotOf(l))} | i in s.inodes && l * BLKSIZE < s.inodes[i].size
      ensures Ref(s, i, SlotOf(l)) != 0
    {
      assert i == 0 && l == 0;
    }
  }

  lemma OneByte()
    ensures MAXFILESIZ >= 1
  {
    DoubleIndirectUnreachable(0);
  }

  lemma SizeAt(i: nat)
    ensures InodeAt(i).size == if i == 0 then 1 else 0
  {
  }

  lemma LastAddr(i: nat)
    ensures |InodeAt(i).addrs| == NDIRECT + 2 && InodeAt(i).addrs[NDIRECT + 1] == 0
  {
  }

  lemma FirstBlock()
    ensures SlotOf(0) == 0 && Ref(Disk(), 0, 0) == META
  {
    RefIs(0, 0);
  }

  lemma DiskMarked()
    ensures Marked(Disk())
  {
    forall b: nat
      ensures b in Disk().used <==> b < Disk().meta || exists i: nat, t: nat :: Ref(Disk(), i, t) == b && b != 0
    {
      MarkedAt(b);
    }
    hide Disk, Ref;
  }

  lemma UsedIs(b: nat)
    ensures b in Disk().used <==> b < SIZE && !Free(b)
    ensures Disk().meta == META && Disk().size == SIZE
  {
  }

  lemma MarkedAt(b: nat)
    ensures b in Disk().used <==> b < Disk().meta || exists i: nat, t: nat :: Ref(Disk(), i, t) == b && b != 0
  {
    UsedIs(b);
    hide Disk, Ref, AddrAt;
    if b < SIZE && !Free(b) && b >= META {
      var j, t := Owner(b);
      RefIs(j, t);
      assert Ref(Disk(), j, t) == b;
    }
    if i: nat, t: nat :| Ref(Disk(), i, t) == b && b != 0 {
      RefIs(i, t);
      AddrRange(i, t);
    }
  }

  /** The first bit of every bitmap block but the first is clear. */
  function Bitmap(): DiskBitmap.Bitmap {
    seq(BITMAPS, k requires k >= 0 => seq(BLKSIZE, j requires j >= 0 => if k > 0 && j == 0 then 254 as bv8 else 255))
  }

  lemma BitmapIs()
    ensures DiskBitmap.Covers(Bitmap(), SIZE) && DiskBitmap.Used(Bitmap(), SIZE) == Disk().used
  {
    forall b: nat | b < SIZE ensures DiskBitmap.Bit(Bitmap(), SIZE, b) <==> !Free(b) {
      MaskIs(b % DiskBitmap.BITPB % 8);
    }
  }

  lemma MaskIs(k: nat)
    requires k < 8
    ensures 255 & DiskBitmap.Mask(k) != 0
    ensures 254 & DiskBitmap.Mask(k) != 0 <==> k != 0
  {
  }

  // ---------------------------------------------------------------- the free blocks

  /** The first block whose bit is in bitmap block k. */
  function FirstOf(k: nat): nat {
    k * DiskBitmap.BITPB
  }

  /** The bitmap block that has the bit of block b. */
  function Pos(b: nat): nat {
    b / DiskBitmap.BITPB
  }

  lemma FirstIs(k: nat)
    ensures Pos(FirstOf(k)) == k
    ensures k >= 1 ==> FirstOf(k) >= DiskBitmap.BITPB
    ensures FirstOf(k) < SIZE <==> k < BITMAPS
  {
  }

  lemma FreeIs(b: nat)
    ensures Free(b) <==> Pos(b) >= 1 && b == FirstOf(Pos(b))
    ensures b < SIZE <==> Pos(b) <= 19
  {
  }

  ghost function FreeUpTo(k: nat): set<nat> {
    if k == 0 then {} else FreeUpTo(k - 1) + {FirstOf(k)}
  }

  lemma {:induction false} FreeUpToIs(k: nat)
    ensures |FreeUpTo(k)| == k
    ensures forall b :: b in FreeUpTo(k) ==> 1 <= Pos(b) <= k && b == FirstOf(Pos(b))
  {
    hide FirstOf, Pos;
    if k > 0 {
      FreeUpToIs(k - 1);
      FirstIs(k);
      assert FirstOf(k) !in FreeUpTo(k - 1);
    }
  }

  lemma {:induction false} FreeUpToHas(k: nat, m: nat)
    requires 1 <= m <= k
    ensures FirstOf(m) in FreeUpTo(k)
  {
    hide FirstOf, Pos;
    if m < k {
      FreeUpToHas(k - 1, m);
    }
  }

  lemma FreeBlocks(b: nat, k: nat)
    requires k == BITMAPS - 1
    ensures b in FreeUpTo(k) <==> b < SIZE && Free(b)
    ensures b in FreeUpTo(k) ==> b >= DiskBitmap.BITPB
  {
    FreeIs(b);
    FirstIs(Pos(b));
    hide FirstOf, Free, Pos;
    FreeUpToIs(k);
    if b < SIZE && Free(b) {
      FreeUpToHas(k, Pos(b));
    }
  }

  /** The free blocks of the disk. */
  ghost function FreeBlocksOf(): set<nat> {
    FreeUpTo(BITMAPS - 1)
  }

  lemma FreeBlocksAre()
    ensures |FreeBlocksOf()| == 19
    ensures forall b: nat :: b in FreeBlocksOf() <==> b < SIZE && Free(b)
    ensures forall b :: b in FreeBlocksOf() ==> b >= DiskBitmap.BITPB
  {
    FreeUpToIs(BITMAPS - 1);
    hide FreeUpTo, Free, Pos, FirstOf;
    forall b: nat ensures b in FreeBlocksOf() <==> b < SIZE && Free(b) {
      FreeBlocks(b, BITMAPS - 1);
    }
    forall b | b in FreeBlocksOf() ensures b >= DiskBitmap.BITPB {
      FreeBlocks(b, BITMAPS - 1);
    }
  }

  lemma UsedCount()
    ensures |Disk().used| == SIZE - 19
    ensures forall b: nat :: b in Disk().used <==> b < SIZE && b !in FreeBlocksOf()
  {
    FreeBlocksAre();
    forall b: nat ensures b in Disk().used <==> b < SIZE && b !in FreeBlocksOf() {
      UsedIs(b);
    }
    hide Disk, FreeBlocksOf, Free;
    Counted(Disk().used, FreeBlocksOf());
  }

  lemma Counted(u: set<nat>, f: set<nat>)
    requires |f| == 19 && (forall b :: b in f ==> b < SIZE) && forall b: nat :: b in u <==> b < SIZE && b !in f
    ensures |u| == SIZE - 19
  {
    assert u !! f;
    assert |u + f| == |u| + |f|;
    AllTaken(u + f, SIZE);
  }

  // ---------------------------------------------------------------- the chunk

  const CHUNK: seq<Byte> := seq(MAXBYTES, _ => 0)

  /** The chunk touches 19 logical blocks; 18 of them and the index block are missing. */
  lemma ChunkShape()
    ensures Blocks(1 + MAXBYTES) == 19 && Needs(Disk(), 0, 0, 19) == 19
  {
    assert AddrAt(0, 0) == META;
    hide Disk, AddrAt, Ref;
    RefIs(0, 0);
    RefIs(0, NDIRECT);
    forall l: nat | 0 < l < 19 ensures Ref(Disk(), 0, SlotOf(l)) == 0 {
      NoBlock(l);
    }
    AllMissing(Disk(), 0, 1, 19);
  }

  lemma NoBlock(l: nat)
    requires 0 < l < 19
    ensures Ref(Disk(), 0, SlotOf(l)) == 0
  {
    RefIs(0, SlotOf(l));
  }

  lemma {:induction false} AllMissing(s: Fs, i: nat, lo: nat, hi: nat)
    requires lo <= hi && forall l: nat {:trigger SlotOf(l)} :: lo <= l < hi ==> Ref(s, i, SlotOf(l)) == 0
    ensures Missing(s, i, lo, hi) == hi - lo
    decreases hi - lo
  {
    if lo < hi {
      AllMissing(s, i, lo + 1, hi);
    }
  }

  lemma {:induction false} MarksFree(fs: FileSystem, k: nat)
    requires fs.bitmapStart == BITMAPSTART
    ensures |fs.MarksOf(FreeUpTo(k))| == k
    ensures forall x :: x in fs.MarksOf(FreeUpTo(k)) ==> BITMAPSTART < x <= BITMAPSTART + k
  {
    if k > 0 {
      fs.MarksOne(FirstOf(k));
      FirstIs(k);
      hide FirstOf, Pos, FileSystem.MarksOf;
      MarksFree(fs, k - 1);
      fs.MarksSum(FreeUpTo(k - 1), {FirstOf(k)});
      var m := fs.MarksOf(FreeUpTo(k - 1));
      assert fs.MarksOf(FreeUpTo(k)) == m + {BITMAPSTART + k};
      hide FreeUpTo;
      OneMoreMember(m, BITMAPSTART + k);
    } else {
      fs.MarksOne(0);
    }
  }

  lemma OneMoreMember(s: set<nat>, x: nat)
    requires x !in s
    ensures |s + {x}| == |s| + 1
  {
  }

  lemma TookAll(used: set<nat>)
    requires Disk().used <= used && |used| == SIZE && forall b :: b in used ==> b < SIZE
    ensures used - Disk().used == FreeBlocksOf()
  {
    UsedCount();
    FreeBlocksAre();
    AllTaken(used, SIZE);
    hide Disk, FreeBlocksOf, Free;
  }

  lemma FirstTouched(s: Fs)
    requires Stable(Disk(), s)
    ensures META in Touched(s, 0, 0, 19)
  {
    FirstBlock();
    hide Disk;
    assert Ref(s, 0, 0) == META;
    TouchedHas(s, 0, 0, 19, 0);
  }

  lemma {:induction false} TouchedHas(s: Fs, i: nat, lo: nat, hi: nat, l: nat)
    requires lo <= l < hi
    ensures Ref(s, i, SlotOf(l)) in Touched(s, i, lo, hi)
    decreases hi
  {
    if l < hi - 1 {
      TouchedHas(s, i, lo, hi - 1, l);
    }
  }

  lemma Count(marks: set<nat>, took: set<nat>, logged: set<nat>)
    requires |marks| == 19 && |took| == 19 && marks + took + {META, INODESTART} <= logged
    requires forall x :: x in marks ==> BITMAPSTART < x <= BITMAPSTART + 19
    requires forall b :: b in took ==> b >= DiskBitmap.BITPB
    ensures |logged| >= 40
  {
    assert |marks + took| == 38;
    assert |marks + took + {META, INODESTART}| == 40;
    assert logged == (marks + took + {META, INODESTART}) + (logged - (marks + took + {META, INODESTART}));
  }

  /** A transaction of file_write that logs exactly as many blocks as it has reserved. */
  method FillReservation() returns (fs: FileSystem, r: int, ghost count: nat)
    ensures fresh(fs) && r == MAXBYTES && count == MAXOPBLOCKS
  {
    DiskInv();
    BitmapIs();
    UsedCount();
    ChunkShape();
    FirstInode();
    hide Inv, Disk, Bitmap, DiskBitmap.Covers, DiskBitmap.Used, Contents, Needs, Stable, Touched, IndexOf, Blocks,
      FreeBlocksOf, CHUNK, Spliced;
    fs := new FileSystem(Disk(), Bitmap(), INODESTART, BITMAPSTART);
    hide FileSystem.Logs, FileSystem.InodeBlock;
    ChunkLength();
    r, count := fs.WriteTransaction(0, CHUNK, 1, 19);
    UsedInside(fs);
    TookAll(fs.Now().used);
    FirstTouched(fs.Now());
    Tally(fs, Touched(fs.Now(), 0, 0, 19), IndexOf(fs.Now(), 0, 19));
  }

  lemma ChunkLength()
    ensures |CHUNK| == MAXBYTES && 1 / BLKSIZE == 0
  {
  }

  lemma UsedInside(fs: FileSystem)
    requires fs.Layout()
    ensures forall b :: b in fs.Now().used ==> b < fs.size
  {
    DiskBitmap.UsedBelow(fs.bitmap, fs.size);
  }

  lemma Tally(fs: FileSystem, touched: set<nat>, index: set<nat>)
    requires fs.bitmapStart == BITMAPSTART && fs.inodeStart == INODESTART && META in touched
    requires fs.Logs({}, FreeBlocksOf(), touched + fs.InodeBlock(0, true), index)
    ensures |fs.logged| >= 40
  {
    hide FreeUpTo, Free, FileSystem.MarksOf;
    var took := FreeBlocksOf();
    FreeBlocksAre();
    MarksFree(fs, BITMAPS - 1);
    assert fs.InodeBlock(0, true) == {INODESTART};
    fs.LogsOut({}, took, touched + {INODESTART}, index);
    hide *;
    Within(fs.MarksOf(took), took, touched, fs.logged);
    Count(fs.MarksOf(took), took, fs.logged);
  }

  lemma Within(marks: set<nat>, took: set<nat>, touched: set<nat>, logged: set<nat>)
    requires {} + marks + took + (touched + {INODESTART}) <= logged && META in touched
    ensures marks + took + {META, INODESTART} <= logged
  {
  }

  lemma FirstInode()
    ensures 0 in Disk().inodes && Disk().inodes[0].size == 1 && Disk().size == SIZE
    ensures MAXFILESIZ > 1 + MAXBYTES
  {
    DoubleIndirectUnreachable(0);
  }
}
