/** The blocks of files as kern/inode.c lays them out, and the files as byte sequences. */
module FileBlocks {
  // Eleven direct addresses, one index block, and the bitmap that says which blocks are taken.  A block that
  // balloc cleared is both zero bytes and an empty index.

  import opened Params

  const NDIRECT: nat := 11
  const NINDIRECT: nat := BLKSIZE / 4

  /** The places where an inode can hold a block: the direct addresses, the address of the index block
      (slot NDIRECT), and the entries of the index block. */
  const SLOTS: nat := NDIRECT + 1 + NINDIRECT

  /** MAXFILESIZ is (NDIRECT + NINDIRECT + NINDIRECT * NINDIRECT) * BLKSIZE in 32-bit arithmetic. */
  const MAXFILESIZ: nat := (NDIRECT + NINDIRECT + NINDIRECT * NINDIRECT) * BLKSIZE % WORD

  type Byte = bv8

  datatype Inode = Inode(size: nat, addrs: seq<nat>)

  datatype Fs = Fs(size: nat, meta: nat, inodes: map<nat, Inode>, used: set<nat>,
                   data: map<nat, seq<Byte>>, index: map<nat, seq<nat>>)

  /** The product wraps, so that no byte of a file needs the doubly indirect block. */
  lemma DoubleIndirectUnreachable(offset: nat)
    ensures MAXFILESIZ == (NDIRECT + NINDIRECT) * BLKSIZE
    ensures offset < MAXFILESIZ ==> offset / BLKSIZE < NDIRECT + NINDIRECT
  {
    assert NINDIRECT * NINDIRECT * BLKSIZE == WORD;
  }

  function SlotOf(lblkno: nat): nat {
    if lblkno < NDIRECT then lblkno else lblkno + 1
  }

  ghost predicate Shape(s: Fs) {
    && 0 < s.meta <= s.size
    && (forall i :: i in s.inodes ==> |s.inodes[i].addrs| == NDIRECT + 2 && s.inodes[i].addrs[NDIRECT + 1] == 0)
    && (forall b :: 0 <= b < s.size ==> b in s.data && |s.data[b]| == BLKSIZE)
    && (forall b :: 0 <= b < s.size ==> b in s.index && |s.index[b]| == NINDIRECT)
  }

  /** The block that inode i holds at slot t; 0 for none. */
  ghost function Ref(s: Fs, i: nat, t: nat): nat {
    if i !in s.inodes || |s.inodes[i].addrs| != NDIRECT + 2 then 0
    else if t <= NDIRECT then s.inodes[i].addrs[t]
    else
      var x := s.inodes[i].addrs[NDIRECT];
      if x == 0 || x !in s.index || t - NDIRECT - 1 >= |s.index[x]| then 0 else s.index[x][t - NDIRECT - 1]
  }

  /** Held blocks are data blocks of the file system, each in one place only. */
  ghost predicate Placed(s: Fs) {
    && (forall i: nat, t: nat :: Ref(s, i, t) != 0 ==> s.meta <= Ref(s, i, t) < s.size)
    && (forall i: nat, t: nat, j: nat, u: nat :: Ref(s, i, t) != 0 && Ref(s, i, t) == Ref(s, j, u) ==> i == j && t == u)
  }

  /** The bitmap has exactly the metadata and the held blocks. */
  ghost predicate Marked(s: Fs) {
    forall b: nat :: b in s.used <==> b < s.meta || exists i: nat, t: nat :: Ref(s, i, t) == b && b != 0
  }

  ghost predicate Sized(s: Fs) {
    forall i :: i in s.inodes ==>
      && s.inodes[i].size <= MAXFILESIZ
      && forall l: nat {:trigger SlotOf(l)} :: l * BLKSIZE < s.inodes[i].size ==> Ref(s, i, SlotOf(l)) != 0
  }

  ghost predicate Inv(s: Fs) {
    Shape(s) && Placed(s) && Marked(s) && Sized(s)
  }

  // ---------------------------------------------------------------- contents

  ghost function ByteAt(s: Fs, i: nat, k: nat): Byte {
    var b := Ref(s, i, SlotOf(k / BLKSIZE));
    if b in s.data && |s.data[b]| == BLKSIZE then s.data[b][k % BLKSIZE] else 0
  }

  /** A file is a sequence of bytes. */
  ghost function Contents(s: Fs, i: nat): seq<Byte>
    requires i in s.inodes
  {
    seq(s.inodes[i].size, k requires k >= 0 => ByteAt(s, i, k))
  }

  // ---------------------------------------------------------------- allocation

  function Zeros(): seq<Byte> {
    seq(BLKSIZE, _ => 0)
  }

  function NoEntries(): seq<nat> {
    seq(NINDIRECT, _ => 0)
  }

  /** balloc: the block is marked and cleared. */
  function Taken(s: Fs, b: nat): Fs {
    s.(used := s.used + {b}, data := s.data[b := Zeros()], index := s.index[b := NoEntries()])
  }

  function PutAddr(s: Fs, i: nat, t: nat, b: nat): Fs
    requires i in s.inodes && t < |s.inodes[i].addrs|
  {
    s.(inodes := s.inodes[i := s.inodes[i].(addrs := s.inodes[i].addrs[t := b])])
  }

  function PutEntry(s: Fs, x: nat, e: nat, b: nat): Fs
    requires x in s.index && e < |s.index[x]|
  {
    var row: seq<nat> := s.index[x][e := b];
    s.(index := s.index[x := row])
  }

  /** Slot t of inode i was empty and now holds the fresh cleared block b; all else is as it was. */
  ghost predicate OneMore(s: Fs, s': Fs, i: nat, t: nat, b: nat) {
    && s'.size == s.size && s'.meta == s.meta && s'.inodes.Keys == s.inodes.Keys && Shape(s')
    && (forall j :: j in s.inodes ==> s'.inodes[j].size == s.inodes[j].size)
    && s.meta <= b < s.size && b !in s.used && s'.used == s.used + {b} && s'.data == s.data[b := Zeros()]
    && Ref(s, i, t) == 0
    && (forall j: nat, u: nat :: Ref(s', j, u) == if j == i && u == t then b else Ref(s, j, u))
  }

  lemma ShapeOf(s: Fs)
    requires Inv(s)
    ensures Shape(s)
  {
  }

  lemma PutAddrIs(s: Fs, i: nat, t: nat, b: nat)
    requires Inv(s) && i in s.inodes && t <= NDIRECT && Ref(s, i, t) == 0 && s.meta <= b < s.size && b !in s.used
    ensures OneMore(s, PutAddr(Taken(s, b), i, t, b), i, t, b)
  {
    ShapeOf(s);
    IndexUsed(s, i);
    hide Inv;
    var s' := PutAddr(Taken(s, b), i, t, b);
    assert s'.inodes[i].addrs[NDIRECT + 1] == 0;
    forall j: nat, u: nat ensures Ref(s', j, u) == if j == i && u == t then b else Ref(s, j, u) {
      if j in s.inodes && u > NDIRECT {
        IndexUsed(s, j);
      }
    }
  }

  /** The index block of an inode is a taken block of its own. */
  lemma IndexUsed(s: Fs, i: nat)
    requires Inv(s) && i in s.inodes
    ensures var x := s.inodes[i].addrs[NDIRECT];
            && x == Ref(s, i, NDIRECT)
            && (x != 0 ==> x in s.used && s.meta <= x < s.size && x in s.index && |s.index[x]| == NINDIRECT
                           && forall j :: j in s.inodes && j != i ==> s.inodes[j].addrs[NDIRECT] != x)
  {
    var x := s.inodes[i].addrs[NDIRECT];
    assert x == Ref(s, i, NDIRECT);
    forall j | j in s.inodes && j != i && x != 0 ensures s.inodes[j].addrs[NDIRECT] != x {
      assert s.inodes[j].addrs[NDIRECT] == Ref(s, j, NDIRECT);
    }
  }

  lemma PutEntryIs(s: Fs, i: nat, e: nat, b: nat)
    requires Inv(s) && i in s.inodes && e < NINDIRECT && s.meta <= b < s.size && b !in s.used
    requires Ref(s, i, NDIRECT) != 0 && Ref(s, i, NDIRECT + 1 + e) == 0
    ensures var x := s.inodes[i].addrs[NDIRECT];
            x in s.index && e < |s.index[x]| && x != b
            && OneMore(s, PutEntry(Taken(s, b), x, e, b), i, NDIRECT + 1 + e, b)
  {
    ShapeOf(s);
    hide Inv;
    var x := s.inodes[i].addrs[NDIRECT];
    IndexUsed(s, i);
    var s' := PutEntry(Taken(s, b), x, e, b);
    forall j: nat, u: nat ensures Ref(s', j, u) == if j == i && u == NDIRECT + 1 + e then b else Ref(s, j, u) {
      if j in s.inodes && u > NDIRECT {
        IndexUsed(s, j);
      }
    }
  }

  lemma OneMorePlaced(s: Fs, s': Fs, i: nat, t: nat, b: nat)
    requires Placed(s) && Marked(s) && OneMore(s, s', i, t, b)
    ensures Placed(s')
  {
    hide Ref, Shape;
  }

  lemma OneMoreMarked(s: Fs, s': Fs, i: nat, t: nat, b: nat)
    requires Marked(s) && OneMore(s, s', i, t, b) && b != 0
    ensures Marked(s')
  {
    hide Ref, Shape;
    forall c: nat | c in s'.used && c >= s'.meta ensures exists j: nat, u: nat :: Ref(s', j, u) == c && c != 0 {
      if c == b {
        assert Ref(s', i, t) == b;
      } else {
        var j: nat, u: nat :| Ref(s, j, u) == c && c != 0;
        assert Ref(s', j, u) == c;
      }
    }
  }

  lemma OneMoreSized(s: Fs, s': Fs, i: nat, t: nat, b: nat)
    requires Sized(s) && OneMore(s, s', i, t, b) && b != 0
    ensures Sized(s')
  {
    hide Ref, Shape, SlotOf;
  }

  lemma OneMoreByte(s: Fs, s': Fs, i: nat, t: nat, b: nat, j: nat, k: nat)
    requires Marked(s) && OneMore(s, s', i, t, b) && Ref(s, j, SlotOf(k / BLKSIZE)) != 0
    ensures ByteAt(s', j, k) == ByteAt(s, j, k)
  {
    hide Ref, Shape, SlotOf;
    assert Ref(s, j, SlotOf(k / BLKSIZE)) in s.used;
  }

  /** A new block in an empty slot keeps everything: the bitmap exact, the blocks apart, the files as they are. */
  lemma OneMoreKeeps(s: Fs, s': Fs, i: nat, t: nat, b: nat)
    requires Inv(s) && OneMore(s, s', i, t, b)
    ensures Inv(s')
    ensures forall j: nat, k: nat :: Ref(s, j, SlotOf(k / BLKSIZE)) != 0 ==> ByteAt(s', j, k) == ByteAt(s, j, k)
  {
    hide Ref, Placed, Marked, Sized, ByteAt, SlotOf;
    assert 0 < s.meta <= b;
    OneMorePlaced(s, s', i, t, b);
    OneMoreMarked(s, s', i, t, b);
    OneMoreSized(s, s', i, t, b);
    forall j: nat, k: nat | Ref(s, j, SlotOf(k / BLKSIZE)) != 0 ensures ByteAt(s', j, k) == ByteAt(s, j, k) {
      OneMoreByte(s, s', i, t, b, j, k);
    }
  }

  /** Of n blocks, n are taken exactly when all are. */
  lemma {:induction false} AllTaken(used: set<nat>, n: nat)
    requires forall c :: c in used ==> c < n
    ensures |used| <= n && (|used| == n <==> forall c :: 0 <= c < n ==> c in used)
    decreases n
  {
    if n > 0 {
      var rest := used - {n - 1};
      AllTaken(rest, n - 1);
      assert used == rest || used == rest + {n - 1};
      assert forall c :: 0 <= c < n - 1 ==> (c in rest <==> c in used);
      if n - 1 in used {
        assert |rest| == |used| - 1;
        assert (forall c :: 0 <= c < n ==> c in used) <==> (forall c :: 0 <= c < n - 1 ==> c in rest);
      }
    } else {
      assert used == {};
    }
  }

  /** What bmap may do for slot t of inode i: fill empty slots there, and nothing else. */
  ghost predicate Grown(s: Fs, s': Fs, i: nat, t: nat) {
    && s'.size == s.size && s'.meta == s.meta && s'.inodes.Keys == s.inodes.Keys
    && (forall j :: j in s.inodes ==> s'.inodes[j].size == s.inodes[j].size)
    && s.used <= s'.used
    && (forall b :: b in s.used && b in s.data ==> b in s'.data && s'.data[b] == s.data[b])
    && Ref(s', i, t) != 0
    && (forall j: nat, u: nat :: Ref(s, j, u) != 0 ==> Ref(s', j, u) == Ref(s, j, u))
    && (forall j: nat, u: nat :: Ref(s', j, u) != Ref(s, j, u) ==> j == i && (u == t || (u == NDIRECT && t > NDIRECT)))
  }

  /** Every block stays where it is. */
  ghost predicate Stable(s: Fs, s': Fs) {
    forall j: nat, u: nat :: Ref(s, j, u) != 0 ==> Ref(s', j, u) == Ref(s, j, u)
  }

  /** A turn of the loop of writei moves no block. */
  lemma TurnStable(s0: Fs, s: Fs, s1: Fs, s2: Fs, i: nat, t: nat)
    requires Stable(s0, s) && Grown(s, s1, i, t) && forall j: nat, u: nat :: Ref(s2, j, u) == Ref(s1, j, u)
    ensures Stable(s0, s2)
  {
  }

  lemma SizeStable(s0: Fs, s: Fs, i: nat, n: nat)
    requires Stable(s0, s) && i in s.inodes
    ensures Stable(s0, SetSize(s, i, n)) && Stable(s, s)
  {
  }

  lemma OneMoreGrows(s: Fs, s': Fs, i: nat, t: nat, b: nat)
    requires Inv(s) && OneMore(s, s', i, t, b)
    ensures Grown(s, s', i, t)
  {
  }

  lemma GrownTwice(s: Fs, s1: Fs, s': Fs, i: nat, t: nat)
    requires Grown(s, s1, i, NDIRECT) && Grown(s1, s', i, t) && t > NDIRECT
    ensures Grown(s, s', i, t)
  {
  }

  lemma GrownNot(s: Fs, i: nat, t: nat)
    requires Ref(s, i, t) != 0
    ensures Grown(s, s, i, t)
  {
  }

  /** Blocks of bytes that exist keep their bytes when blocks are added. */
  lemma GrownBytes(s: Fs, s': Fs, i: nat, t: nat, j: nat, k: nat)
    requires Inv(s) && Grown(s, s', i, t) && Ref(s, j, SlotOf(k / BLKSIZE)) != 0
    ensures Ref(s', j, SlotOf(k / BLKSIZE)) == Ref(s, j, SlotOf(k / BLKSIZE)) && ByteAt(s', j, k) == ByteAt(s, j, k)
  {
    var b := Ref(s, j, SlotOf(k / BLKSIZE));
    assert b in s.used;
  }

  // ---------------------------------------------------------------- bytes

  /** memmove into the buffer of block b. */
  function Poke(s: Fs, b: nat, o: nat, chunk: seq<Byte>): Fs
    requires b in s.data && o + |chunk| <= |s.data[b]|
  {
    s.(data := s.data[b := s.data[b][..o] + chunk + s.data[b][o + |chunk|..]])
  }

  lemma PokeKeeps(s: Fs, b: nat, o: nat, chunk: seq<Byte>)
    requires Inv(s) && b < s.size && o + |chunk| <= BLKSIZE
    ensures Inv(Poke(s, b, o, chunk))
    ensures forall j: nat, u: nat :: Ref(Poke(s, b, o, chunk), j, u) == Ref(s, j, u)
  {
    var s' := Poke(s, b, o, chunk);
    assert forall j: nat, u: nat :: Ref(s', j, u) == Ref(s, j, u);
    assert Shape(s');
  }

  lemma PokeBytes(s: Fs, i: nat, l: nat, o: nat, chunk: seq<Byte>, j: nat, k: nat)
    requires Inv(s) && Ref(s, i, SlotOf(l)) != 0 && o + |chunk| <= BLKSIZE
    ensures Ref(s, i, SlotOf(l)) in s.data && |s.data[Ref(s, i, SlotOf(l))]| == BLKSIZE
    ensures ByteAt(Poke(s, Ref(s, i, SlotOf(l)), o, chunk), j, k) ==
              if j == i && k / BLKSIZE == l && o <= k % BLKSIZE < o + |chunk| then chunk[k % BLKSIZE - o]
              else ByteAt(s, j, k)
  {
    var b := Ref(s, i, SlotOf(l));
    var c := Ref(s, j, SlotOf(k / BLKSIZE));
    var s' := Poke(s, b, o, chunk);
    assert Ref(s', j, SlotOf(k / BLKSIZE)) == c;
    if c == b {
      assert i == j && SlotOf(l) == SlotOf(k / BLKSIZE);
    }
  }

  function SetSize(s: Fs, i: nat, size: nat): Fs
    requires i in s.inodes
  {
    s.(inodes := s.inodes[i := s.inodes[i].(size := size)])
  }

  lemma SetSizeKeeps(s: Fs, i: nat, size: nat)
    requires Inv(s) && i in s.inodes && size <= MAXFILESIZ
    requires forall l: nat {:trigger SlotOf(l)} :: l * BLKSIZE < size ==> Ref(s, i, SlotOf(l)) != 0
    ensures Inv(SetSize(s, i, size))
    ensures forall j: nat, k: nat :: ByteAt(SetSize(s, i, size), j, k) == ByteAt(s, j, k)
  {
    var s' := SetSize(s, i, size);
    assert forall j: nat, u: nat :: Ref(s', j, u) == Ref(s, j, u);
  }

  // writei takes the answer of bmap unseen, also when it is 0 because the disk is full.

  /** Its bytes then go to block 0, where they change that block and no file. */
  lemma LostChunk(s: Fs, o: nat, chunk: seq<Byte>)
    requires Inv(s) && o + |chunk| <= BLKSIZE
    ensures 0 in s.data && |s.data[0]| == BLKSIZE && 0 in s.used
    ensures var s' := Poke(s, 0, o, chunk);
            && Inv(s') && s'.data[0][o..o + |chunk|] == chunk
            && forall j :: j in s.inodes ==> Contents(s', j) == Contents(s, j)
  {
    ShapeOf(s);
    PokeKeeps(s, 0, o, chunk);
    var s' := Poke(s, 0, o, chunk);
    forall j | j in s.inodes ensures Contents(s', j) == Contents(s, j) {
      forall k | 0 <= k < s.inodes[j].size ensures ByteAt(s', j, k) == ByteAt(s, j, k) {
        LostByte(s, s', o, chunk, j, k);
      }
      hide ByteAt;
    }
  }

  lemma LostByte(s: Fs, s': Fs, o: nat, chunk: seq<Byte>, j: nat, k: nat)
    requires Inv(s) && o + |chunk| <= BLKSIZE && j in s.inodes && k < s.inodes[j].size
    requires 0 in s.data && |s.data[0]| == BLKSIZE && s' == Poke(s, 0, o, chunk)
    ensures ByteAt(s', j, k) == ByteAt(s, j, k)
  {
    BlockMapped(s, j, k);
    PokeKeeps(s, 0, o, chunk);
    hide Inv, Ref;
  }

  /** And the size grows: the file system stays sound exactly when every block below the new size is there. */
  lemma SizeAsWritten(s: Fs, i: nat, size: nat)
    requires Inv(s) && i in s.inodes && size <= MAXFILESIZ
    ensures Inv(SetSize(s, i, size)) <==>
              forall l: nat {:trigger SlotOf(l)} :: l * BLKSIZE < size ==> Ref(s, i, SlotOf(l)) != 0
  {
    var s' := SetSize(s, i, size);
    assert forall j: nat, u: nat :: Ref(s', j, u) == Ref(s, j, u);
    hide Ref, Shape, Placed, Marked;
    if Sized(s') {
      assert s'.inodes[i].size == size;
    } else if forall l: nat {:trigger SlotOf(l)} :: l * BLKSIZE < size ==> Ref(s, i, SlotOf(l)) != 0 {
      SetSizeKeeps(s, i, size);
    }
  }

  /** How many blocks hold the first n bytes of a file. */
  function Blocks(n: nat): nat {
    (n + BLKSIZE - 1) / BLKSIZE
  }

  /** The first `total` bytes of src are in file i from offset off on; all other bytes of files are as in s0. */
  ghost predicate Written(s0: Fs, s: Fs, i: nat, off: nat, src: seq<Byte>, total: nat)
    requires total <= |src|
  {
    && s.size == s0.size && s.meta == s0.meta && s.inodes.Keys == s0.inodes.Keys
    && (forall j :: j in s0.inodes ==> s.inodes[j].size == s0.inodes[j].size)
    && (forall k: nat :: off <= k < off + total ==>
          Ref(s, i, SlotOf(k / BLKSIZE)) != 0 && ByteAt(s, i, k) == src[k - off])
    && (forall j: nat, k: nat :: j in s0.inodes && k < s0.inodes[j].size && !(j == i && off <= k < off + total) ==>
          ByteAt(s, j, k) == ByteAt(s0, j, k))
  }

  lemma WrittenNone(s: Fs, i: nat, off: nat, src: seq<Byte>)
    ensures Written(s, s, i, off, src, 0)
  {
  }

  /** A file that reaches behind its direct blocks has an index block. */
  lemma IndexPresent(s: Fs, i: nat, off: nat)
    requires Inv(s) && i in s.inodes && off <= s.inodes[i].size
    ensures off / BLKSIZE > NDIRECT ==> Ref(s, i, NDIRECT) != 0
  {
    if off / BLKSIZE > NDIRECT {
      assert NDIRECT * BLKSIZE < s.inodes[i].size;
      assert Ref(s, i, SlotOf(NDIRECT)) != 0;
    }
  }

  lemma BlockMapped(s: Fs, j: nat, k: nat)
    requires Inv(s) && j in s.inodes && k < s.inodes[j].size
    ensures Ref(s, j, SlotOf(k / BLKSIZE)) != 0 && k / BLKSIZE < NDIRECT + NINDIRECT
  {
    assert k / BLKSIZE * BLKSIZE <= k;
    DoubleIndirectUnreachable(k);
  }

  /** One turn of the loop of writei: bmap, then memmove. */
  lemma WrittenStep(s0: Fs, s: Fs, s1: Fs, i: nat, off: nat, src: seq<Byte>, total: nat, wr: nat)
    requires Inv(s) && Inv(s1) && total + wr <= |src| && Written(s0, s, i, off, src, total)
    requires Grown(s, s1, i, SlotOf((off + total) / BLKSIZE)) && (off + total) % BLKSIZE + wr <= BLKSIZE
    ensures var b, o := Ref(s1, i, SlotOf((off + total) / BLKSIZE)), (off + total) % BLKSIZE;
            && b in s1.data && |s1.data[b]| == BLKSIZE
            && Written(s0, Poke(s1, b, o, src[total..total + wr]), i, off, src, total + wr)
  {
    hide Inv, Grown, ByteAt;
    var at := off + total;
    var l, o, chunk := at / BLKSIZE, at % BLKSIZE, src[total..total + wr];
    var b := Ref(s1, i, SlotOf(l));
    GrownShape(s, s1, i, SlotOf(l));
    PokeBytes(s1, i, l, o, chunk, i, 0);
    var s2 := Poke(s1, b, o, chunk);
    GrownSlot(s1, i, l, b);
    PokeKeeps(s1, b, o, chunk);
    forall k: nat | off <= k < at + wr
      ensures Ref(s2, i, SlotOf(k / BLKSIZE)) != 0 && ByteAt(s2, i, k) == src[k - off]
    {
      PokeBytes(s1, i, l, o, chunk, i, k);
      if k < at {
        GrownBytes(s, s1, i, SlotOf(l), i, k);
        BeforeChunk(at, k);
      } else {
        InChunk(at, k, wr);
      }
    }
    forall j: nat, k: nat | j in s0.inodes && k < s0.inodes[j].size && !(j == i && off <= k < at + wr)
      ensures ByteAt(s2, j, k) == ByteAt(s0, j, k)
    {
      BlockMapped(s, j, k);
      GrownBytes(s, s1, i, SlotOf(l), j, k);
      PokeBytes(s1, i, l, o, chunk, j, k);
      if j == i && k >= at + wr {
        AfterChunk(at, k, wr);
      } else if j == i {
        BeforeChunk(at, k);
      }
    }
  }

  lemma GrownShape(s: Fs, s1: Fs, i: nat, t: nat)
    requires Grown(s, s1, i, t)
    ensures s1.size == s.size && s1.meta == s.meta && s1.inodes.Keys == s.inodes.Keys && Ref(s1, i, t) != 0
    ensures forall j :: j in s.inodes ==> s1.inodes[j].size == s.inodes[j].size
  {
  }

  lemma GrownSlot(s: Fs, i: nat, l: nat, b: nat)
    requires Inv(s) && b == Ref(s, i, SlotOf(l)) && b != 0
    ensures b < s.size
  {
  }

  /** The end of a chunk is the end of its block or of the write. */
  lemma ChunkEnd(at: nat, wr: nat, end: nat)
    requires at < end && wr == if end - at < BLKSIZE - at % BLKSIZE then end - at else BLKSIZE - at % BLKSIZE
    ensures at % BLKSIZE + wr <= BLKSIZE && 0 < wr
    ensures at + wr < end ==> (at + wr) % BLKSIZE == 0 && (at + wr) / BLKSIZE == at / BLKSIZE + 1
    ensures at + wr == end ==> Blocks(end) == at / BLKSIZE + 1
    ensures at / BLKSIZE + 1 <= Blocks(end)
  {
  }

  lemma BeforeChunk(at: nat, k: nat)
    requires k < at
    ensures !(k / BLKSIZE == at / BLKSIZE && at % BLKSIZE <= k % BLKSIZE)
  {
  }

  lemma InChunk(at: nat, k: nat, wr: nat)
    requires at <= k < at + wr && at % BLKSIZE + wr <= BLKSIZE
    ensures k / BLKSIZE == at / BLKSIZE && k % BLKSIZE == at % BLKSIZE + (k - at)
  {
  }

  lemma AfterChunk(at: nat, k: nat, wr: nat)
    requires k >= at + wr
    ensures !(k / BLKSIZE == at / BLKSIZE && k % BLKSIZE < at % BLKSIZE + wr)
  {
  }

  /** old[..off] + src + old[off + n..] */
  ghost function Spliced(c: seq<Byte>, off: nat, src: seq<Byte>): seq<Byte>
    requires off <= |c|
  {
    c[..off] + src + (if off + |src| < |c| then c[off + |src|..] else [])
  }

  lemma SplicedTwice(c: seq<Byte>, off: nat, a: seq<Byte>, b: seq<Byte>)
    requires off <= |c|
    ensures off + |a| <= |Spliced(c, off, a)| && Spliced(Spliced(c, off, a), off + |a|, b) == Spliced(c, off, a + b)
  {
  }

  lemma SplicedMore(c: seq<Byte>, off: nat, src: seq<Byte>, total: nat, perop: nat, wr: nat)
    requires off <= |c| && total + perop <= |src| && wr <= perop
    ensures off + total <= |Spliced(c, off, src[..total])|
    ensures Spliced(Spliced(c, off, src[..total]), off + total, src[total..total + perop][..wr])
            == Spliced(c, off, src[..total + wr])
  {
    hide Spliced;
    SplicedTwice(c, off, src[..total], src[total..total + wr]);
    assert src[total..total + perop][..wr] == src[total..total + wr];
    assert src[..total] + src[total..total + wr] == src[..total + wr];
  }

  /** A finished write: the file is spliced, the others are what they were. */
  lemma WrittenContents(s0: Fs, s: Fs, i: nat, off: nat, src: seq<Byte>)
    requires Inv(s0) && Inv(s) && i in s0.inodes && Written(s0, s, i, off, src, |src|)
    requires off <= s0.inodes[i].size && off + |src| <= MAXFILESIZ
    ensures var s' := if off + |src| > s0.inodes[i].size then SetSize(s, i, off + |src|) else s;
            && Inv(s') && Contents(s', i) == Spliced(Contents(s0, i), off, src)
            && forall j :: j in s0.inodes && j != i ==> Contents(s', j) == Contents(s0, j)
  {
    hide Inv, ByteAt;
    var n := off + |src|;
    if n > s0.inodes[i].size {
      forall l: nat {:trigger SlotOf(l)} | l * BLKSIZE < n ensures Ref(s, i, SlotOf(l)) != 0 {
        var k := l * BLKSIZE;
        assert k / BLKSIZE == l;
        if k < s0.inodes[i].size {
          BlockMapped(s, i, k);
        } else {
          assert Ref(s, i, SlotOf(k / BLKSIZE)) != 0;
        }
      }
      SetSizeKeeps(s, i, n);
    }
    var s' := if n > s0.inodes[i].size then SetSize(s, i, n) else s;
    assert |Contents(s', i)| == |Spliced(Contents(s0, i), off, src)|;
  }

  /** The blocks at logical blocks lo up to hi. */
  ghost function Touched(s: Fs, i: nat, lo: nat, hi: nat): set<nat> {
    if lo >= hi then {} else Touched(s, i, lo, hi - 1) + {Ref(s, i, SlotOf(hi - 1))}
  }

  lemma {:induction false} TouchedSize(s: Fs, i: nat, lo: nat, hi: nat)
    requires lo <= hi
    ensures |Touched(s, i, lo, hi)| <= hi - lo
    decreases hi
  {
    if lo < hi {
      TouchedSize(s, i, lo, hi - 1);
    }
  }

  /** Blocks that are there stay, and so does what has been touched. */
  lemma {:induction false} TouchedSame(s: Fs, s': Fs, i: nat, lo: nat, hi: nat)
    requires forall l {:trigger SlotOf(l)} :: lo <= l < hi ==> Ref(s, i, SlotOf(l)) != 0
    requires forall j: nat, u: nat :: Ref(s, j, u) != 0 ==> Ref(s', j, u) == Ref(s, j, u)
    ensures Touched(s', i, lo, hi) == Touched(s, i, lo, hi)
    ensures forall l {:trigger SlotOf(l)} :: lo <= l < hi ==> Ref(s', i, SlotOf(l)) != 0
    decreases hi
  {
    if lo < hi {
      TouchedSame(s, s', i, lo, hi - 1);
      var t := SlotOf(hi - 1);
      assert Ref(s', i, t) == Ref(s, i, t);
    }
  }

  // ---------------------------------------------------------------- room

  /** How many logical blocks from lo up to hi the inode does not hold yet. */
  ghost function Missing(s: Fs, i: nat, lo: nat, hi: nat): nat
    decreases hi - lo
  {
    if lo >= hi then 0 else (if Ref(s, i, SlotOf(lo)) == 0 then 1 else 0) + Missing(s, i, lo + 1, hi)
  }

  /** How many blocks a write to them takes: the missing ones and perhaps the index block. */
  ghost function Needs(s: Fs, i: nat, lo: nat, hi: nat): nat {
    Missing(s, i, lo, hi) + if lo < hi && NDIRECT < hi && Ref(s, i, NDIRECT) == 0 then 1 else 0
  }

  lemma {:induction false} MissingSame(s: Fs, s': Fs, i: nat, t: nat, lo: nat, hi: nat)
    requires Grown(s, s', i, t) && t < SlotOf(lo)
    ensures Missing(s', i, lo, hi) == Missing(s, i, lo, hi)
    decreases hi - lo
  {
    if lo < hi {
      MissingSame(s, s', i, t, lo + 1, hi);
      assert SlotOf(lo) != NDIRECT && Ref(s', i, SlotOf(lo)) == Ref(s, i, SlotOf(lo));
    }
  }

  lemma NeedsStep(s: Fs, s': Fs, i: nat, l: nat, hi: nat)
    requires Grown(s, s', i, SlotOf(l)) && l < hi && (l >= NDIRECT ==> Ref(s', i, NDIRECT) != 0)
    ensures Needs(s, i, l, hi) == Needs(s, i, l, l + 1) + Needs(s', i, l + 1, hi)
  {
    MissingSame(s, s', i, SlotOf(l), l + 1, hi);
    assert Missing(s, i, l, l + 1) == (if Ref(s, i, SlotOf(l)) == 0 then 1 else 0) + Missing(s, i, l + 1, l + 1);
    if l < NDIRECT {
      assert Ref(s', i, NDIRECT) == Ref(s, i, NDIRECT);
    }
  }

  lemma {:induction false} MissingRefs(s: Fs, s': Fs, i: nat, lo: nat, hi: nat)
    requires forall u: nat :: Ref(s', i, u) == Ref(s, i, u)
    ensures Missing(s', i, lo, hi) == Missing(s, i, lo, hi) && Needs(s', i, lo, hi) == Needs(s, i, lo, hi)
    decreases hi - lo
  {
    if lo < hi {
      MissingRefs(s, s', i, lo + 1, hi);
    }
  }

  lemma NeedsPart(s: Fs, i: nat, l: nat, hi: nat)
    requires l < hi
    ensures Needs(s, i, l, l + 1) <= Needs(s, i, l, hi)
    ensures Needs(s, i, hi, hi) == 0
  {
    assert Missing(s, i, l, l + 1) == (if Ref(s, i, SlotOf(l)) == 0 then 1 else 0) + Missing(s, i, l + 1, l + 1);
  }

  /** A block that is there needs no room. */
  lemma NeedsHeld(s: Fs, i: nat, l: nat, hi: nat)
    requires Ref(s, i, SlotOf(l)) != 0 && (l >= NDIRECT ==> Ref(s, i, NDIRECT) != 0) && l < hi
    ensures Needs(s, i, l, hi) == Needs(s, i, l + 1, hi)
  {
  }

  /** The index block, once a write has gone behind the direct blocks. */
  ghost function IndexOf(s: Fs, i: nat, hi: nat): set<nat> {
    if hi > NDIRECT then {Ref(s, i, NDIRECT)} else {}
  }

  /** A turn of the loop of writei for logical block l, as to room and the blocks it logs. */
  lemma TurnTaken(s: Fs, s1: Fs, s2: Fs, i: nat, lo: nat, l: nat, hi: nat)
    requires Grown(s, s1, i, SlotOf(l)) && (l >= NDIRECT ==> Ref(s1, i, NDIRECT) != 0) && lo <= l < hi
    requires forall j: nat, u: nat :: Ref(s2, j, u) == Ref(s1, j, u)
    requires forall m {:trigger SlotOf(m)} :: lo <= m < l ==> Ref(s, i, SlotOf(m)) != 0
    requires l > NDIRECT ==> Ref(s, i, NDIRECT) != 0
    ensures Needs(s, i, l, hi) == Needs(s, i, l, l + 1) + Needs(s2, i, l + 1, hi)
    ensures Touched(s2, i, lo, l + 1) == Touched(s, i, lo, l) + {Ref(s1, i, SlotOf(l))}
    ensures forall m {:trigger SlotOf(m)} :: lo <= m < l + 1 ==> Ref(s2, i, SlotOf(m)) != 0
    ensures IndexOf(s, i, l) + IndexOf(s1, i, l + 1) <= IndexOf(s2, i, l + 1)
    ensures l >= NDIRECT ==> Ref(s2, i, NDIRECT) != 0
  {
    NeedsStep(s, s1, i, l, hi);
    MissingRefs(s1, s2, i, l + 1, hi);
    TouchedSame(s, s2, i, lo, l);
    GrownShape(s, s1, i, SlotOf(l));
    hide Grown, Needs, Missing;
  }

  // ---------------------------------------------------------------- freeing

  /** The blocks of one inode. */
  ghost function Held(s: Fs, i: nat): set<nat> {
    set t | 0 <= t < SLOTS && Ref(s, i, t) != 0 :: Ref(s, i, t)
  }

  /** ifree as a whole. */
  ghost function Emptied(s: Fs, i: nat): Fs
    requires i in s.inodes
  {
    s.(inodes := s.inodes[i := Inode(0, seq(NDIRECT + 2, _ => 0))], used := s.used - Held(s, i))
  }

  /** The file is empty and holds no block, exactly its blocks are free again, and no other inode changes. */
  lemma EmptiedMeans(s: Fs, i: nat)
    requires Inv(s) && i in s.inodes
    ensures var s' := Emptied(s, i);
            && s'.inodes.Keys == s.inodes.Keys && Contents(s', i) == [] && (forall t: nat :: Ref(s', i, t) == 0)
            && (forall b: nat :: b in s'.used <==> b in s.used && forall t: nat :: Ref(s, i, t) != b || b == 0)
            && |s'.used| == |s.used| - |Held(s, i)|
            && forall j :: j in s.inodes && j != i ==> s'.inodes[j] == s.inodes[j]
  {
    EmptiedKeeps(s, i);
    var s' := Emptied(s, i);
    assert s.used == s'.used + Held(s, i);
    forall b: nat ensures b in Held(s, i) <==> b != 0 && exists t: nat :: Ref(s, i, t) == b {
      if b != 0 && exists t: nat :: Ref(s, i, t) == b {
        var t: nat :| Ref(s, i, t) == b;
        SlotBound(s, i, t);
      }
    }
    hide Inv;
  }

  /** ifree gives back exactly the blocks of that inode, and no other file changes. */
  lemma EmptiedKeeps(s: Fs, i: nat)
    requires Inv(s) && i in s.inodes
    ensures Inv(Emptied(s, i)) && Held(s, i) <= s.used
    ensures forall j: nat, k: nat :: j != i ==> ByteAt(Emptied(s, i), j, k) == ByteAt(s, j, k)
  {
    var s' := Emptied(s, i);
    forall j: nat, u: nat ensures Ref(s', j, u) == if j == i then 0 else Ref(s, j, u) {
    }
    forall b | b in s'.used ensures b < s'.meta || exists j: nat, u: nat :: Ref(s', j, u) == b && b != 0 {
      if b >= s.meta {
        var j: nat, u: nat :| Ref(s, j, u) == b && b != 0;
        assert Ref(s, j, u) == b;
        SlotBound(s, j, u);
        assert j != i;
        assert Ref(s', j, u) == b;
      }
    }
  }

  lemma SlotBound(s: Fs, j: nat, u: nat)
    requires Inv(s) && Ref(s, j, u) != 0
    ensures u < SLOTS
  {
    IndexUsed(s, j);
  }

  /** The blocks at slots lo up to hi. */
  ghost function HeldIn(s: Fs, i: nat, lo: nat, hi: nat): set<nat> {
    if lo >= hi then {}
    else HeldIn(s, i, lo, hi - 1) + if Ref(s, i, hi - 1) != 0 then {Ref(s, i, hi - 1)} else {}
  }

  lemma {:induction false} HeldInIs(s: Fs, i: nat, lo: nat, hi: nat, b: nat)
    ensures b in HeldIn(s, i, lo, hi) <==> b != 0 && exists t :: lo <= t < hi && Ref(s, i, t) == b
    decreases hi
  {
    if lo < hi {
      HeldInIs(s, i, lo, hi - 1, b);
    }
  }

  /** The block at slot t is still marked when other slots have been freed. */
  lemma StillMarked(s: Fs, i: nat, t: nat, lo: nat, hi: nat)
    requires Inv(s) && Ref(s, i, t) != 0 && !(lo <= t < hi)
    ensures Ref(s, i, t) in s.used && Ref(s, i, t) < s.size && Ref(s, i, t) !in HeldIn(s, i, lo, hi)
  {
    HeldInIs(s, i, lo, hi, Ref(s, i, t));
  }

  lemma HeldIsAll(s: Fs, i: nat)
    ensures Held(s, i)
            == HeldIn(s, i, 0, NDIRECT) + HeldIn(s, i, NDIRECT + 1, SLOTS) + HeldIn(s, i, NDIRECT, NDIRECT + 1)
  {
    forall b
      ensures b in Held(s, i) <==>
                b in HeldIn(s, i, 0, NDIRECT) + HeldIn(s, i, NDIRECT + 1, SLOTS) + HeldIn(s, i, NDIRECT, NDIRECT + 1)
    {
      HeldInIs(s, i, 0, NDIRECT, b);
      HeldInIs(s, i, NDIRECT + 1, SLOTS, b);
      HeldInIs(s, i, NDIRECT, NDIRECT + 1, b);
    }
  }
}
