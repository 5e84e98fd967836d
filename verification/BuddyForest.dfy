/** The ghost view of a zone of the buddy system: a forest of dyadic blocks over the pages [0, n). */
module BuddyForest {
  import opened BitIndex

  const TOP: nat := 10    // MEMLEVEL - 1

  datatype Block = Block(order: nat, free: bool)

  /** Blocks by the index of their first page. */
  type Forest = map<nat, Block>

  function Buddy(i: nat, k: nat): nat {
    Xor(i, Pow2(k))
  }

  predicate Holds(f: Forest, i: nat, p: nat) {
    i in f && i <= p < i + Pow2(f[i].order)
  }

  ghost predicate Covered(f: Forest, p: nat) {
    exists i :: Holds(f, i, p)
  }

  ghost predicate Tiles(n: nat, f: Forest) {
    && (forall i :: i in f ==> f[i].order <= TOP && Aligned(i, f[i].order) && i + Pow2(f[i].order) <= n)
    && (forall i, j, p :: Holds(f, i, p) && Holds(f, j, p) ==> i == j)
    && (forall p: nat :: p < n ==> Covered(f, p))
  }

  ghost predicate FreeBuddies(f: Forest, i: nat) {
    i in f && f[i].free && f[i].order < TOP && Buddy(i, f[i].order) in f && f[Buddy(i, f[i].order)] == f[i]
  }

  /** No two buddies of equal order below the top are both free. */
  ghost predicate Coalesced(f: Forest) {
    forall i {:trigger FreeBuddies(f, i)} :: i in f ==> !FreeBuddies(f, i)
  }

  ghost predicate FreePage(f: Forest, p: nat) {
    exists i :: Holds(f, i, p) && f[i].free
  }

  ghost predicate FreeRun(f: Forest, i: nat, k: nat) {
    forall p: nat :: i <= p < i + Pow2(k) ==> FreePage(f, p)
  }

  /** The blocks in use, with their orders. */
  ghost function InUse(f: Forest): map<nat, nat> {
    map i | i in f && !f[i].free :: f[i].order
  }

  // ---------------------------------------------------------------- structure

  lemma BuddyFacts(i: nat, k: nat)
    requires Aligned(i, k)
    ensures var j := Buddy(i, k);
            && Aligned(j, k) && Buddy(j, k) == i && j != i
            && (j == i + Pow2(k) || i == j + Pow2(k))
            && And(i, j) == (if i < j then i else j)
            && Aligned(And(i, j), k + 1)
            && And(i, j) + Pow2(k + 1) == (if i < j then j else i) + Pow2(k)
  {
    BuddyIndex(i, k);
    AlignedShift(i, k);
    BuddyIndex(Buddy(i, k), k);
  }

  /** The block that holds page p. */
  lemma HolderOf(n: nat, f: Forest, p: nat) returns (i: nat)
    requires Tiles(n, f) && p < n
    ensures Holds(f, i, p)
  {
    assert Covered(f, p);
    i :| Holds(f, i, p);
  }

  lemma FreePageIsNotInUse(n: nat, f: Forest, p: nat)
    requires Tiles(n, f)
    ensures FreePage(f, p) <==> p < n && !exists i :: Holds(f, i, p) && !f[i].free
  {
    if FreePage(f, p) {
      var i :| Holds(f, i, p) && f[i].free;
    }
    if p < n && !exists i :: Holds(f, i, p) && !f[i].free {
      var i := HolderOf(n, f, p);
      assert f[i].free;
    }
  }

  /** Where a block's buddy lies in the zone, a block of at most the same order starts. */
  lemma BuddyIsLeader(n: nat, f: Forest, i: nat)
    requires Tiles(n, f) && i in f && Buddy(i, f[i].order) < n
    ensures var j := Buddy(i, f[i].order); j in f && f[j].order <= f[i].order
  {
    var k := f[i].order;
    BuddyFacts(i, k);
    var j := Buddy(i, k);
    var l := HolderOf(n, f, j);
    var m := f[l].order;
    if m > k {
      Nested(And(i, j), k + 1, l, m);
      Pow2Monotone(k + 1, m);
      assert Holds(f, l, i) && Holds(f, i, i);
      assert false;
    }
    Nested(l, m, j, k);
  }

  lemma BlockFacts(n: nat, f: Forest, i: nat)
    requires Tiles(n, f) && i in f
    ensures f[i].order <= TOP && Aligned(i, f[i].order) && i + Pow2(f[i].order) <= n
  {
  }

  lemma NotFreeBuddies(f: Forest, i: nat)
    requires Coalesced(f) && i in f
    ensures !FreeBuddies(f, i)
  {
  }

  /** The halves of an aligned run are buddies. */
  lemma HalvesAreBuddies(i: nat, k: nat)
    requires Aligned(i, k + 1)
    ensures var h := i + Pow2(k); Aligned(i, k) && Aligned(h, k) && Buddy(h, k) == i && Buddy(i, k) == h
  {
    hide Aligned, Xor, And, Pow2;
    AlignedTo(i, k, k + 1);
    AlignedShift(i, k);
    BuddyIndex(i, k);
    BuddyIndex(i + Pow2(k), k);
  }

  /** Two free blocks over the halves of an aligned run: one of them holds the whole run. */
  lemma HalvesInOneBlock(n: nat, f: Forest, i: nat, k: nat, a: nat, b: nat) returns (l: nat)
    requires Tiles(n, f) && Coalesced(f) && k < TOP && Aligned(i, k + 1)
    requires a in f && f[a].free && k <= f[a].order && a <= i && i + Pow2(k) <= a + Pow2(f[a].order)
    requires var h := i + Pow2(k);
             b in f && f[b].free && k <= f[b].order && b <= h && h + Pow2(k) <= b + Pow2(f[b].order)
    ensures l in f && f[l].free && k < f[l].order && l <= i && i + Pow2(k + 1) <= l + Pow2(f[l].order)
  {
    hide Tiles, Coalesced, Aligned, Xor, And, Buddy;
    BlockFacts(n, f, a);
    BlockFacts(n, f, b);
    if f[a].order > k {
      Nested(i, k + 1, a, f[a].order);
      l := a;
    } else if f[b].order > k {
      Nested(i, k + 1, b, f[b].order);
      l := b;
    } else {
      HalvesAreBuddies(i, k);
      NotFreeBuddies(f, a);
      assert false;
    }
  }

  /** In a coalesced forest an aligned run of free pages lies in one free block. */
  lemma {:induction false} FreeRunInOneBlock(n: nat, f: Forest, i: nat, k: nat) returns (l: nat)
    requires Tiles(n, f) && Coalesced(f) && k <= TOP
    requires Aligned(i, k) && i + Pow2(k) <= n && FreeRun(f, i, k)
    ensures l in f && f[l].free && k <= f[l].order && l <= i && i + Pow2(k) <= l + Pow2(f[l].order)
    decreases k
  {
    hide Tiles, Coalesced;
    if k == 0 {
      assert FreePage(f, i);
      l :| Holds(f, l, i) && f[l].free;
    } else {
      AlignedTo(i, k - 1, k);
      AlignedShift(i, k - 1);
      var a := FreeRunInOneBlock(n, f, i, k - 1);
      var b := FreeRunInOneBlock(n, f, i + Pow2(k - 1), k - 1);
      l := HalvesInOneBlock(n, f, i, k - 1, a, b);
    }
  }

  /** A coalesced tiling is determined by its blocks in use. */
  lemma SubForest(n: nat, f: Forest, g: Forest, i: nat)
    requires Tiles(n, f) && Tiles(n, g) && Coalesced(f) && Coalesced(g) && InUse(f) == InUse(g)
    requires i in f
    ensures i in g && g[i] == f[i]
  {
    if !f[i].free {
      assert i in InUse(f);
      assert i in InUse(g);
    } else {
      SameFreePages(n, f, g);
      assert FreeRun(f, i, f[i].order);
      var l := FreeRunInOneBlock(n, g, i, f[i].order);
      SameFreePages(n, g, f);
      assert FreeRun(g, l, g[l].order);
      var m := FreeRunInOneBlock(n, f, l, g[l].order);
      Pow2Monotone(f[i].order, g[l].order);
      assert Holds(f, m, i) && Holds(f, i, i);
      assert m == i;
    }
  }

  lemma SameFreePages(n: nat, f: Forest, g: Forest)
    requires Tiles(n, f) && Tiles(n, g) && InUse(f) == InUse(g)
    ensures forall p :: FreePage(f, p) ==> FreePage(g, p)
  {
    forall p | FreePage(f, p) ensures FreePage(g, p) {
      FreePageIsNotInUse(n, f, p);
      FreePageIsNotInUse(n, g, p);
      assert forall i :: i in g && !g[i].free ==> i in InUse(g);
    }
  }

  lemma Canonical(n: nat, f: Forest, g: Forest)
    requires Tiles(n, f) && Tiles(n, g) && Coalesced(f) && Coalesced(g) && InUse(f) == InUse(g)
    ensures f == g
  {
    forall i | i in f ensures i in g && g[i] == f[i] {
      SubForest(n, f, g, i);
    }
    forall i | i in g ensures i in f {
      SubForest(n, g, f, i);
    }
  }

  /** The blocks of a coalesced zone with nothing in use: the aligned blocks of at most the top order
      whose parent does not fit. */
  predicate BootBlock(n: nat, i: nat, k: nat) {
    k <= TOP && Aligned(i, k) && i + Pow2(k) <= n
    && (k == TOP || And(i, Buddy(i, k)) + Pow2(k + 1) > n)
  }

  lemma AllFreeMeansBoot(n: nat, f: Forest, i: nat, k: nat)
    requires Tiles(n, f) && Coalesced(f) && InUse(f) == map[]
    ensures (i in f && f[i] == Block(k, true)) <==> BootBlock(n, i, k)
  {
    hide Tiles, Coalesced, Xor, And, Aligned;
    if i in f && f[i] == Block(k, true) {
      FreeBlockIsBoot(n, f, i);
    }
    if BootBlock(n, i, k) {
      BootBlockIsFree(n, f, i, k);
    }
  }

  lemma NothingInUse(n: nat, f: Forest)
    requires Tiles(n, f) && InUse(f) == map[]
    ensures forall p: nat :: p < n ==> FreePage(f, p)
  {
    hide Tiles;
    assert forall j :: j in f && !f[j].free ==> j in InUse(f);
    forall p: nat | p < n ensures FreePage(f, p) {
      var j := HolderOf(n, f, p);
    }
  }

  lemma FreeBlockIsBoot(n: nat, f: Forest, i: nat)
    requires Tiles(n, f) && Coalesced(f) && InUse(f) == map[] && i in f
    ensures BootBlock(n, i, f[i].order)
  {
    hide Tiles, Coalesced, Aligned, Xor, And;
    var k := f[i].order;
    BlockFacts(n, f, i);
    BuddyFacts(i, k);
    var a := And(i, Buddy(i, k));
    if k < TOP && a + Pow2(k + 1) <= n {
      NothingInUse(n, f);
      var l := FreeRunInOneBlock(n, f, a, k + 1);
      OneHolder(n, f, l, i, i);
      assert false;
    }
  }

  lemma BootBlockIsFree(n: nat, f: Forest, i: nat, k: nat)
    requires Tiles(n, f) && Coalesced(f) && InUse(f) == map[] && BootBlock(n, i, k)
    ensures i in f && f[i] == Block(k, true)
  {
    hide Tiles, Coalesced, Aligned, Xor, And;
    NothingInUse(n, f);
    var l := FreeRunInOneBlock(n, f, i, k);
    BlockFacts(n, f, l);
    if f[l].order > k {
      BuddyFacts(i, k);
      Nested(And(i, Buddy(i, k)), k + 1, l, f[l].order);
      assert false;
    }
  }

  lemma OneHolder(n: nat, f: Forest, i: nat, j: nat, p: nat)
    requires Tiles(n, f) && Holds(f, i, p) && Holds(f, j, p)
    ensures i == j
  {
  }

  // ---------------------------------------------------------------- allocation and release

  /** Whether a block is free does not change what it covers. */
  lemma Retag(n: nat, f: Forest, i: nat, free: bool)
    requires Tiles(n, f) && i in f
    ensures Tiles(n, f[i := Block(f[i].order, free)])
  {
    hide Aligned, Pow2;
    var g := f[i := Block(f[i].order, free)];
    assert forall j, p :: Holds(g, j, p) <==> Holds(f, j, p);
    forall p: nat | p < n ensures Covered(g, p) {
      var j := HolderOf(n, f, p);
      assert Holds(g, j, p);
    }
  }

  lemma TakeBlock(n: nat, f: Forest, i: nat)
    requires Tiles(n, f) && Coalesced(f) && i in f && f[i].free
    ensures var g := f[i := Block(f[i].order, false)];
            Tiles(n, g) && Coalesced(g) && InUse(g) == InUse(f)[i := f[i].order]
  {
    hide Tiles, Xor, Pow2;
    var g := f[i := Block(f[i].order, false)];
    Retag(n, f, i, false);
    forall j | j in g ensures !FreeBuddies(g, j) {
      NotFreeBuddies(f, j);
    }
  }

  function Halve(f: Forest, i: nat): Forest
    requires i in f && f[i].order > 0
  {
    var k := f[i].order - 1;
    f[i := Block(k, false)][i + Pow2(k) := Block(k, true)]
  }

  /** A page inside a block, past its first, starts no block. */
  lemma NoBlockInside(n: nat, f: Forest, i: nat, p: nat)
    requires Tiles(n, f) && Holds(f, i, p) && i != p
    ensures p !in f
  {
    assert p in f ==> Holds(f, p, p);
  }

  lemma HalveFits(n: nat, f: Forest, i: nat)
    requires Tiles(n, f) && i in f && f[i].order > 0
    ensures var k := f[i].order - 1; var h := i + Pow2(k);
            h !in f && h + Pow2(k) <= n && Aligned(i, k) && Aligned(h, k) && Buddy(h, k) == i && Buddy(i, k) == h
  {
    hide Tiles, Aligned, Xor, And;
    var k := f[i].order - 1;
    BlockFacts(n, f, i);
    HalvesAreBuddies(i, k);
    NoBlockInside(n, f, i, i + Pow2(k));
  }

  lemma HalveTiles(n: nat, f: Forest, i: nat)
    requires Tiles(n, f) && i in f && !f[i].free && f[i].order > 0
    ensures Tiles(n, Halve(f, i))
  {
    HalveFits(n, f, i);
    hide Aligned, Xor, And;
    var k := f[i].order - 1;
    var h := i + Pow2(k);
    var g := Halve(f, i);
    assert forall p: nat :: Holds(g, i, p) || Holds(g, h, p) <==> Holds(f, i, p);
    assert forall j: nat, p: nat :: j != i && j != h ==> (Holds(g, j, p) <==> Holds(f, j, p));
    forall p: nat | p < n ensures Covered(g, p) {
      var j := HolderOf(n, f, p);
      assert if j == i && p >= h then Holds(g, h, p) else Holds(g, j, p);
    }
  }

  lemma HalveCoalesced(n: nat, f: Forest, i: nat)
    requires Tiles(n, f) && Coalesced(f) && i in f && !f[i].free && f[i].order > 0
    ensures Coalesced(Halve(f, i))
  {
    hide Tiles, Pow2, Xor, And, Aligned;
    HalveFits(n, f, i);
    var g := Halve(f, i);
    forall j | j in g && g[j].free ensures !FreeBuddies(g, j) {
      if j in f && j != i {
        NotFreeBuddies(f, j);
        BlockFacts(n, f, j);
        BuddyFacts(j, f[j].order);
      }
    }
  }

  lemma HalveKeeps(n: nat, f: Forest, i: nat)
    requires Tiles(n, f) && Coalesced(f) && i in f && !f[i].free && f[i].order > 0
    ensures var g := Halve(f, i); var k := f[i].order - 1;
            && i + Pow2(k) !in f && i + Pow2(k) < n
            && Tiles(n, g) && Coalesced(g) && InUse(g) == InUse(f)[i := k]
  {
    hide Tiles, Coalesced;
    HalveFits(n, f, i);
    HalveTiles(n, f, i);
    HalveCoalesced(n, f, i);
    assert InUse(Halve(f, i)) == InUse(f)[i := f[i].order - 1];
  }

  function Join(f: Forest, i: nat): Forest
    requires i in f
  {
    var k := f[i].order;
    var j := Buddy(i, k);
    (f - {i, j})[And(i, j) := Block(k + 1, false)]
  }

  lemma JoinTiles(n: nat, f: Forest, i: nat)
    requires Tiles(n, f) && i in f && f[i].order < TOP
    requires var j := Buddy(i, f[i].order); j in f && f[j].order == f[i].order
    ensures Tiles(n, Join(f, i))
  {
    var k := f[i].order;
    var j := Buddy(i, k);
    BuddyFacts(i, k);
    hide Aligned, Xor, And;
    var a := And(i, j);
    var g := Join(f, i);
    assert forall p: nat :: Holds(g, a, p) <==> Holds(f, i, p) || Holds(f, j, p);
    assert forall b: nat, p: nat :: b != a ==> (Holds(g, b, p) <==> b != i && b != j && Holds(f, b, p));
    forall p: nat | p < n ensures Covered(g, p) {
      var b := HolderOf(n, f, p);
      assert if b == i || b == j then Holds(g, a, p) else Holds(g, b, p);
    }
  }

  lemma JoinKeeps(n: nat, f: Forest, i: nat)
    requires Tiles(n, f) && Coalesced(f) && i in f && !f[i].free && f[i].order < TOP
    requires var j := Buddy(i, f[i].order); j in f && f[j] == Block(f[i].order, true)
    ensures var g := Join(f, i); var a := And(i, Buddy(i, f[i].order));
            && Tiles(n, g) && Coalesced(g) && a in g
            && InUse(g) == (InUse(f) - {i})[a := f[i].order + 1]
  {
    hide Tiles, Coalesced, Aligned, Xor, And, Pow2;
    JoinTiles(n, f, i);
    BlockFacts(n, f, i);
    BuddyFacts(i, f[i].order);
    JoinCoalesced(f, i);
    assert InUse(Join(f, i)) == (InUse(f) - {i})[And(i, Buddy(i, f[i].order)) := f[i].order + 1];
  }

  lemma JoinCoalesced(f: Forest, i: nat)
    requires Coalesced(f) && i in f && Aligned(i, f[i].order)
    ensures Coalesced(Join(f, i))
  {
    hide Aligned, Xor, And, Pow2;
    var g := Join(f, i);
    var a := And(i, Buddy(i, f[i].order));
    BuddyFacts(i, f[i].order);
    forall b | b in g ensures !FreeBuddies(g, b) {
      if b != a {
        NotFreeBuddies(f, b);
      }
    }
  }

  lemma GiveBlock(n: nat, f: Forest, i: nat)
    requires Tiles(n, f) && Coalesced(f) && i in f && !f[i].free
    requires f[i].order < TOP ==>
               var j := Buddy(i, f[i].order); !(j in f && f[j] == Block(f[i].order, true))
    ensures var g := f[i := Block(f[i].order, true)];
            Tiles(n, g) && Coalesced(g) && InUse(g) == InUse(f) - {i}
  {
    hide Tiles, Aligned, Xor, And, Pow2;
    var g := f[i := Block(f[i].order, true)];
    Retag(n, f, i, true);
    BlockFacts(n, f, i);
    BuddyFacts(i, f[i].order);
    forall j | j in g ensures !FreeBuddies(g, j) {
      if j != i {
        NotFreeBuddies(f, j);
        BlockFacts(n, f, j);
        BuddyFacts(j, f[j].order);
      }
    }
  }

  lemma AppendTiles(n: nat, f: Forest, k: nat)
    requires Tiles(n, f) && k <= TOP && Aligned(n, k)
    ensures n !in f && Tiles(n + Pow2(k), f[n := Block(k, true)])
  {
    var g := f[n := Block(k, true)];
    assert forall i: nat, p: nat :: i != n ==> (Holds(g, i, p) <==> Holds(f, i, p));
    forall p: nat | p < n + Pow2(k) ensures Covered(g, p) {
      if p < n {
        var j := HolderOf(n, f, p);
        assert Holds(g, j, p);
      } else {
        assert Holds(g, n, p);
      }
    }
  }

  /** Boot: a free block behind a tiled prefix of the zone. */
  lemma AppendBlock(n: nat, f: Forest, k: nat)
    requires Tiles(n, f) && Coalesced(f) && InUse(f) == map[] && k <= TOP && Aligned(n, k)
    requires k < TOP ==> forall i :: i in f ==> f[i].order > k
    ensures var g := f[n := Block(k, true)];
            n !in f && Tiles(n + Pow2(k), g) && Coalesced(g) && InUse(g) == map[]
  {
    hide Tiles, Coalesced, Pow2, Xor, And, Aligned, Buddy;
    AppendTiles(n, f, k);
    AppendCoalesced(n, f, k);
    assert forall i :: i in f && !f[i].free ==> i in InUse(f);
  }

  lemma AppendCoalesced(n: nat, f: Forest, k: nat)
    requires Coalesced(f) && n !in f && k <= TOP && Aligned(n, k)
    requires k < TOP ==> forall i :: i in f ==> f[i].order > k
    ensures Coalesced(f[n := Block(k, true)])
  {
    hide Pow2, Xor, And, Aligned, Buddy;
    var g := f[n := Block(k, true)];
    BuddyFacts(n, k);
    forall j | j in g ensures !FreeBuddies(g, j) {
      if j != n {
        NotFreeBuddies(f, j);
      }
    }
  }

  /** An allocation followed by the matching release restores every block, and so does any history that
      ends with the same blocks in use. */
  lemma FreeUndoesAlloc(n: nat, f: Forest, g: Forest, h: Forest, i: nat, k: nat)
    requires Tiles(n, f) && Coalesced(f) && Tiles(n, h) && Coalesced(h)
    requires i !in InUse(f) && InUse(g) == InUse(f)[i := k] && InUse(h) == InUse(g) - {i}
    ensures h == f
  {
    Canonical(n, f, h);
  }

  // ---------------------------------------------------------------- the loop bound as written

  /** The order the loop of __free_pages_bulk ends with when it runs while the order is below `bound`.
      The model's bound is TOP; the code's is MEMLEVEL = TOP + 1. */
  ghost function Climb(f: Forest, i: nat, bound: nat): nat
    requires i in f
    decreases bound - f[i].order
  {
    var k := f[i].order;
    var j := Buddy(i, k);
    if k < bound && j in f && f[j] == Block(k, true) then Climb(Join(f, i), And(i, j), bound) else k
  }

  /** Every page of the top-order frame is free, apart from those of block i. */
  ghost predicate FreeAround(f: Forest, i: nat, frame: nat)
    requires i in f
  {
    forall p: nat :: frame <= p < frame + Pow2(TOP) && !Holds(f, i, p) ==> FreePage(f, p)
  }

  /** Joining with the free buddy does not change what is free around the block in hand. */
  lemma JoinFreeAround(n: nat, f: Forest, i: nat, frame: nat)
    requires Tiles(n, f) && i in f && !f[i].free && f[i].order < TOP
    requires var j := Buddy(i, f[i].order); j in f && f[j] == Block(f[i].order, true)
    ensures var a := And(i, Buddy(i, f[i].order)); FreeAround(f, i, frame) <==> FreeAround(Join(f, i), a, frame)
  {
    hide Tiles, Aligned, Xor, And, Pow2;
    var k := f[i].order;
    var j := Buddy(i, k);
    BlockFacts(n, f, i);
    BuddyFacts(i, k);
    var a, g := And(i, j), Join(f, i);
    assert forall p: nat :: Holds(g, a, p) <==> Holds(f, i, p) || Holds(f, j, p);
    forall p: nat ensures FreePage(g, p) ==> FreePage(f, p) {
      if FreePage(g, p) {
        var b :| Holds(g, b, p) && g[b].free;
        assert Holds(f, b, p);
      }
    }
    forall p: nat ensures FreePage(f, p) ==> FreePage(g, p) || Holds(f, j, p) {
      if FreePage(f, p) {
        var b :| Holds(f, b, p) && f[b].free;
        assert b != j ==> Holds(g, b, p);
      }
    }
    if FreeAround(g, a, frame) {
      forall p: nat | frame <= p < frame + Pow2(TOP) && !Holds(f, i, p) ensures FreePage(f, p) {
        assert Holds(f, j, p) ==> FreePage(f, p);
      }
    }
    if FreeAround(f, i, frame) {
      forall p: nat | frame <= p < frame + Pow2(TOP) && !Holds(g, a, p) ensures FreePage(g, p) {
        assert !Holds(f, j, p);
      }
    }
  }

  /** A block with no free buddy of its order has a page near it that is not free. */
  lemma StuckNotFree(n: nat, f: Forest, i: nat, frame: nat)
    requires Tiles(n, f) && Coalesced(f) && i in f && !f[i].free && f[i].order < TOP
    requires Aligned(frame, TOP) && frame <= i < frame + Pow2(TOP)
    requires var j := Buddy(i, f[i].order); !(j in f && f[j] == Block(f[i].order, true))
    ensures !FreeAround(f, i, frame)
  {
    hide Tiles, Coalesced, Aligned, Xor, And, Pow2;
    var k := f[i].order;
    var j := Buddy(i, k);
    BlockFacts(n, f, i);
    BuddyFacts(i, k);
    Nested(And(i, j), k + 1, frame, TOP);
    if FreeAround(f, i, frame) {
      forall p: nat | j <= p < j + Pow2(k) ensures FreePage(f, p) {
        assert !Holds(f, i, p);
      }
      FreePageInZone(n, f, j + Pow2(k) - 1);
      var l := FreeRunInOneBlock(n, f, j, k);
      BlockFacts(n, f, l);
      if f[l].order > k {
        Nested(And(i, j), k + 1, l, f[l].order);
        OneHolder(n, f, l, i, i);
      }
      assert false;
    }
  }

  lemma FreePageInZone(n: nat, f: Forest, p: nat)
    requires Tiles(n, f) && FreePage(f, p)
    ensures p < n
  {
  }

  /** The loop with the bound of the model ends at the top order exactly when everything else in the frame
      of the block is free. */
  lemma {:induction false} ClimbsToTop(n: nat, f: Forest, i: nat, frame: nat)
    requires Tiles(n, f) && Coalesced(f) && i in f && !f[i].free
    requires Aligned(frame, TOP) && frame <= i < frame + Pow2(TOP)
    ensures Climb(f, i, TOP) == TOP <==> FreeAround(f, i, frame)
    decreases TOP - f[i].order
  {
    hide Tiles, Coalesced, Aligned, Xor, And, Pow2, FreeAround;
    var k := f[i].order;
    var j := Buddy(i, k);
    BlockFacts(n, f, i);
    Nested(i, k, frame, TOP);
    Pow2Monotone(k, TOP);
    if k == TOP {
      WholeFrame(f, i);
    } else if j in f && f[j] == Block(k, true) {
      BuddyFacts(i, k);
      JoinKeeps(n, f, i);
      JoinFreeAround(n, f, i, frame);
      Nested(And(i, j), k + 1, frame, TOP);
      ClimbsToTop(n, Join(f, i), And(i, j), frame);
    } else {
      StuckNotFree(n, f, i, frame);
    }
  }

  lemma WholeFrame(f: Forest, i: nat)
    requires i in f && f[i].order == TOP
    ensures FreeAround(f, i, i)
  {
  }

  /** The written bound runs past the last free list exactly when every other page of the block's top-order
      frame is free and the buddy of that frame is a free top-order block. */
  lemma WrittenBoundOverflows(n: nat, f: Forest, i: nat, frame: nat)
    requires Tiles(n, f) && Coalesced(f) && i in f && !f[i].free
    requires Aligned(frame, TOP) && frame <= i < frame + Pow2(TOP)
    ensures Climb(f, i, TOP + 1) == TOP + 1 <==>
              FreeAround(f, i, frame) && Buddy(frame, TOP) in f && f[Buddy(frame, TOP)] == Block(TOP, true)
  {
    hide *;
    ClimbsToTop(n, f, i, frame);
    OneMoreRound(n, f, i, frame);
  }

  lemma {:induction false} OneMoreRound(n: nat, f: Forest, i: nat, frame: nat)
    requires Tiles(n, f) && Coalesced(f) && i in f && !f[i].free
    requires Aligned(frame, TOP) && frame <= i < frame + Pow2(TOP)
    ensures Climb(f, i, TOP + 1) == TOP + 1 <==>
              Climb(f, i, TOP) == TOP && Buddy(frame, TOP) in f && f[Buddy(frame, TOP)] == Block(TOP, true)
    decreases TOP - f[i].order
  {
    hide Tiles, Coalesced, Aligned, Xor, And, Pow2;
    var k := f[i].order;
    var j := Buddy(i, k);
    BlockFacts(n, f, i);
    Nested(i, k, frame, TOP);
    Pow2Monotone(k, TOP);
    if k < TOP && j in f && f[j] == Block(k, true) {
      BuddyFacts(i, k);
      var a := And(i, j);
      JoinKeeps(n, f, i);
      Nested(a, k + 1, frame, TOP);
      BuddyFacts(frame, TOP);
      OneMoreRound(n, Join(f, i), a, frame);
    } else if k == TOP {
      assert i == frame;
    }
  }

  /** Two neighbouring top-order blocks, one free: releasing the other overflows. */
  lemma OverflowExample() returns (f: Forest)
    ensures Tiles(2 * Pow2(TOP), f) && Coalesced(f) && f == map[0 := Block(TOP, false), Pow2(TOP) := Block(TOP, true)]
    ensures Climb(f, 0, TOP + 1) == TOP + 1
  {
    hide Pow2, Aligned, Xor, And, Coalesced;
    var p := Pow2(TOP);
    ZeroAligned(TOP + 1);
    ZeroAligned(TOP);
    AlignedShift(0, TOP);
    BuddyIndex(0, TOP);
    EmptyForest();
    AppendBlock(0, map[], TOP);
    AppendBlock(p, map[0 := Block(TOP, true)], TOP);
    TakeBlock(2 * p, map[0 := Block(TOP, true), p := Block(TOP, true)], 0);
    f := map[0 := Block(TOP, true), p := Block(TOP, true)][0 := Block(TOP, false)];
    WrittenBoundOverflows(2 * p, f, 0, 0);
  }

  lemma EmptyForest()
    ensures Tiles(0, map[]) && Coalesced(map[]) && InUse(map[]) == map[]
  {
  }

  lemma {:induction false} ZeroAligned(k: nat)
    ensures Aligned(0, k)
  {
    if k > 0 {
      ZeroAligned(k - 1);
    }
  }

  // ---------------------------------------------------------------- buddies outside the zone

  /** The loop reads the tag at the buddy of a block before it knows that there is such a page. */
  ghost predicate BuddyInZone(n: nat, i: nat, k: nat) {
    Aligned(i, k) && i + Pow2(k) <= n ==> Buddy(i, k) < n
  }

  /** For blocks of order below m every such read stays in a zone of n pages exactly when n is a multiple of
      2^m. */
  lemma ReadsStayInZone(n: nat, m: nat)
    ensures (forall i: nat, k: nat :: k < m ==> BuddyInZone(n, i, k)) <==> Aligned(n, m)
  {
    hide Aligned, Xor, And, Pow2, Buddy;
    if Aligned(n, m) {
      forall i: nat, k: nat | k < m ensures BuddyInZone(n, i, k) {
        PairFits(n, m, i, k);
      }
    } else {
      var k := LowestBit(n, m);
      LastBuddy(n, k);
      assert !BuddyInZone(n, n - Pow2(k), k);
    }
  }

  lemma PairFits(n: nat, m: nat, i: nat, k: nat)
    requires Aligned(n, m) && k < m
    ensures BuddyInZone(n, i, k)
  {
    hide Aligned, Xor, And;
    if Aligned(i, k) {
      BuddyIndex(i, k);
      if Aligned(i, k + 1) {
        AlignedTo(n, k + 1, m);
        Nested(i, k + 1, n, k + 1);
      }
    }
  }

  lemma {:induction false} LowestBit(n: nat, m: nat) returns (k: nat)
    requires !Aligned(n, m)
    ensures k < m && Aligned(n, k) && !Aligned(n, k + 1)
    decreases m
  {
    if Aligned(n, m - 1) {
      k := m - 1;
    } else {
      k := LowestBit(n, m - 1);
    }
  }

  lemma LastBuddy(n: nat, k: nat)
    requires Aligned(n, k) && !Aligned(n, k + 1)
    ensures n >= Pow2(k) && Aligned(n - Pow2(k), k + 1) && Aligned(n - Pow2(k), k)
    ensures Buddy(n - Pow2(k), k) == n && And(n - Pow2(k), n) == n - Pow2(k)
  {
    hide Aligned, Xor, And, Pow2;
    BuddyIndex(n, k);
    AlignedShift(n, k);
    BuddyIndex(n - Pow2(k), k);
  }

  /** Otherwise boot leaves a block at the end of the zone, of the order of the lowest bit of n, whose buddy is
      the page behind the zone. */
  lemma LastBlockReadsOutside(n: nat, k: nat)
    requires k < TOP && Aligned(n, k) && !Aligned(n, k + 1)
    ensures n >= Pow2(k) && BootBlock(n, n - Pow2(k), k) && Buddy(n - Pow2(k), k) == n
  {
    LastBuddy(n, k);
    hide Aligned, Xor, And;
    assert Pow2(k + 1) == 2 * Pow2(k);
  }
}
