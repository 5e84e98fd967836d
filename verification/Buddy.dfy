/** The buddy core of kern/buddy.c for one zone: __rmqueue, __free_pages_bulk and boot_zone_init over page
    tags and free lists, each proved against the forest of blocks.
    Pages are indexed from the zone base. */
module Buddy {
  import opened BitIndex
  import opened BuddyForest
  import opened Lists

  const MEMLEVEL: nat := TOP + 1
  const IN_BUDDY: nat := 12
  const OUT_OF_BUDDY: nat := 13

  // ---------------------------------------------------------------- free lists

  /** Pages on the first k lists. */
  ghost function Pages(lists: seq<seq<nat>>, k: nat): int
    requires k <= |lists|
  {
    if k == 0 then 0 else Pages(lists, k - 1) + |lists[k - 1]| * Pow2(k - 1)
  }

  lemma {:induction false} PagesUpdate(lists: seq<seq<nat>>, k: nat, j: nat, l: seq<nat>, d: int)
    requires k <= |lists| && j < |lists| && |l| == |lists[j]| + d
    ensures Pages(lists[j := l], k) == Pages(lists, k) + if j < k then d * Pow2(j) else 0
  {
    if k > 0 {
      PagesUpdate(lists, k - 1, j, l, d);
      if j == k - 1 {
        assert |l| * Pow2(j) == |lists[j]| * Pow2(j) + d * Pow2(j);
      }
    }
  }

  /** Each list holds exactly the free blocks of its order, once. */
  ghost predicate Listed(lists: seq<seq<nat>>, f: Forest) {
    && |lists| == MEMLEVEL
    && (forall k :: 0 <= k < MEMLEVEL ==> Distinct(lists[k]))
    && (forall k, i :: 0 <= k < MEMLEVEL ==> (i in lists[k] <==> i in f && f[i] == Block(k, true)))
  }

  /** Tags of free blocks are their orders, tags of blocks in use OUT_OF_BUDDY; block `but` is exempt. */
  ghost predicate Tagged(tags: seq<nat>, f: Forest, but: int) {
    forall i :: i in f && i != but ==> i < |tags| && tags[i] == if f[i].free then f[i].order else OUT_OF_BUDDY
  }

  ghost predicate Unreferenced(refs: seq<nat>, f: Forest) {
    forall p: nat :: FreePage(f, p) ==> p < |refs| && refs[p] == 0
  }

  /** page_is_buddy is exact: for a block i, tag and count of its buddy's first page say precisely whether
      that buddy is a free block of the same order. */
  lemma TagTestExact(n: nat, tags: seq<nat>, refs: seq<nat>, f: Forest, i: nat)
    requires Tiles(n, f) && Tagged(tags, f, i) && Unreferenced(refs, f) && |tags| == |refs| == n
    requires i in f && Buddy(i, f[i].order) < n
    ensures var j := Buddy(i, f[i].order); var k := f[i].order;
            tags[j] == k && refs[j] == 0 <==> j in f && f[j] == Block(k, true)
  {
    BlockFacts(n, f, i);
    BuddyIsLeader(n, f, i);
    BuddyFacts(i, f[i].order);
    var j := Buddy(i, f[i].order);
    assert Holds(f, j, j);
    assert f[j].free ==> FreePage(f, j);
  }

  /** A free block of order k at page i is an aligned run of 2^k free pages, and so is its start. */
  lemma FoundBlock(n: nat, refs: seq<nat>, f: Forest, i: nat, k: nat)
    requires Tiles(n, f) && i in f && f[i].free && k <= f[i].order && Unreferenced(refs, f) && |refs| == n
    ensures Aligned(i, k) && i + Pow2(k) <= i + Pow2(f[i].order) <= n && FreeRun(f, i, k) && i !in InUse(f)
    ensures forall q: nat :: i <= q < i + Pow2(f[i].order) ==> refs[q] == 0
  {
    AlignedTo(i, k, f[i].order);
    Pow2Monotone(k, f[i].order);
    forall p: nat | i <= p < i + Pow2(f[i].order) ensures FreePage(f, p) {
      assert Holds(f, i, p);
    }
    forall q: nat | i <= q < i + Pow2(f[i].order) ensures refs[q] == 0 {
      assert FreePage(f, q);
    }
  }

  /** Lists and tags after a block in use at i is halved and its upper half put on its list. */
  lemma HalveListed(lists: seq<seq<nat>>, f: Forest, i: nat)
    requires Listed(lists, f) && i in f && !f[i].free && 0 < f[i].order <= TOP
    requires i + Pow2(f[i].order - 1) !in f
    ensures var k := f[i].order - 1; var h := i + Pow2(k);
            Listed(lists[k := [h] + lists[k]], Halve(f, i))
  {
  }

  lemma HalveTagged(tags: seq<nat>, f: Forest, i: nat)
    requires Tagged(tags, f, -1) && i in f && !f[i].free && f[i].order > 0
    requires i + Pow2(f[i].order - 1) < |tags|
    ensures var k := f[i].order - 1; Tagged(tags[i + Pow2(k) := k], Halve(f, i), -1)
  {
  }

  // Lists, tags and counts after a block in use at i is joined with its free buddy.

  lemma JoinListed(lists: seq<seq<nat>>, f: Forest, i: nat)
    requires Listed(lists, f) && i in f && !f[i].free && f[i].order < TOP
    requires var j := Buddy(i, f[i].order); j in f && f[j] == Block(f[i].order, true)
    requires var a := And(i, Buddy(i, f[i].order)); a == i || a == Buddy(i, f[i].order)
    ensures var k := f[i].order; var j := Buddy(i, k);
            j in lists[k] && |Without(lists[k], j)| == |lists[k]| - 1
            && Listed(lists[k := Without(lists[k], j)], Join(f, i))
  {
    WithoutIs(lists[f[i].order], Buddy(i, f[i].order));
  }

  lemma JoinTagged(tags: seq<nat>, f: Forest, i: nat)
    requires Tagged(tags, f, i) && i in f && Buddy(i, f[i].order) < |tags|
    requires var a := And(i, Buddy(i, f[i].order)); a == i || a == Buddy(i, f[i].order)
    ensures var j := Buddy(i, f[i].order); Tagged(tags[j := IN_BUDDY], Join(f, i), And(i, j))
  {
  }

  lemma JoinUnreferenced(n: nat, refs: seq<nat>, f: Forest, i: nat)
    requires Tiles(n, f) && Unreferenced(refs, f) && |refs| == n && i in f && f[i].order < TOP
    requires var j := Buddy(i, f[i].order); j in f && f[j] == Block(f[i].order, true)
    requires forall q: nat :: i <= q < i + Pow2(f[i].order) && q < n ==> refs[q] == 0
    ensures Unreferenced(refs, Join(f, i))
    ensures var a := And(i, Buddy(i, f[i].order));
            forall q: nat :: a <= q < a + Pow2(f[i].order + 1) && q < n ==> refs[q] == 0
  {
    hide Tiles;
    var k := f[i].order;
    var j := Buddy(i, k);
    BlockFacts(n, f, i);
    BuddyFacts(i, k);
    FoundBlock(n, refs, f, j, k);
    var a := And(i, j);
    forall p: nat | FreePage(Join(f, i), p) ensures FreePage(f, p) {
      var b :| Holds(Join(f, i), b, p) && Join(f, i)[b].free;
      assert Holds(f, b, p);
    }
    assert a + Pow2(k + 1) == (if i < j then j else i) + Pow2(k);
  }

  lemma GiveUnreferenced(n: nat, refs: seq<nat>, f: Forest, i: nat)
    requires Unreferenced(refs, f) && |refs| == n && i in f && i + Pow2(f[i].order) <= n
    requires forall q: nat :: i <= q < i + Pow2(f[i].order) && q < n ==> refs[q] == 0
    ensures Unreferenced(refs, f[i := Block(f[i].order, true)])
  {
    var g := f[i := Block(f[i].order, true)];
    forall p: nat | FreePage(g, p) ensures p < n && refs[p] == 0 {
      var b :| Holds(g, b, p) && g[b].free;
      if b != i {
        assert Holds(f, b, p);
        assert FreePage(f, p);
      }
    }
  }

  /** Lists and tags after a block that was not free is put on the list of its order. */
  lemma PushListed(lists: seq<seq<nat>>, f: Forest, i: nat, k: nat)
    requires Listed(lists, f) && (i in f ==> !f[i].free) && k < MEMLEVEL
    ensures Listed(lists[k := [i] + lists[k]], f[i := Block(k, true)])
  {
  }

  lemma PushTagged(tags: seq<nat>, f: Forest, i: nat, k: nat, but: int)
    requires Tagged(tags, f, but) && (but == i || but == -1) && i < |tags|
    ensures Tagged(tags[i := k], f[i := Block(k, true)], -1)
  {
  }

  // Lists, tags and counts after the first block of a list goes into use.

  lemma PopListed(lists: seq<seq<nat>>, f: Forest, k: nat)
    requires Listed(lists, f) && k < MEMLEVEL && lists[k] != []
    ensures Listed(lists[k := lists[k][1..]], f[lists[k][0] := Block(k, false)])
  {
    var x, rest := lists[k][0], lists[k][1..];
    assert lists[k] == [x] + rest;
    assert x in lists[k] && x !in rest && Distinct(rest);
    assert forall y :: y in rest <==> y in lists[k] && y != x;
    var after, g := lists[k := rest], f[x := Block(k, false)];
    forall m, i | 0 <= m < MEMLEVEL ensures i in after[m] <==> i in g && g[i] == Block(m, true) {
      assert i in lists[m] <==> i in f && f[i] == Block(m, true);
      assert after[m] == if m == k then rest else lists[m];
      if i == x {
        assert f[x] == Block(k, true);
      } else {
        assert i in g <==> i in f;
      }
    }
    hide Distinct;
  }

  lemma PopUnreferenced(refs: seq<nat>, f: Forest, i: nat)
    requires Unreferenced(refs, f) && i in f
    ensures Unreferenced(refs, f[i := Block(f[i].order, false)])
  {
    var g := f[i := Block(f[i].order, false)];
    forall p: nat | FreePage(g, p) ensures FreePage(f, p) {
      var b :| Holds(g, b, p) && g[b].free;
      assert Holds(f, b, p);
    }
  }

  lemma PowZero()
    ensures Pow2(0) == 1
  {
  }

  lemma EmptyLists(lists: seq<seq<nat>>, tags: seq<nat>)
    requires |lists| == MEMLEVEL && forall k :: 0 <= k < MEMLEVEL ==> lists[k] == []
    ensures Listed(lists, map[]) && Tagged(tags, map[], -1) && Pages(lists, MEMLEVEL) == 0
  {
    NoPages(lists, MEMLEVEL);
  }

  lemma {:induction false} NoPages(lists: seq<seq<nat>>, k: nat)
    requires k <= |lists| && forall j :: 0 <= j < |lists| ==> lists[j] == []
    ensures Pages(lists, k) == 0
  {
    if k > 0 {
      NoPages(lists, k - 1);
    }
  }

  class Zone {
    const n: nat
    const reserved: nat
    const pPrivate: array<nat>
    const pRef: array<nat>
    var freeList: seq<seq<nat>>
    var nrFree: seq<int>
    var freePages: int
    ghost var forest: Forest

    /** Everything but the tag of block `but` and the page count. */
    ghost predicate Consistent(but: int)
      reads this, pPrivate, pRef
    {
      && pPrivate.Length == pRef.Length == n && pPrivate != pRef
      && Tiles(n, forest) && Coalesced(forest)
      && Listed(freeList, forest)
      && |nrFree| == |freeList| == MEMLEVEL && (forall k :: 0 <= k < MEMLEVEL ==> nrFree[k] == |freeList[k]|)
      && Tagged(pPrivate[..], forest, but)
      && Unreferenced(pRef[..], forest)
    }

    ghost predicate Valid()
      reads this, pPrivate, pRef
    {
      Consistent(-1) && freePages == reserved + Pages(freeList, MEMLEVEL)
    }

    /** The first `first` pages are cut into free blocks of order `level` or more. */
    ghost predicate Booting(first: nat, level: nat)
      reads this, pPrivate, pRef
    {
      && pPrivate.Length == pRef.Length == n && pPrivate != pRef && first <= n
      && Tiles(first, forest) && Coalesced(forest) && InUse(forest) == map[]
      && (forall i :: i in forest ==> forest[i].order >= level)
      && (if level <= TOP then Aligned(first, level) else first == 0)
      && Listed(freeList, forest)
      && |nrFree| == |freeList| == MEMLEVEL && (forall k :: 0 <= k < MEMLEVEL ==> nrFree[k] == |freeList[k]|)
      && Tagged(pPrivate[..], forest, -1)
      && (forall p :: 0 <= p < n ==> pRef[p] == 0)
      && Pages(freeList, MEMLEVEL) == first
    }

    lemma NextLevel(first: nat, level: nat)
      requires Booting(first, level + 1) && level <= TOP
      ensures Booting(first, level) && Pow2(level + 1) == 2 * Pow2(level)
      ensures level < TOP ==> forall i :: i in forest ==> forest[i].order > level
    {
      hide Tiles, Coalesced, Listed, Tagged;
      if level == TOP {
        ZeroAligned(TOP);
      } else {
        AlignedTo(first, level, level + 1);
      }
    }

    /** One round of the inner loop of boot_zone_init. */
    method Lay(first: nat, level: nat)
      requires Booting(first, level) && level <= TOP && first + Pow2(level) <= n
      requires level < TOP ==> forall i :: i in forest ==> forest[i].order > level
      modifies this`freeList, this`nrFree, this`forest, pPrivate
      ensures Booting(first + Pow2(level), level)
    {
      hide Tiles, Coalesced, Aligned, InUse, Listed, Tagged;
      AppendBlock(first, forest, level);
      AlignedShift(first, level);
      PagesUpdate(freeList, MEMLEVEL, level, [first] + freeList[level], 1);
      PushListed(freeList, forest, first, level);
      PushTagged(pPrivate[..], forest, first, level, -1);
      ghost var tags := pPrivate[..];
      pPrivate[first] := level;
      assert pPrivate[..] == tags[first := level];
      freeList := freeList[level := [first] + freeList[level]];
      nrFree := nrFree[level := nrFree[level] + 1];
      forest := forest[first := Block(level, true)];
    }

    lemma BootDone(first: nat)
      requires Booting(first, 0) && first + 1 > n && freePages == reserved + n
      ensures Valid()
    {
      hide Tiles, Coalesced, Listed, Tagged, InUse;
      forall p: nat | FreePage(forest, p) ensures p < n {
        var i :| Holds(forest, i, p) && forest[i].free;
        BlockFacts(first, forest, i);
      }
    }

    /** boot_zone_init: the zone is cut greedily into blocks of falling order, all of them free. */
    constructor (reservedSize: nat, zoneSize: nat)
      ensures n == zoneSize && reserved == reservedSize && fresh(pPrivate) && fresh(pRef)
      ensures Valid() && InUse(forest) == map[] && freePages == reservedSize + zoneSize
    {
      n, reserved := zoneSize, reservedSize;
      pPrivate := new nat[zoneSize](_ => 0);
      pRef := new nat[zoneSize](_ => 0);
      freeList := seq(MEMLEVEL, _ => []);
      nrFree := seq(MEMLEVEL, _ => 0);
      freePages := reservedSize + zoneSize;
      forest := map[];
      new;
      hide Tiles, Coalesced, Aligned, Listed, Tagged, Pages, InUse, Pow2;
      EmptyForest();
      EmptyLists(freeList, pPrivate[..]);
      Boot();
    }

    /** The loops of boot_zone_init over an untouched zone. */
    method Boot()
      requires Booting(0, MEMLEVEL) && freePages == reserved + n
      modifies this`freeList, this`nrFree, this`forest, pPrivate
      ensures Valid() && InUse(forest) == map[]
    {
      hide Tiles, Coalesced, Aligned, Listed, Tagged, Pages, InUse, Pow2;
      var first: nat, left: nat := 0, n;
      for level := MEMLEVEL downto 0
        invariant first + left == n && freePages == reserved + n
        invariant Booting(first, level) && (level < MEMLEVEL ==> left < Pow2(level))
      {
        NextLevel(first, level);
        while left >= Pow2(level)
          invariant first + left == n && freePages == reserved + n
          invariant Booting(first, level) && (level < TOP ==> left < 2 * Pow2(level))
          invariant level < TOP && left >= Pow2(level) ==> forall i :: i in forest ==> forest[i].order > level
          decreases left
        {
          Lay(first, level);
          left := left - Pow2(level);
          first := first + Pow2(level);
        }
      }
      PowZero();
      BootDone(first);
    }

    /** Takes the first block of list k off the list, as the search loop of __rmqueue does. */
    method Unlink(k: nat) returns (page: nat)
      requires Consistent(-1) && k < MEMLEVEL && freeList[k] != []
      modifies this`freeList, this`nrFree, this`forest, pPrivate
      ensures Consistent(-1)
      ensures page in old(forest) && old(forest)[page] == Block(k, true)
      ensures forest == old(forest)[page := Block(k, false)]
      ensures InUse(forest) == InUse(old(forest))[page := k]
      ensures Pages(freeList, MEMLEVEL) == old(Pages(freeList, MEMLEVEL)) - Pow2(k)
    {
      hide Tiles, Coalesced, Unreferenced, Aligned, Pow2, InUse;
      page := freeList[k][0];
      assert page in freeList[k];
      PagesUpdate(freeList, MEMLEVEL, k, freeList[k][1..], -1);
      PopListed(freeList, forest, k);
      PopUnreferenced(pRef[..], forest, page);
      TakeBlock(n, forest, page);
      BlockFacts(n, forest, page);
      freeList := freeList[k := freeList[k][1..]];
      pPrivate[page] := OUT_OF_BUDDY;
      nrFree := nrFree[k := nrFree[k] - 1];
      forest := forest[page := Block(k, false)];
    }

    /** One round of the repair loop of __rmqueue: the upper half goes to its list. */
    method SplitOff(page: nat, k: nat)
      requires Consistent(-1) && page in forest && forest[page] == Block(k + 1, false)
      requires forall p: nat :: page <= p < page + Pow2(k + 1) && p < n ==> pRef[p] == 0
      modifies this`freeList, this`nrFree, this`forest, pPrivate
      ensures Consistent(-1)
      ensures forest == old(Halve(forest, page)) && InUse(forest) == InUse(old(forest))[page := k]
      ensures Pages(freeList, MEMLEVEL) == old(Pages(freeList, MEMLEVEL)) + Pow2(k)
      ensures Pow2(k + 1) == 2 * Pow2(k)
    {
      hide Tiles, Coalesced, Aligned, InUse, Listed, Tagged, Unreferenced;
      BlockFacts(n, forest, page);
      HalveKeeps(n, forest, page);
      HalveListed(freeList, forest, page);
      HalveTagged(pPrivate[..], forest, page);
      var buddy := page + Pow2(k);
      PagesUpdate(freeList, MEMLEVEL, k, [buddy] + freeList[k], 1);
      HalveUnreferenced(page);
      freeList := freeList[k := [buddy] + freeList[k]];
      nrFree := nrFree[k := nrFree[k] + 1];
      ghost var tags := pPrivate[..];
      pPrivate[buddy] := k;
      assert pPrivate[..] == tags[buddy := k];
      forest := Halve(forest, page);
    }

    lemma HalveUnreferenced(page: nat)
      requires Unreferenced(pRef[..], forest) && pRef.Length == n
      requires page in forest && forest[page].order > 0 && page + Pow2(forest[page].order) <= n
      requires forall p: nat :: page <= p < page + Pow2(forest[page].order) && p < n ==> pRef[p] == 0
      ensures Unreferenced(pRef[..], Halve(forest, page))
    {
      forall p: nat | FreePage(Halve(forest, page), p) ensures p < n && pRef[p] == 0 {
        var i :| Holds(Halve(forest, page), i, p) && Halve(forest, page)[i].free;
        if i in forest && forest[i] == Halve(forest, page)[i] {
          assert Holds(forest, i, p);
          assert FreePage(forest, p);
        }
      }
    }

    lemma OnItsList(i: nat)
      requires Consistent(-1) && i in forest && forest[i].free
      ensures forest[i].order < MEMLEVEL && i in freeList[forest[i].order]
    {
      BlockFacts(n, forest, i);
    }

    /** No list of order k or more has a block: no aligned run of 2^k pages is free. */
    lemma NoRunLeft(k: nat)
      requires Valid() && k < MEMLEVEL && forall m :: k <= m < MEMLEVEL ==> freeList[m] == []
      ensures forall i: nat :: Aligned(i, k) && i + Pow2(k) <= n ==> !FreeRun(forest, i, k)
    {
      forall i: nat | Aligned(i, k) && i + Pow2(k) <= n ensures !FreeRun(forest, i, k) {
        if FreeRun(forest, i, k) {
          var l := FreeRunInOneBlock(n, forest, i, k);
          OnItsList(l);
          assert false;
        }
      }
    }

    lemma LeastOnLists(order: nat, k: nat)
      requires Valid() && k < MEMLEVEL && forall m :: order <= m < k ==> freeList[m] == []
      ensures forall i :: i in forest && forest[i].free && forest[i].order >= order ==> forest[i].order >= k
    {
      forall i | i in forest && forest[i].free && forest[i].order >= order ensures forest[i].order >= k {
        OnItsList(i);
      }
    }

    /** __rmqueue: an aligned run of 2^order free pages goes into use as one block, if there is one.  It is cut from a
        free block of the least order that suffices. */
    method Rmqueue(order: int) returns (page: Option<nat>)
      requires Valid()
      modifies this`freeList, this`nrFree, this`freePages, this`forest, pPrivate
      ensures Valid()
      ensures page.None? ==> forest == old(forest) && freeList == old(freeList) && freePages == old(freePages)
                             && pPrivate[..] == old(pPrivate[..])
      ensures page.None? && 0 <= order < MEMLEVEL ==>
                forall i: nat :: Aligned(i, order) && i + Pow2(order) <= n ==> !FreeRun(forest, i, order)
      ensures page.Some? ==>
                && 0 <= order < MEMLEVEL && Aligned(page.value, order) && page.value + Pow2(order) <= n
                && FreeRun(old(forest), page.value, order) && page.value !in InUse(old(forest))
                && InUse(forest) == InUse(old(forest))[page.value := order]
                && freePages == old(freePages) - Pow2(order)
      ensures page.Some? ==>
                && page.value in old(forest) && old(forest)[page.value].free
                && order <= old(forest)[page.value].order
                && forall i :: i in old(forest) && old(forest)[i].free && order <= old(forest)[i].order ==>
                     old(forest)[page.value].order <= old(forest)[i].order
    {
      hide Tiles, Coalesced, Listed, Tagged, Pow2, Aligned, FreeRun, InUse;
      if order < 0 {
        return None;
      }
      var curr: nat := order;
      while curr < MEMLEVEL && freeList[curr] == []
        invariant order <= curr && (curr <= MEMLEVEL || curr == order)
        invariant forall m :: order <= m < curr && m < MEMLEVEL ==> freeList[m] == []
      {
        curr := curr + 1;
      }
      if curr >= MEMLEVEL {
        if order < MEMLEVEL {
          NoRunLeft(order);
        }
        return None;
      }
      LeastOnLists(order, curr);
      var p: nat := Unlink(curr);
      freePages := freePages - Pow2(order);
      FoundBlock(n, old(pRef[..]), old(forest), p, order);
      while curr > order
        invariant order <= curr < MEMLEVEL && Consistent(-1)
        invariant p in forest && forest[p] == Block(curr, false)
        invariant InUse(forest) == InUse(old(forest))[p := curr]
        invariant forall q: nat :: p <= q < p + Pow2(curr) && q < n ==> pRef[q] == 0
        invariant freePages == old(freePages) - Pow2(order)
        invariant freePages == reserved + Pages(freeList, MEMLEVEL) + Pow2(curr) - Pow2(order)
      {
        curr := curr - 1;
        SplitOff(p, curr);
      }
      page := Some(p);
    }

    /** page_is_buddy for the buddy of the block in hand: is it a free block of the same order? */
    method PageIsBuddy(ghost page: nat, buddy: nat, order: nat) returns (r: bool)
      requires Consistent(page) && page in forest && forest[page].order == order && buddy == Buddy(page, order) < n
      ensures r <==> buddy in forest && forest[buddy] == Block(order, true)
    {
      hide Tiles, Coalesced, Listed, Tagged, Unreferenced, Xor;
      TagTestExact(n, pPrivate[..], pRef[..], forest, page);
      r := pPrivate[buddy] == order && pRef[buddy] == 0;
    }

    /** One round of the loop of __free_pages_bulk: the block in hand takes in its free buddy. */
    method Absorb(idx: nat, k: nat) returns (joined: nat)
      requires Consistent(idx) && idx in forest && forest[idx] == Block(k, false) && k < TOP
      requires Buddy(idx, k) in forest && forest[Buddy(idx, k)] == Block(k, true)
      requires forall q: nat :: idx <= q < idx + Pow2(k) && q < n ==> pRef[q] == 0
      modifies this`freeList, this`nrFree, this`forest, pPrivate
      ensures joined == And(idx, Buddy(idx, k)) && Consistent(joined)
      ensures forest == Join(old(forest), idx) && joined in forest && forest[joined] == Block(k + 1, false)
      ensures InUse(forest) - {joined} == InUse(old(forest)) - {idx}
      ensures forall q: nat :: joined <= q < joined + Pow2(k + 1) && q < n ==> pRef[q] == 0
      ensures Pages(freeList, MEMLEVEL) == old(Pages(freeList, MEMLEVEL)) - Pow2(k)
      ensures Pow2(k + 1) == 2 * Pow2(k)
    {
      hide Tiles, Coalesced, Aligned, Listed, Tagged, Unreferenced, Xor, And;
      var buddy := Buddy(idx, k);
      BlockFacts(n, forest, idx);
      BlockFacts(n, forest, buddy);
      BuddyFacts(idx, k);
      JoinKeeps(n, forest, idx);
      JoinListed(freeList, forest, idx);
      JoinTagged(pPrivate[..], forest, idx);
      JoinUnreferenced(n, pRef[..], forest, idx);
      PagesUpdate(freeList, MEMLEVEL, k, Without(freeList[k], buddy), -1);
      assert buddy !in InUse(forest);
      freeList := freeList[k := Without(freeList[k], buddy)];
      nrFree := nrFree[k := nrFree[k] - 1];
      ghost var tags := pPrivate[..];
      pPrivate[buddy] := IN_BUDDY;
      assert pPrivate[..] == tags[buddy := IN_BUDDY];
      forest := Join(forest, idx);
      joined := And(idx, buddy);
    }

    /** The end of __free_pages_bulk: the block in hand becomes free. */
    method Publish(idx: nat, k: nat)
      requires Consistent(idx) && idx in forest && forest[idx] == Block(k, false)
      requires k < TOP ==> !(Buddy(idx, k) in forest && forest[Buddy(idx, k)] == Block(k, true))
      requires forall q: nat :: idx <= q < idx + Pow2(k) && q < n ==> pRef[q] == 0
      modifies this`freeList, this`nrFree, this`forest, pPrivate
      ensures Consistent(-1)
      ensures forest == old(forest)[idx := Block(k, true)] && InUse(forest) == InUse(old(forest)) - {idx}
      ensures Pages(freeList, MEMLEVEL) == old(Pages(freeList, MEMLEVEL)) + Pow2(k)
    {
      hide Tiles, Coalesced, Unreferenced, Listed, Tagged, InUse;
      BlockFacts(n, forest, idx);
      PushListed(freeList, forest, idx, k);
      PushTagged(pPrivate[..], forest, idx, k, idx);
      GiveBlock(n, forest, idx);
      GiveUnreferenced(n, pRef[..], forest, idx);
      PagesUpdate(freeList, MEMLEVEL, k, [idx] + freeList[k], 1);
      ghost var tags := pPrivate[..];
      pPrivate[idx] := k;
      assert pPrivate[..] == tags[idx := k];
      freeList := freeList[k := [idx] + freeList[k]];
      nrFree := nrFree[k := nrFree[k] + 1];
      forest := forest[idx := Block(k, true)];
    }

    /** __free_pages_bulk for a block as __rmqueue gave it, its pages unreferenced.  The loop stops at the
        top order, and an index outside the zone is nobody's buddy. */
    method FreePagesBulk(page: nat, order: nat)
      requires Valid() && page in forest && forest[page] == Block(order, false)
      requires forall q: nat :: page <= q < page + Pow2(order) && q < n ==> pRef[q] == 0
      modifies this`freeList, this`nrFree, this`freePages, this`forest, pPrivate
      ensures Valid()
      ensures InUse(forest) == InUse(old(forest)) - {page}
      ensures freePages == old(freePages) + Pow2(order)
    {
      hide Tiles, Coalesced, Listed, Unreferenced, Aligned, Pow2, InUse, Pages, Xor, And, Join;
      BlockFacts(n, forest, page);
      var idx: nat, k: nat := page, order;
      while k < MEMLEVEL - 1
        invariant k <= TOP && Consistent(idx) && idx in forest && forest[idx] == Block(k, false)
        invariant InUse(forest) - {idx} == InUse(old(forest)) - {page}
        invariant forall q: nat :: idx <= q < idx + Pow2(k) && q < n ==> pRef[q] == 0
        invariant freePages == old(freePages)
        invariant freePages == reserved + Pages(freeList, MEMLEVEL) + Pow2(k) - Pow2(order)
        decreases TOP - k
      {
        var buddy := Xor(idx, Pow2(k));
        if buddy >= n {
          break;
        }
        var isBuddy := PageIsBuddy(idx, buddy, k);
        if !isBuddy {
          break;
        }
        idx := Absorb(idx, k);
        k := k + 1;
      }
      Publish(idx, k);
      freePages := freePages + Pow2(order);
    }
  }
}
