/** kern/slab.c in its own form: the slab lists, the chains and free_objects of one cache, changed in place. */
module SlabCache {
  import opened Lists
  import opened SlabChains

  /** Object i of the slab in page k is in the hands of a caller. */
  ghost predicate Live(chains: Chains, n: nat, meta: bool, k: nat, i: nat) {
    k in chains && i < n && i !in chains[k] && (meta ==> i != 0)
  }

  /** From one state of the chains to the next exactly one object has become live. */
  ghost predicate OneMoreLive(chains: Chains, chains': Chains, n: nat, meta: bool, k: nat, i: nat) {
    && !Live(chains, n, meta, k, i) && Live(chains', n, meta, k, i)
    && forall l: nat, j: nat :: l != k || j != i ==> (Live(chains', n, meta, l, j) <==> Live(chains, n, meta, l, j))
  }

  lemma PopLive(chains: Chains, n: nat, meta: bool, k: nat, s: Slab)
    requires k in chains && chains[k] != [] && Sound(s, n, chains[k]) && (meta ==> 0 !in chains[k])
    ensures OneMoreLive(chains, chains[k := chains[k][1..]], n, meta, k, chains[k][0])
  {
    var c := chains[k];
    assert c[0] in c && c[0] !in c[1..];
    assert forall j :: j != c[0] ==> (j in c[1..] <==> j in c);
  }

  lemma FreshLive(chains: Chains, n: nat, meta: bool, k: nat)
    requires k !in chains && n > (if meta then 1 else 0)
    ensures var first := if meta then 1 else 0;
            From(first, n) != [] && From(first, n)[0] == first
            && OneMoreLive(chains, chains[k := From(first, n)[1..]], n, meta, k, first)
  {
    var first := if meta then 1 else 0;
    var t := From(first, n)[1..];
    forall j: nat | j < n && j != first && (meta ==> j != 0) ensures j in t {
      assert t[j - first - 1] == j;
    }
    assert first !in t;
  }

  ghost predicate SlabsSound(slabs: map<nat, Slab>, chains: Chains, n: nat) {
    && slabs.Keys == chains.Keys
    && forall k :: k in slabs ==> Sound(slabs[k], n, chains[k])
  }

  /** Each slab is on one list, once. */
  ghost predicate Listed(slabs: map<nat, Slab>, partial: seq<nat>, empty: seq<nat>) {
    && Distinct(partial) && Distinct(empty)
    && (forall k :: k in partial ==> k !in empty)
    && (forall k :: k in slabs <==> k in partial || k in empty)
  }

  lemma SoundAdd(slabs: map<nat, Slab>, chains: Chains, n: nat, k: nat, s: Slab, c: seq<nat>)
    requires SlabsSound(slabs, chains, n) && Sound(s, n, c)
    ensures SlabsSound(slabs[k := s], chains[k := c], n)
  {
  }

  lemma ListedAdd(slabs: map<nat, Slab>, partial: seq<nat>, empty: seq<nat>, k: nat, s: Slab)
    requires Listed(slabs, partial, empty) && k !in slabs
    ensures Listed(slabs[k := s], partial + [k], empty) && Listed(slabs[k := s], partial, empty + [k])
  {
  }

  class KmemCache {
    const size: nat
    const n: nat
    const meta: bool       // meta_cache, whose slabs hold their own descriptor as object 0
    var slabs: map<nat, Slab>
    var partial: seq<nat>
    var empty: seq<nat>
    var freeObjects: nat
    ghost var chains: Chains

    ghost predicate Valid()
      reads this
    {
      && 0 < size <= SLAB_SIZE && n == ObjectsPerSlab(size) && (meta ==> n >= 2)
      && SlabsSound(slabs, chains, n) && Listed(slabs, partial, empty)
      && (if meta then empty == [] else partial == [])
      && (meta ==> forall k :: k in chains ==> 0 !in chains[k])
      && freeObjects == FreeIn(partial, chains) + FreeIn(empty, chains)
    }

    /** kmem_cache_init. */
    constructor (size: nat, meta: bool)
      requires 0 < size <= SLAB_SIZE && (meta ==> ObjectsPerSlab(size) >= 2)
      ensures Valid() && this.size == size && this.meta == meta && slabs == map[]
    {
      this.size, this.meta := size, meta;
      n := ObjectsPerSlab(size);
      slabs, partial, empty, freeObjects, chains := map[], [], [], 0, map[];
    }

    /** cache_grow with a fresh page. */
    method CacheGrow(page: nat)
      requires Valid() && page !in slabs
      modifies this
      ensures Valid() && page in slabs && chains == old(chains)[page := From(if meta then 1 else 0, n)]
      ensures slabs.Keys == old(slabs.Keys) + {page} && From(if meta then 1 else 0, n) != []
      ensures freeObjects == old(freeObjects) + n - if meta then 1 else 0
    {
      hide Sound, FreeIn, SlabsSound, Listed, From;
      CountFits(size);
      ghost var first := if meta then 1 else 0;
      FreshSound(first, n);
      NotListed(page);
      FreeInOther(partial, chains, chains[page := From(first, n)]);
      FreeInOther(empty, chains, chains[page := From(first, n)]);
      FreeInAppend(if meta then partial else empty, [page], chains[page := From(first, n)]);
      FreeInOne(page, chains[page := From(first, n)]);
      FromMembers(first, n);
      SoundAdd(slabs, chains, n, page, Slab(first, first, FreshDescs(n)), From(first, n));
      ListedAdd(slabs, partial, empty, page, Slab(first, first, FreshDescs(n)));
      chains := chains[page := From(first, n)];
      var slab := Slab(if meta then 1 else 0, if meta then 1 else 0, FreshDescs(n));
      slabs := slabs[page := slab];
      freeObjects := freeObjects + n;
      if meta {
        partial := partial + [page];
        freeObjects := freeObjects - 1;
      } else {
        empty := empty + [page];
      }
    }

    lemma NotListed(page: nat)
      requires Valid() && page !in slabs
      ensures page !in partial && page !in empty && page !in chains
    {
    }

    static lemma FreeInOne(k: nat, chains: Chains)
      requires k in chains
      ensures FreeIn([k], chains) == |chains[k]|
    {
    }

    /** A list from its tail: the position of a slab with a free object, or -1. */
    method LastWithFree(list: seq<nat>) returns (i: int)
      requires Valid() && (forall k :: k in list ==> k in slabs)
      ensures -1 <= i < |list|
      ensures i >= 0 ==> chains[list[i]] != []
      ensures i < 0 ==> forall k :: k in list ==> chains[k] == []
    {
      i := |list| - 1;
      while i >= 0
        invariant -1 <= i < |list|
        invariant forall j :: i < j < |list| ==> chains[list[j]] == []
      {
        assert list[i] in list;
        FreeMeans(list[i]);
        if slabs[list[i]].free != END {
          return;
        }
        i := i - 1;
      }
    }

    lemma FreeMeans(k: nat)
      requires Valid() && k in slabs
      ensures k in chains && (slabs[k].free == END <==> chains[k] == [])
    {
      if chains[k] != [] {
        PopSound(slabs[k], n, chains[k]);
      }
    }

    /** The search of kmem_cache_alloc, slabs_partitial first, then slabs_empty as the comment in the source
        has it: with a free object somewhere it finds a slab that has one. */
    method FindSlab() returns (k: nat)
      requires Valid() && freeObjects > 0
      ensures k in slabs && k in chains && chains[k] != []
    {
      hide SlabsSound, FreeIn;
      AllSlabs();
      var i := LastWithFree(partial);
      if i >= 0 {
        return partial[i];
      }
      FreeInNoneOf(partial);
      i := LastWithFree(empty);
      if i < 0 {
        FreeInNoneOf(empty);
        assert false;
      }
      return empty[i];
    }

    /** kmem_cache_alloc.  `page` is the answer of the page allocator when a slab is needed, zero for a failure.
        One object that nobody held is handed out; it lies in its page. */
    method Alloc(page: nat) returns (ok: bool, k: nat, i: nat, addr: nat)
      requires Valid() && (page != 0 ==> page !in slabs)
      modifies this
      ensures Valid()
      ensures !ok <==> page == 0 && old(freeObjects) == 0
      ensures !ok ==> slabs == old(slabs) && chains == old(chains) && partial == old(partial) && empty == old(empty)
      ensures ok ==>
                OneMoreLive(old(chains), chains, n, meta, k, i) && addr == ObjectAt(size, i) && addr + size <= SLAB_SIZE
      ensures ok ==> slabs.Keys == old(slabs.Keys) + if old(freeObjects) > 0 then {} else {page}
      ensures ok ==> freeObjects + 1 == if old(freeObjects) > 0 then old(freeObjects) else if meta then n - 1 else n
    {
      hide SlabsSound, FreeIn, ObjectsPerSlab, ObjectAt, OneMoreLive, Listed, From;
      if freeObjects > 0 {
        k := FindSlab();
        PopAt(k);
      } else {
        if page == 0 {
          return false, 0, 0, 0;
        }
        k := page;
        NotListed(page);
        CountFits(size);
        FreshLive(chains, n, meta, page);
        CacheGrow(page);
      }
      ghost var c := chains[k];
      i := PopObject(k);
      assert old(freeObjects) == 0 ==> chains == old(chains)[k := c[1..]];
      addr := ObjectAt(size, i);
      FitsInPage(i);
      ok := true;
    }

    lemma PopAt(k: nat)
      requires Valid() && k in slabs && chains[k] != []
      ensures OneMoreLive(chains, chains[k := chains[k][1..]], n, meta, k, chains[k][0])
    {
      PopLive(chains, n, meta, k, slabs[k]);
    }

    lemma AllSlabs()
      requires Valid()
      ensures forall k :: k in partial || k in empty ==> k in slabs && k in chains
    {
    }

    lemma FreeInNoneOf(list: seq<nat>)
      requires forall k :: k in list ==> k in chains && chains[k] == []
      ensures FreeIn(list, chains) == 0
    {
      FreeInNone(list, chains);
    }

    lemma FitsInPage(i: nat)
      requires 0 < size <= SLAB_SIZE && n == ObjectsPerSlab(size) && i < n
      ensures ObjectAt(size, i) + size <= SLAB_SIZE
    {
      CountFits(size);
      MulStep(i, n, size);
    }

    /** find_slab: the first object of the chain of slab k. */
    method PopObject(k: nat) returns (x: nat)
      requires Valid() && k in slabs && chains[k] != []
      modifies this
      ensures Valid() && x == old(chains[k])[0] && x < n
      ensures slabs.Keys == old(slabs.Keys) && chains == old(chains)[k := old(chains[k])[1..]]
      ensures freeObjects == old(freeObjects) - 1
    {
      hide Sound, FreeIn;
      var s := slabs[k];
      ghost var c := chains[k];
      PopSound(s, n, c);
      assert forall y :: y in c[1..] ==> y in c;
      FreeInChange(partial, chains, k, c[1..]);
      FreeInChange(empty, chains, k, c[1..]);
      x := s.free;
      slabs := slabs[k := Slab(s.inuse + 1, s.descs[s.free], s.descs)];
      chains := chains[k := c[1..]];
      freeObjects := freeObjects - 1;
    }

    /** kmem_cache_free of the object at an address of slab k.  The object is no longer live, and the slab goes
        when it was the last one. */
    method Free(k: nat, addr: nat, ghost i: nat)
      requires Valid() && Live(chains, n, meta, k, i) && addr == ObjectAt(size, i)
      modifies this
      ensures Valid()
      ensures k in old(slabs) && slabs.Keys == old(slabs.Keys) - if old(slabs)[k].inuse == 1 then {k} else {}
      ensures k in old(chains)
      ensures chains == if old(slabs)[k].inuse == 1 then old(chains) - {k} else old(chains)[k := [i] + old(chains)[k]]
      ensures OneMoreLive(chains, old(chains), n, meta, k, i)
      ensures freeObjects == if old(slabs)[k].inuse == 1 then old(freeObjects) + 1 - n else old(freeObjects) + 1
    {
      hide FreeIn, ObjectsPerSlab, ObjectAt, Listed, From;
      ghost var c := chains[k];
      IndexAt(i);
      var idx := (addr - ObjectAt(size, 0)) / size;
      var s := slabs[k];
      PushSound(s, n, c, i);
      PushLive(chains, n, meta, k, i, s);
      PushObject(k, idx);
      if slabs[k].inuse == 0 {
        SlabDestroy(k);
      }
    }

    lemma IndexAt(i: nat)
      requires 0 < size <= SLAB_SIZE && n == ObjectsPerSlab(size) && i < n
      ensures ObjectAt(size, i) >= ObjectAt(size, 0) && (ObjectAt(size, i) - ObjectAt(size, 0)) / size == i
    {
      IndexOfObject(size, i);
    }

    static lemma PushLive(chains: Chains, n: nat, meta: bool, k: nat, i: nat, s: Slab)
      requires Live(chains, n, meta, k, i) && Sound(s, n, chains[k]) && (meta ==> 0 !in chains[k])
      ensures OneMoreLive(chains[k := [i] + chains[k]], chains, n, meta, k, i)
      ensures s.inuse == 1 ==> OneMoreLive(chains - {k}, chains, n, meta, k, i) && !meta
    {
      var c := [i] + chains[k];
      assert forall j :: j in c <==> j == i || j in chains[k];
      if s.inuse == 1 {
        PushSound(s, n, chains[k], i);
        var t := Slab(0, i, s.descs[i := s.free]);
        forall j: nat | j < n ensures j in c {
          AllFree(t, n, c, j);
        }
        assert 0 in c;
      }
    }

    /** The object goes to the front of the chain. */
    method PushObject(k: nat, i: nat)
      requires Valid() && k in slabs && i < n && i !in chains[k] && (meta ==> i != 0)
      modifies this
      ensures Valid() && slabs.Keys == old(slabs.Keys) && k in slabs
      ensures k in old(slabs) && slabs[k].inuse == old(slabs)[k].inuse - 1
      ensures chains == old(chains)[k := [i] + old(chains)[k]] && freeObjects == old(freeObjects) + 1
    {
      hide Sound, FreeIn;
      var s := slabs[k];
      ghost var c := chains[k];
      PushSound(s, n, c, i);
      Entries(s, n, c);
      FreeInChange(partial, chains, k, [i] + c);
      FreeInChange(empty, chains, k, [i] + c);
      slabs := slabs[k := Slab(s.inuse - 1, i, s.descs[i := s.free])];
      chains := chains[k := [i] + c];
      freeObjects := freeObjects + 1;
    }

    /** slab_destroy of a slab without objects in use. */
    method SlabDestroy(k: nat)
      requires Valid() && k in slabs && slabs[k].inuse == 0
      modifies this
      ensures Valid() && slabs == old(slabs) - {k} && chains == old(chains) - {k} && freeObjects == old(freeObjects) - n
    {
      hide SlabsSound, Listed, FreeIn, Without, ObjectsPerSlab;
      AllInChain(k);
      RemoveSound(slabs, chains, n, k);
      RemoveListed(slabs, partial, empty, k);
      RemoveFree(slabs, partial, empty, chains, k);
      partial, empty := Without(partial, k), Without(empty, k);
      freeObjects := freeObjects - (n - slabs[k].inuse);
      slabs := slabs - {k};
      chains := chains - {k};
    }

    static lemma Entries(s: Slab, n: nat, c: seq<nat>)
      requires Sound(s, n, c)
      ensures |s.descs| == n
    {
    }

    static lemma RemoveSound(slabs: map<nat, Slab>, chains: Chains, n: nat, k: nat)
      requires SlabsSound(slabs, chains, n)
      ensures SlabsSound(slabs - {k}, chains - {k}, n)
    {
      hide Sound;
    }

    static lemma RemoveListed(slabs: map<nat, Slab>, partial: seq<nat>, empty: seq<nat>, k: nat)
      requires Listed(slabs, partial, empty)
      ensures Listed(slabs - {k}, Without(partial, k), Without(empty, k))
      ensures partial == [] ==> Without(partial, k) == []
      ensures empty == [] ==> Without(empty, k) == []
    {
      WithoutIs(partial, k);
      WithoutIs(empty, k);
    }

    static lemma RemoveFree(slabs: map<nat, Slab>, partial: seq<nat>, empty: seq<nat>, chains: Chains, k: nat)
      requires Listed(slabs, partial, empty) && k in slabs && k in chains
      ensures FreeIn(Without(partial, k), chains - {k}) + FreeIn(Without(empty, k), chains - {k})
              == FreeIn(partial, chains) + FreeIn(empty, chains) - |chains[k]|
    {
      hide FreeIn;
      WithoutIs(partial, k);
      WithoutIs(empty, k);
      FreeInWithout(partial, k, chains);
      FreeInWithout(empty, k, chains);
      FreeInOther(Without(partial, k), chains, chains - {k});
      FreeInOther(Without(empty, k), chains, chains - {k});
    }

    lemma AllInChain(k: nat)
      requires Valid() && k in slabs && slabs[k].inuse == 0
      ensures k in chains && |chains[k]| == n
    {
    }
  }
}
