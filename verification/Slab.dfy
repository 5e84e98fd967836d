/** kern/slab.c: pages cut into objects of one size, with a chain of the free objects threaded through an
    index array. */
module SlabChains {
  import opened Lists

  const SLAB_SIZE: nat := 4096
  const OBJ_DESP: nat := 8        // SLAB_OBJ_DESP: entries of the array inside the descriptor
  const END: nat := 0xFFFF        // BUFCTL_END

  // ---------------------------------------------------------------- layout of a slab

  /** kmem_cache_init: how many objects a page holds.  Small objects share it with the index array. */
  function ObjectsPerSlab(size: nat): nat
    requires size > 0
  {
    if size < 512 then SLAB_SIZE / (size + 2) else SLAB_SIZE / size
  }

  /** Where object i lies in the page. */
  function ObjectAt(size: nat, i: nat): nat
    requires size > 0
  {
    (if size < 512 then 2 * ObjectsPerSlab(size) else 0) + i * size
  }

  /** For every object size: the objects lie in the page, apart from each other and from the index array, which
      is in the page in front of them or in the descriptor, and no index is BUFCTL_END. */
  lemma LayoutFits(size: nat, i: nat, j: nat)
    requires 0 < size <= SLAB_SIZE && i < j < ObjectsPerSlab(size)
    ensures ObjectAt(size, i) + size <= ObjectAt(size, j) && ObjectAt(size, j) + size <= SLAB_SIZE
    ensures size < 512 ==> 2 * ObjectsPerSlab(size) <= ObjectAt(size, i)
    ensures size >= 512 ==> ObjectsPerSlab(size) <= OBJ_DESP
    ensures ObjectsPerSlab(size) < END
  {
    hide ObjectsPerSlab;
    var n := ObjectsPerSlab(size);
    CountFits(size);
    MulStep(i, j, size);
    MulStep(j, n, size);
  }

  lemma MulStep(i: nat, j: nat, size: nat)
    requires i < j
    ensures i * size + size <= j * size
  {
    if i + 1 < j {
      MulStep(i, j - 1, size);
    }
  }

  /** At least one object, and no more than the page holds, exactly when the size is not above SLAB_SIZE. */
  lemma CountFits(size: nat)
    requires size > 0
    ensures ObjectsPerSlab(size) > 0 <==> size <= SLAB_SIZE
    ensures ObjectAt(size, ObjectsPerSlab(size)) <= SLAB_SIZE && ObjectsPerSlab(size) < END
    ensures size >= 512 ==> ObjectsPerSlab(size) <= OBJ_DESP
  {
    var w := if size < 512 then size + 2 else size;
    var n := SLAB_SIZE / w;
    DivBounds(SLAB_SIZE, w);
    assert n == ObjectsPerSlab(size);
    if size < 512 {
      assert n * (size + 2) == n * size + 2 * n;
      DivSmall(SLAB_SIZE, w);
    } else {
      DivLess(w);
    }
  }

  /** No other count does better: n objects, small ones with their indices, fit into a page exactly when there are
      no more of them than the count says. */
  lemma CountIsMaximal(size: nat, n: nat)
    requires size > 0
    ensures n * size + (if size < 512 then 2 * n else 0) <= SLAB_SIZE <==> n <= ObjectsPerSlab(size)
  {
    var w := if size < 512 then size + 2 else size;
    assert n * (size + 2) == n * size + 2 * n;
    DivBounds(SLAB_SIZE, w);
    MulCompare(n, SLAB_SIZE / w, w);
    assert SLAB_SIZE / w == ObjectsPerSlab(size);
  }

  lemma MulCompare(n: nat, m: nat, w: nat)
    requires w > 0 && m * w <= SLAB_SIZE < m * w + w
    ensures n * w <= SLAB_SIZE <==> n <= m
  {
    if n <= m {
      assert n * w <= m * w;
    } else {
      MulStep(m, n, w);
    }
  }

  lemma DivBounds(a: nat, w: nat)
    requires w > 0
    ensures a / w * w <= a < a / w * w + w
    ensures a / w > 0 <==> w <= a
  {
  }

  lemma DivSmall(a: nat, w: nat)
    requires w > 0
    ensures a / w <= a
  {
    DivBounds(a, w);
    if a / w > 0 {
      MulMono(1, w, a / w);
      Commute(w, a / w);
    }
  }

  lemma Commute(a: nat, b: nat)
    ensures a * b == b * a
  {
  }

  lemma DivLess(w: nat)
    requires w >= 512
    ensures SLAB_SIZE / w <= OBJ_DESP
  {
    DivBounds(SLAB_SIZE, w);
    if SLAB_SIZE / w > OBJ_DESP {
      MulMono(OBJ_DESP + 1, SLAB_SIZE / w, w);
    }
  }

  lemma MulMono(a: nat, b: nat, w: nat)
    requires a <= b
    ensures a * w <= b * w
  {
  }

  /** kmem_cache_free finds the index of an object from its address. */
  lemma IndexOfObject(size: nat, i: nat)
    requires 0 < size <= SLAB_SIZE && i < ObjectsPerSlab(size)
    ensures (ObjectAt(size, i) - ObjectAt(size, 0)) / size == i
  {
    assert 0 * size == 0;
    DivExact(i, size);
  }

  lemma DivExact(i: nat, size: nat)
    requires size > 0
    ensures i * size / size == i
  {
    var q := i * size / size;
    DivBounds(i * size, size);
    if q < i {
      MulStep(q, i, size);
    } else if i < q {
      MulStep(i, q, size);
    }
  }

  // ---------------------------------------------------------------- the chain of free objects

  /** The part of struct slab that alloc and free change. */
  datatype Slab = Slab(inuse: nat, free: nat, descs: seq<nat>)

  /** Following descs from f visits exactly `chain` and ends at BUFCTL_END. */
  ghost predicate Follows(descs: seq<nat>, f: nat, chain: seq<nat>)
    decreases |chain|
  {
    if chain == [] then f == END
    else f == chain[0] && f < |descs| && Follows(descs, descs[f], chain[1..])
  }

  /** The chain visits each free object once; with the objects in use they are all. */
  ghost predicate Sound(s: Slab, n: nat, chain: seq<nat>) {
    && |s.descs| == n < END && Follows(s.descs, s.free, chain) && Distinct(chain)
    && (forall x :: x in chain ==> x < n)
    && s.inuse + |chain| == n
  }

  /** cache_grow: the array is 1, 2, ... with BUFCTL_END behind. */
  function FreshDescs(n: nat): seq<nat> {
    seq(n, i => if i + 1 < n then i + 1 else END)
  }

  ghost function From(k: nat, n: nat): seq<nat>
    requires k <= n
  {
    seq(n - k, i requires 0 <= i => k + i)
  }

  lemma FromMembers(k: nat, n: nat)
    requires k <= n
    ensures |From(k, n)| == n - k && forall i :: i in From(k, n) ==> k <= i < n
  {
  }

  lemma {:induction false} FreshFollows(k: nat, n: nat)
    requires k < n
    ensures Follows(FreshDescs(n), k, From(k, n))
    decreases n - k
  {
    assert From(k, n)[0] == k;
    if k + 1 < n {
      FreshFollows(k + 1, n);
      assert From(k, n)[1..] == From(k + 1, n);
      assert FreshDescs(n)[k] == k + 1;
    } else {
      assert From(k, n)[1..] == [];
      assert FreshDescs(n)[k] == END;
    }
  }

  lemma FreshSound(k: nat, n: nat)
    requires k < n < END
    ensures Sound(Slab(k, k, FreshDescs(n)), n, From(k, n))
  {
    FreshFollows(k, n);
  }

  /** A store at an object that is not in the chain does not change the chain. */
  lemma {:induction false} FollowsKept(descs: seq<nat>, f: nat, chain: seq<nat>, x: nat, v: nat)
    requires Follows(descs, f, chain) && x < |descs| && x !in chain
    ensures Follows(descs[x := v], f, chain)
    decreases |chain|
  {
    if chain != [] {
      assert chain[0] in chain;
      assert forall y :: y in chain[1..] ==> y in chain;
      FollowsKept(descs, descs[f], chain[1..], x, v);
    }
  }

  /** The first object of the chain is handed out. */
  lemma PopSound(s: Slab, n: nat, chain: seq<nat>)
    requires Sound(s, n, chain) && chain != []
    ensures s.free == chain[0] && s.free < n
    ensures Sound(Slab(s.inuse + 1, s.descs[s.free], s.descs), n, chain[1..]) && s.free !in chain[1..]
  {
    assert forall y :: y in chain[1..] ==> y in chain;
  }

  /** An object in use goes to the front of the chain. */
  lemma PushSound(s: Slab, n: nat, chain: seq<nat>, x: nat)
    requires Sound(s, n, chain) && x < n && x !in chain
    ensures s.inuse > 0
    ensures Sound(Slab(s.inuse - 1, x, s.descs[x := s.free]), n, [x] + chain)
  {
    FollowsKept(s.descs, s.free, chain, x, s.free);
    ChainBound(chain, n, x);
    assert ([x] + chain)[1..] == chain;
  }

  /** A chain that lacks an object is shorter than the slab. */
  lemma ChainBound(chain: seq<nat>, n: nat, x: nat)
    requires Distinct(chain) && (forall y :: y in chain ==> y < n) && x < n && x !in chain
    ensures |chain| < n
  {
    var all := set y: nat | y in chain;
    SetOf(chain);
    BoundedSet(all + {x}, n);
  }

  lemma {:induction false} SetOf(chain: seq<nat>)
    requires Distinct(chain)
    ensures |set y: nat | y in chain| == |chain|
  {
    if chain != [] {
      SetOf(chain[1..]);
      assert (set y: nat | y in chain) == (set y: nat | y in chain[1..]) + {chain[0]};
      assert chain[0] !in chain[1..];
    } else {
      assert (set y: nat | y in chain) == {};
    }
  }

  /** Every object is in use or in the chain, and when none is in use all are in the chain. */
  lemma AllFree(s: Slab, n: nat, chain: seq<nat>, x: nat)
    requires Sound(s, n, chain) && s.inuse == 0 && x < n
    ensures x in chain
  {
    if x !in chain {
      ChainBound(chain, n, x);
    }
  }

  // ---------------------------------------------------------------- a cache of slabs

  type Chains = map<nat, seq<nat>>

  /** The free objects of the slabs of a list. */
  ghost function FreeIn(list: seq<nat>, chains: Chains): nat {
    if list == [] then 0
    else (if list[0] in chains then |chains[list[0]]| else 0) + FreeIn(list[1..], chains)
  }

  lemma {:induction false} FreeInChange(list: seq<nat>, chains: Chains, k: nat, c: seq<nat>)
    requires Distinct(list) && k in chains
    ensures FreeIn(list, chains[k := c]) == FreeIn(list, chains) + if k in list then |c| - |chains[k]| else 0
  {
    if list != [] {
      FreeInChange(list[1..], chains, k, c);
      if list[0] == k {
        assert k !in list[1..];
      } else {
        assert k in list <==> k in list[1..];
      }
    }
  }

  lemma {:induction false} FreeInOther(list: seq<nat>, chains: Chains, chains': Chains)
    requires forall k :: k in list ==> (k in chains <==> k in chains') && (k in chains ==> chains'[k] == chains[k])
    ensures FreeIn(list, chains') == FreeIn(list, chains)
  {
    if list != [] {
      assert list[0] in list && forall k :: k in list[1..] ==> k in list;
      FreeInOther(list[1..], chains, chains');
    }
  }

  lemma {:induction false} FreeInAppend(a: seq<nat>, b: seq<nat>, chains: Chains)
    ensures FreeIn(a + b, chains) == FreeIn(a, chains) + FreeIn(b, chains)
  {
    if a == [] {
      assert a + b == b;
    } else {
      FreeInAppend(a[1..], b, chains);
      assert (a + b)[1..] == a[1..] + b;
    }
  }

  lemma {:induction false} FreeInNone(list: seq<nat>, chains: Chains)
    requires forall k :: k in list ==> k in chains && chains[k] == []
    ensures FreeIn(list, chains) == 0
  {
    if list != [] {
      assert list[0] in list && forall k :: k in list[1..] ==> k in list;
      FreeInNone(list[1..], chains);
    }
  }

  lemma {:induction false} FreeInWithout(s: seq<nat>, x: nat, chains: Chains)
    requires Distinct(s)
    ensures FreeIn(Without(s, x), chains) == FreeIn(s, chains) - if x in s && x in chains then |chains[x]| else 0
  {
    if s != [] {
      if s[0] == x {
        assert x !in s[1..];
      } else {
        FreeInWithout(s[1..], x, chains);
        var t := [s[0]] + Without(s[1..], x);
        assert t[1..] == Without(s[1..], x);
        assert x in s <==> x in s[1..];
      }
    }
  }

  /** As written, kmem_cache_alloc takes the last slab of slabs_empty without looking (slab.c:177-179).  Its first
      free index is an index of the array exactly when that slab has a free object. */
  lemma TailAsWritten(slabs: map<nat, Slab>, empty: seq<nat>, chains: Chains, n: nat)
    requires empty != [] && forall k :: k in empty ==> k in slabs && k in chains && Sound(slabs[k], n, chains[k])
    ensures var tail := empty[|empty| - 1];
            tail in slabs && (slabs[tail].free < |slabs[tail].descs| <==> chains[tail] != [])
  {
    var tail := empty[|empty| - 1];
    assert tail in empty;
    if chains[tail] != [] {
      PopSound(slabs[tail], n, chains[tail]);
    }
  }

  /** An object of the older of two slabs is free, and the code reads beyond the array of the full newer one. */
  lemma TailExample()
    ensures var older, newer := Slab(1, 1, [END, END]), Slab(2, END, [END, END]);
            Sound(older, 2, [1]) && Sound(newer, 2, []) && newer.free >= |newer.descs|
  {
    assert [1][1..] == [];
  }
}
