/** The block cache of kern/bio.c as a state machine. */
module BufferState {
  // Buffers sit on hash chains and on the free list; they are taken with getblk, released with brelse, and
  // marked dirty by log_write.  Each step is one critical section or one completed disk request.

  import opened Params
  import opened Lists

  const HASHSLOT: nat := 7
  const DEV: nat := 1

  function Hash(blockno: nat): nat {
    (DEV * 5 + blockno) % HASHSLOT
  }

  /** `hashed` says that hash_node is linked; before that blockno means nothing. */
  datatype Buf = Buf(busy: bool, valid: bool, dirty: bool, hashed: bool, blockno: nat, data: Data)

  /** `owner` maps each held buffer to the process that holds it; `disk` has the blocks as they are on the
      disk. */
  datatype Cache = Cache(bufs: seq<Buf>, chains: seq<seq<nat>>, free: seq<nat>, owner: map<nat, nat>,
                         disk: map<nat, Data>)

  datatype Step =
    | Get(p: nat, blockno: nat)              // one turn of the loop of getblk
    | IoDone(p: nat, b: nat)                 // a disk request of the holder has completed
    | LogWrite(p: nat, b: nat, v: Data)      // the holder stores v; log_write, or bwrite before its request
    | Release(p: nat, b: nat)                // brelse

  // ---------------------------------------------------------------- transitions

  /** find_blk_in_hash on the rest of a chain; |bufs| stands for not found. */
  function FindIn(bufs: seq<Buf>, chain: seq<nat>, blockno: nat): nat {
    if chain == [] then |bufs|
    else if chain[0] < |bufs| && bufs[chain[0]].blockno == blockno then chain[0]
    else FindIn(bufs, chain[1..], blockno)
  }

  /** A block of the disk; one that was never written has no bytes. */
  function Stored(disk: map<nat, Data>, blockno: nat): Data {
    if blockno in disk then disk[blockno] else []
  }

  function Find(c: Cache, blockno: nat): nat
    requires |c.chains| == HASHSLOT
  {
    FindIn(c.bufs, c.chains[Hash(blockno)], blockno)
  }

  /** A buffer that is taken from another block still has that block's bytes, but they are not valid. */
  function Reused(x: Buf, blockno: nat): Buf {
    x.(busy := true, valid := false, hashed := true, blockno := blockno)
  }

  /** One turn of getblk: the buffer, or |bufs| for a process that goes to sleep. */
  function TryGet(c: Cache, p: nat, blockno: nat): (Cache, nat)
    requires |c.chains| == HASHSLOT && (forall b :: b in c.free ==> b < |c.bufs|)
    requires forall b :: 0 <= b < |c.bufs| && c.bufs[b].hashed ==> b in c.chains[Hash(c.bufs[b].blockno)]
  {
    var b := Find(c, blockno);
    if b < |c.bufs| then
      if c.bufs[b].busy then (c, |c.bufs|)
      else (c.(bufs := c.bufs[b := c.bufs[b].(busy := true)], free := Without(c.free, b), owner := c.owner[b := p]), b)
    else if c.free == [] then (c, |c.bufs|)
    else
      var v := c.free[0];
      assert v in c.free;
      var h := Hash(c.bufs[v].blockno);
      var chains := if c.bufs[v].hashed then c.chains[h := Without(c.chains[h], v)] else c.chains;
      var slot := Hash(blockno);
      (c.(bufs := c.bufs[v := Reused(c.bufs[v], blockno)], free := c.free[1..],
          chains := chains[slot := chains[slot] + [v]], owner := c.owner[v := p]), v)
  }

  function Apply(c: Cache, a: Step): Cache
    requires a.Get? ==> |c.chains| == HASHSLOT && (forall b :: b in c.free ==> b < |c.bufs|)
                        && forall b :: 0 <= b < |c.bufs| && c.bufs[b].hashed ==> b in c.chains[Hash(c.bufs[b].blockno)]
    requires !a.Get? ==> a.b < |c.bufs|
  {
    match a
    case Get(p, blockno) => TryGet(c, p, blockno).0
    case IoDone(p, b) =>
      var x := c.bufs[b];
      if x.dirty then c.(disk := c.disk[x.blockno := x.data], bufs := c.bufs[b := x.(valid := true, dirty := false)])
      else c.(bufs := c.bufs[b := x.(valid := true, data := Stored(c.disk, x.blockno))])
    case LogWrite(p, b, v) => c.(bufs := c.bufs[b := c.bufs[b].(valid := false, dirty := true, data := v)])
    case Release(p, b) =>
      var x := c.bufs[b].(busy := false);
      c.(bufs := c.bufs[b := x], owner := c.owner - {b}, free := if x.valid && !x.dirty then c.free + [b] else c.free)
  }

  /** Only the holder acts on a buffer; it asks the disk for none that is valid and clean, and releases none
      without a content. */
  ghost predicate Enabled(c: Cache, a: Step) {
    match a
    case Get(p, blockno) => true
    case IoDone(p, b) => b in c.owner && c.owner[b] == p && b < |c.bufs| && !(c.bufs[b].valid && !c.bufs[b].dirty)
    case LogWrite(p, b, _) => b in c.owner && c.owner[b] == p
    case Release(p, b) => b in c.owner && c.owner[b] == p && b < |c.bufs| && (c.bufs[b].valid || c.bufs[b].dirty)
  }

  // ---------------------------------------------------------------- invariant

  /** Every hashed buffer is on its own chain once, and no block has two buffers. */
  ghost predicate Chained(bufs: seq<Buf>, chains: seq<seq<nat>>) {
    && |chains| == HASHSLOT
    && (forall h :: 0 <= h < HASHSLOT ==> Distinct(chains[h]))
    && (forall h: nat, b: nat {:trigger b in chains[h]} :: h < HASHSLOT && b in chains[h] ==>
          b < |bufs| && bufs[b].hashed && Hash(bufs[b].blockno) == h)
    && (forall b :: 0 <= b < |bufs| && bufs[b].hashed ==> b in chains[Hash(bufs[b].blockno)])
    && (forall b, d :: 0 <= b < |bufs| && 0 <= d < |bufs| && bufs[b].hashed && bufs[d].hashed ==>
          (bufs[b].blockno == bufs[d].blockno ==> b == d))
  }

  /** The free list holds exactly the buffers that are neither held nor dirty. */
  ghost predicate Listed(c: Cache) {
    && Distinct(c.free)
    && (forall b :: b in c.free <==> 0 <= b < |c.bufs| && !c.bufs[b].busy && !c.bufs[b].dirty)
    && (forall b :: b in c.owner <==> 0 <= b < |c.bufs| && c.bufs[b].busy)
    && (forall b :: 0 <= b < |c.bufs| && !c.bufs[b].hashed ==> !c.bufs[b].busy && !c.bufs[b].dirty)
    && (forall b :: 0 <= b < |c.bufs| && c.bufs[b].hashed && !c.bufs[b].busy && !c.bufs[b].dirty ==> c.bufs[b].valid)
  }

  ghost predicate Inv(c: Cache) {
    Chained(c.bufs, c.chains) && Listed(c)
  }

  lemma {:induction false} FindInIs(bufs: seq<Buf>, chain: seq<nat>, blockno: nat)
    ensures var b := FindIn(bufs, chain, blockno);
            if b < |bufs| then b in chain && bufs[b].blockno == blockno
            else forall d :: d in chain && d < |bufs| ==> bufs[d].blockno != blockno
  {
    if chain != [] {
      FindInIs(bufs, chain[1..], blockno);
    }
  }

  /** find_blk_in_hash finds the one buffer of the block, if there is one. */
  lemma FindIs(c: Cache, blockno: nat)
    requires Chained(c.bufs, c.chains)
    ensures var b := Find(c, blockno);
            if b < |c.bufs| then c.bufs[b].hashed && c.bufs[b].blockno == blockno
            else forall d :: 0 <= d < |c.bufs| && c.bufs[d].hashed ==> c.bufs[d].blockno != blockno
  {
    FindInIs(c.bufs, c.chains[Hash(blockno)], blockno);
  }

  /** Moving buffer v to the chain of a block that no buffer has. */
  lemma Rehash(bufs: seq<Buf>, chains: seq<seq<nat>>, v: nat, x: Buf)
    requires Chained(bufs, chains) && v < |bufs| && x.hashed
    requires forall d :: 0 <= d < |bufs| && bufs[d].hashed ==> bufs[d].blockno != x.blockno
    ensures var h := Hash(bufs[v].blockno);
            var gone := if bufs[v].hashed then chains[h := Without(chains[h], v)] else chains;
            var slot := Hash(x.blockno);
            Chained(bufs[v := x], gone[slot := gone[slot] + [v]])
  {
    var h := Hash(bufs[v].blockno);
    WithoutIs(chains[h], v);
    var gone := if bufs[v].hashed then chains[h := Without(chains[h], v)] else chains;
    assert forall k :: 0 <= k < HASHSLOT ==> v !in gone[k] && Distinct(gone[k]);
    assert forall k: nat, b: nat :: k < HASHSLOT && b != v ==> (b in gone[k] <==> b in chains[k]);
    var slot := Hash(x.blockno);
    DistinctSnoc(gone[slot], v);
    var t, bufs' := gone[slot := gone[slot] + [v]], bufs[v := x];
    forall k: nat, b: nat | k < HASHSLOT && b in t[k]
      ensures b < |bufs'| && bufs'[b].hashed && Hash(bufs'[b].blockno) == k
    {
      if b != v {
        assert b in chains[k];
      }
    }
    forall b | 0 <= b < |bufs'| && bufs'[b].hashed ensures b in t[Hash(bufs'[b].blockno)] {
      if b != v {
        assert b in chains[Hash(bufs[b].blockno)];
        assert b in gone[Hash(bufs[b].blockno)];
      }
    }
  }

  /** The chains do not depend on the flags. */
  lemma ChainedFlags(bufs: seq<Buf>, bufs': seq<Buf>, chains: seq<seq<nat>>)
    requires Chained(bufs, chains) && |bufs'| == |bufs|
    requires forall b :: 0 <= b < |bufs| ==> bufs'[b].hashed == bufs[b].hashed && bufs'[b].blockno == bufs[b].blockno
    ensures Chained(bufs', chains)
  {
    forall h: nat, b: nat | h < HASHSLOT && b in chains[h]
      ensures b < |bufs'| && bufs'[b].hashed && Hash(bufs'[b].blockno) == h
    {
      assert bufs'[b].blockno == bufs[b].blockno;
    }
    forall b | 0 <= b < |bufs'| && bufs'[b].hashed ensures b in chains[Hash(bufs'[b].blockno)] {
      assert bufs'[b].blockno == bufs[b].blockno;
    }
  }

  lemma Shapes(c: Cache)
    requires Inv(c)
    ensures |c.chains| == HASHSLOT && forall b :: b in c.free ==> b < |c.bufs|
    ensures forall b :: 0 <= b < |c.bufs| && c.bufs[b].hashed ==> b in c.chains[Hash(c.bufs[b].blockno)]
  {
  }

  lemma HitListed(c: Cache, b: nat, p: nat)
    requires Listed(c) && b < |c.bufs| && !c.bufs[b].busy && c.bufs[b].hashed
    ensures Listed(c.(bufs := c.bufs[b := c.bufs[b].(busy := true)], free := Without(c.free, b),
                      owner := c.owner[b := p]))
  {
    WithoutIs(c.free, b);
  }

  lemma MissListed(c: Cache, blockno: nat, p: nat, chains: seq<seq<nat>>)
    requires Listed(c) && c.free != []
    ensures var v := c.free[0];
            && v in c.free && !c.bufs[v].busy && !c.bufs[v].dirty
            && Listed(c.(bufs := c.bufs[v := Reused(c.bufs[v], blockno)], free := c.free[1..],
                         chains := chains, owner := c.owner[v := p]))
  {
    var v := c.free[0];
    assert v in c.free;
    assert Distinct(c.free[1..]) && v !in c.free[1..];
    assert c.free == [v] + c.free[1..];
    assert forall b :: b in c.free[1..] <==> b in c.free && b != v;
  }

  /** A process that holds the block, or a block without a buffer when none is free: getblk waits. */
  ghost predicate MustWait(c: Cache, blockno: nat) {
    (exists d :: 0 <= d < |c.bufs| && c.bufs[d].hashed && c.bufs[d].blockno == blockno && c.bufs[d].busy)
    || (c.free == [] && forall d :: 0 <= d < |c.bufs| && c.bufs[d].hashed ==> c.bufs[d].blockno != blockno)
  }

  /** getblk hands out a buffer for the block that nobody holds, unless it must wait.  A buffer that is valid or
      dirty has been this block's before; otherwise it is the one that was free for the longest time, and not
      valid.  No other buffer changes and the invariant stays. */
  lemma GetKeeps(c: Cache, p: nat, blockno: nat)
    requires Inv(c)
    ensures |c.chains| == HASHSLOT && forall b :: b in c.free ==> b < |c.bufs|
    ensures forall b :: 0 <= b < |c.bufs| && c.bufs[b].hashed ==> b in c.chains[Hash(c.bufs[b].blockno)]
    ensures var (c', b) := TryGet(c, p, blockno);
            && Inv(c') && |c'.bufs| == |c.bufs| && c'.disk == c.disk
            && (b >= |c.bufs| <==> MustWait(c, blockno)) && (b >= |c.bufs| ==> c' == c)
            && (b < |c.bufs| ==>
                  && !c.bufs[b].busy && c'.owner == c.owner[b := p] && c'.free == Without(c.free, b)
                  && c'.bufs == c.bufs[b := c'.bufs[b]] && c'.bufs[b].busy && c'.bufs[b].hashed
                  && c'.bufs[b].blockno == blockno && c'.bufs[b].data == c.bufs[b].data
                  && (c'.bufs[b].valid || c'.bufs[b].dirty ==>
                        c.bufs[b].hashed && c.bufs[b].blockno == blockno && c'.bufs[b] == c.bufs[b].(busy := true))
                  && (c.bufs[b].hashed && c.bufs[b].blockno == blockno ==> c'.bufs[b] == c.bufs[b].(busy := true))
                  && (!(c.bufs[b].hashed && c.bufs[b].blockno == blockno) ==> c.free != [] && b == c.free[0]))
            && (forall d :: 0 <= d < |c.bufs| && c.bufs[d].dirty ==>
                  c'.bufs[d].dirty && c'.bufs[d].blockno == c.bufs[d].blockno)
  {
    hide Chained, Listed, Without, Find;
    Shapes(c);
    HashedOnes(c);
    FindIs(c, blockno);
    var b := Find(c, blockno);
    if b < |c.bufs| {
      if !c.bufs[b].busy {
        HitListed(c, b, p);
        ChainedFlags(c.bufs, c.bufs[b := c.bufs[b].(busy := true)], c.chains);
      }
    } else if c.free != [] {
      WithoutHead(c.free);
      var v := c.free[0];
      assert v in c.free;
      Rehash(c.bufs, c.chains, v, Reused(c.bufs[v], blockno));
      var h := Hash(c.bufs[v].blockno);
      var gone := if c.bufs[v].hashed then c.chains[h := Without(c.chains[h], v)] else c.chains;
      MissListed(c, blockno, p, gone[Hash(blockno) := gone[Hash(blockno)] + [v]]);
    }
  }

  lemma HashedOnes(c: Cache)
    requires Inv(c)
    ensures forall d :: 0 <= d < |c.bufs| && (c.bufs[d].dirty || c.bufs[d].busy) ==> c.bufs[d].hashed
  {
  }

  lemma ReleaseListed(c: Cache, p: nat, b: nat)
    requires Listed(c) && Enabled(c, Release(p, b)) && b < |c.bufs|
    ensures Listed(Apply(c, Release(p, b)))
  {
    if b !in c.free {
      DistinctSnoc(c.free, b);
    }
  }

  lemma FlagsListed(c: Cache, a: Step)
    requires Listed(c) && Enabled(c, a) && (a.IoDone? || a.LogWrite?) && a.b < |c.bufs|
    ensures Listed(Apply(c, a))
  {
  }

  lemma HolderHas(c: Cache, a: Step)
    requires Listed(c) && Enabled(c, a) && !a.Get?
    ensures a.b < |c.bufs|
  {
  }

  /** Marking, completing and releasing keep the invariant. */
  lemma OtherKeeps(c: Cache, a: Step)
    requires Inv(c) && Enabled(c, a) && !a.Get?
    ensures a.b < |c.bufs| && Inv(Apply(c, a)) && |Apply(c, a).bufs| == |c.bufs|
    ensures forall d :: 0 <= d < |c.bufs| ==>
              Apply(c, a).bufs[d].blockno == c.bufs[d].blockno && Apply(c, a).bufs[d].hashed == c.bufs[d].hashed
  {
    hide Chained, Listed, Enabled;
    HolderHas(c, a);
    ChainedFlags(c.bufs, Apply(c, a).bufs, c.chains);
    if a.Release? {
      ReleaseListed(c, a.p, a.b);
    } else {
      FlagsListed(c, a);
    }
  }

  // ---------------------------------------------------------------- runs

  ghost predicate Legal(c: Cache, steps: seq<Step>)
    requires Inv(c)
    decreases |steps|
  {
    steps == [] || (Enabled(c, steps[0]) && (StepKeeps(c, steps[0]); Legal(Apply(c, steps[0]), steps[1..])))
  }

  lemma StepKeeps(c: Cache, a: Step)
    requires Inv(c) && Enabled(c, a)
    ensures |c.chains| == HASHSLOT && (forall b :: b in c.free ==> b < |c.bufs|) && (!a.Get? ==> a.b < |c.bufs|)
    ensures forall b :: 0 <= b < |c.bufs| && c.bufs[b].hashed ==> b in c.chains[Hash(c.bufs[b].blockno)]
    ensures Inv(Apply(c, a)) && |Apply(c, a).bufs| == |c.bufs|
  {
    hide Chained, Listed;
    Shapes(c);
    if a.Get? {
      GetKeeps(c, a.p, a.blockno);
    } else {
      OtherKeeps(c, a);
    }
  }

  ghost function Final(c: Cache, steps: seq<Step>): Cache
    requires Inv(c) && Legal(c, steps)
    decreases |steps|
  {
    if steps == [] then c else (StepKeeps(c, steps[0]); Final(Apply(c, steps[0]), steps[1..]))
  }

  /** buffer_init: all buffers on the free list, none hashed. */
  ghost predicate Init(c: Cache) {
    && c.chains == seq(HASHSLOT, _ => []) && c.owner == map[] && Distinct(c.free)
    && (forall b :: 0 <= b < |c.bufs| ==> !c.bufs[b].busy && !c.bufs[b].dirty && !c.bufs[b].hashed)
    && (forall b :: b in c.free <==> 0 <= b < |c.bufs|)
  }

  lemma InitInv(c: Cache)
    requires Init(c)
    ensures Inv(c)
  {
  }

  lemma {:induction false} RunInv(c: Cache, steps: seq<Step>)
    requires Inv(c) && Legal(c, steps)
    ensures Inv(Final(c, steps)) && |Final(c, steps).bufs| == |c.bufs|
    decreases |steps|
  {
    hide Inv, Apply;
    if steps != [] {
      StepKeeps(c, steps[0]);
      RunInv(Apply(c, steps[0]), steps[1..]);
    }
  }

  /** Over every interleaving: no block has two buffers, so it is held once at most, a buffer is on the chain of
      its block only, and the free list has no held and no dirty buffer. */
  lemma RunSafe(c: Cache, steps: seq<Step>, b: nat, d: nat)
    requires Init(c)
    ensures Inv(c)
    ensures Legal(c, steps) && b < |c.bufs| && d < |c.bufs| ==>
              var t := Final(c, steps);
              && |t.bufs| == |c.bufs|
              && (t.bufs[b].hashed && t.bufs[d].hashed && t.bufs[b].blockno == t.bufs[d].blockno ==> b == d)
              && (b in t.owner && d in t.owner && b != d ==> t.bufs[b].blockno != t.bufs[d].blockno)
              && (t.bufs[b].busy || t.bufs[b].dirty ==> b !in t.free)
              && |t.chains| == HASHSLOT
              && forall h: nat :: h < HASHSLOT ==>
                   (b in t.chains[h] <==> t.bufs[b].hashed && h == Hash(t.bufs[b].blockno))
  {
    InitInv(c);
    if Legal(c, steps) && b < |c.bufs| && d < |c.bufs| {
      RunInv(c, steps);
      InvMeans(Final(c, steps), b, d);
    }
  }

  lemma InvMeans(t: Cache, b: nat, d: nat)
    requires Inv(t) && b < |t.bufs| && d < |t.bufs|
    ensures t.bufs[b].hashed && t.bufs[d].hashed && t.bufs[b].blockno == t.bufs[d].blockno ==> b == d
    ensures b in t.owner && d in t.owner && b != d ==> t.bufs[b].blockno != t.bufs[d].blockno
    ensures t.bufs[b].busy || t.bufs[b].dirty ==> b !in t.free
    ensures |t.chains| == HASHSLOT
    ensures forall h: nat :: h < HASHSLOT ==> (b in t.chains[h] <==> t.bufs[b].hashed && h == Hash(t.bufs[b].blockno))
  {
  }

  /** A buffer that log_write has marked keeps its block until a disk request for it completes: no logged block
      is evicted before it is written. */
  lemma {:induction false} DirtyStays(c: Cache, steps: seq<Step>, b: nat)
    requires Inv(c) && Legal(c, steps) && b < |c.bufs| && c.bufs[b].dirty
    requires forall a :: a in steps && a.IoDone? ==> a.b != b
    ensures var t := Final(c, steps);
            b < |t.bufs| && t.bufs[b].dirty && t.bufs[b].hashed && t.bufs[b].blockno == c.bufs[b].blockno
            && b !in t.free
    decreases |steps|
  {
    hide Inv, Apply;
    if steps == [] {
      InvDirty(c, b);
    } else {
      StepKeeps(c, steps[0]);
      DirtyStep(c, steps[0], b);
      assert forall a :: a in steps[1..] ==> a in steps;
      DirtyStays(Apply(c, steps[0]), steps[1..], b);
    }
  }

  lemma InvDirty(c: Cache, b: nat)
    requires Inv(c) && b < |c.bufs| && c.bufs[b].dirty
    ensures c.bufs[b].hashed && b !in c.free
  {
  }

  lemma DirtyStep(c: Cache, a: Step, b: nat)
    requires Inv(c) && Enabled(c, a) && b < |c.bufs| && c.bufs[b].dirty && (a.IoDone? ==> a.b != b)
    ensures (!a.Get? ==> a.b < |c.bufs|) && |c.chains| == HASHSLOT && (forall b :: b in c.free ==> b < |c.bufs|)
    ensures forall b :: 0 <= b < |c.bufs| && c.bufs[b].hashed ==> b in c.chains[Hash(c.bufs[b].blockno)]
    ensures b < |Apply(c, a).bufs| && Apply(c, a).bufs[b].dirty && Apply(c, a).bufs[b].blockno == c.bufs[b].blockno
  {
    hide Inv, TryGet;
    StepKeeps(c, a);
    if a.Get? {
      GetKeeps(c, a.p, a.blockno);
    }
  }
}
