/** kern/bio.c in its own form: hash chains, free list and flags changed in place. */
module Buffer {
  import opened Params
  import opened Lists
  import opened BufferState
  import BufferContents

  class BlockCache {
    var bufs: seq<Buf>
    var chains: seq<seq<nat>>
    var free: seq<nat>
    var disk: map<nat, Data>
    ghost var owner: map<nat, nat>

    ghost function Now(): Cache
      reads this
    {
      Cache(bufs, chains, free, owner, disk)
    }

    /** buffer_init: each new buffer goes to the front of the free list. */
    constructor (nbuf: nat, blocks: map<nat, Data>)
      ensures Init(Now()) && Inv(Now()) && |bufs| == nbuf && disk == blocks
    {
      bufs := seq(nbuf, _ => Buf(false, false, false, false, 0, seq(BLKSIZE, _ => 0)));
      disk := blocks;
      chains := seq(HASHSLOT, _ => []);
      free, owner := [], map[];
      new;
      var j := 0;
      while j < nbuf
        invariant 0 <= j <= nbuf && Distinct(free) && forall b :: b in free <==> 0 <= b < j
        invariant |bufs| == nbuf && owner == map[] && disk == blocks
        invariant forall b :: 0 <= b < nbuf ==> !bufs[b].busy && !bufs[b].dirty && !bufs[b].hashed
        invariant chains == seq(HASHSLOT, _ => [])
      {
        DistinctCons(j, free);
        free := [j] + free;
        j := j + 1;
      }
      InitInv(Now());
    }

    /** find_blk_in_hash. */
    method FindBlkInHash(blockno: nat) returns (b: nat)
      requires |chains| == HASHSLOT
      ensures b == Find(Now(), blockno)
    {
      var chain := chains[Hash(blockno)];
      var k := 0;
      while k < |chain|
        invariant 0 <= k <= |chain| && FindIn(bufs, chain[k..], blockno) == Find(Now(), blockno)
      {
        assert chain[k..][0] == chain[k] && chain[k..][1..] == chain[k + 1..];
        if chain[k] < |bufs| && bufs[chain[k]].blockno == blockno {
          return chain[k];
        }
        k := k + 1;
      }
      return |bufs|;
    }

    /** put_blk_in_hash. */
    method PutBlkInHash(b: nat)
      requires b < |bufs| && |chains| == HASHSLOT
      modifies `chains
      ensures chains == old(chains)[Hash(bufs[b].blockno) := old(chains)[Hash(bufs[b].blockno)] + [b]]
    {
      var slot := Hash(bufs[b].blockno);
      chains := chains[slot := chains[slot] + [b]];
    }

    /** One turn of the loop of getblk for process p; |bufs| when the process goes to sleep. */
    method Getblk(p: nat, blockno: nat) returns (b: nat)
      requires Inv(Now())
      modifies this
      ensures Inv(Now()) && |bufs| == old(|bufs|)
      ensures (Now(), b) == TryGet(old(Now()), p, blockno)
      ensures b >= |bufs| <==> old(MustWait(Now(), blockno))
      ensures b >= |bufs| ==> Now() == old(Now())
      ensures b < |bufs| ==> b !in old(owner) && owner == old(owner)[b := p] && free == Without(old(free), b)
      ensures b < |bufs| ==> bufs[b].busy && bufs[b].hashed && bufs[b].blockno == blockno
                             && bufs == old(bufs)[b := bufs[b]] && disk == old(disk)
      ensures b < |bufs| && (bufs[b].valid || bufs[b].dirty) ==>
                old(bufs)[b].hashed && old(bufs)[b].blockno == blockno && bufs[b] == old(bufs)[b].(busy := true)
      ensures b < |bufs| && !(old(bufs)[b].hashed && old(bufs)[b].blockno == blockno) ==>
                old(free) != [] && b == old(free)[0]
    {
      hide Chained, Listed, Find;
      Shapes(Now());
      FindIs(Now(), blockno);
      GetKeeps(Now(), p, blockno);
      OwnersBusy(Now());
      b := FindBlkInHash(blockno);
      if b < |bufs| {
        if bufs[b].busy {
          return |bufs|;
        }
        bufs := bufs[b := bufs[b].(busy := true)];
        free := Without(free, b);
        owner := owner[b := p];
        return b;
      }
      if free == [] {
        return |bufs|;
      }
      b := free[0];
      free := free[1..];
      if bufs[b].hashed {
        var h := Hash(bufs[b].blockno);
        chains := chains[h := Without(chains[h], b)];
      }
      bufs := bufs[b := bufs[b].(busy := true, hashed := true, blockno := blockno, valid := false)];
      PutBlkInHash(b);
      owner := owner[b := p];
      assert Now() == TryGet(old(Now()), p, blockno).0;
    }

    static lemma OwnersBusy(c: Cache)
      requires Inv(c)
      ensures forall b :: b in c.owner <==> 0 <= b < |c.bufs| && c.bufs[b].busy
    {
    }

    /** ide_read_write and the interrupt that completes it: a dirty buffer is written, any other one is read. */
    method IdeReadWrite(p: nat, b: nat)
      requires Inv(Now()) && Enabled(Now(), IoDone(p, b))
      modifies `bufs, `disk
      ensures Inv(Now()) && Now() == Apply(old(Now()), IoDone(p, b))
      ensures bufs == old(bufs)[b := old(bufs)[b].(valid := true, dirty := false, data := bufs[b].data)]
      ensures Stored(disk, bufs[b].blockno) == bufs[b].data
      ensures old(bufs)[b].dirty ==> bufs[b].data == old(bufs)[b].data
      ensures !old(bufs)[b].dirty ==> disk == old(disk)
    {
      OtherKeeps(Now(), IoDone(p, b));
      var x := bufs[b];
      if x.dirty {
        disk := disk[x.blockno := x.data];
      } else {
        x := x.(data := Stored(disk, x.blockno));
      }
      bufs := bufs[b := x.(valid := true, dirty := false)];
      assert Now() == Apply(old(Now()), IoDone(p, b));
    }

    /** bread, up to the turn of getblk that finds a buffer; |bufs| when the process goes to sleep.  The cached copy
        of a dirty block is taken as it is. */
    method Bread(p: nat, blockno: nat) returns (b: nat)
      requires Inv(Now())
      modifies this
      ensures Inv(Now()) && |bufs| == old(|bufs|) && disk == old(disk)
      ensures b >= |bufs| <==> old(MustWait(Now(), blockno))
      ensures b < |bufs| ==> BufferContents.Has(Now(), b, blockno) && bufs[b].busy
      ensures b < |bufs| ==> BufferContents.Bread(old(Now()), p, blockno) == Some((Now(), b))
      ensures b < |bufs| ==> forall v :: BufferContents.Shows(old(Now()), blockno, v) ==> bufs[b].data == v
    {
      hide Inv, TryGet, Apply, MustWait, BufferContents.Shows, BufferContents.Bread;
      BreadIs(Now(), p, blockno);
      GetKeeps(Now(), p, blockno);
      b := Getblk(p, blockno);
      if b < |bufs| && !bufs[b].valid && !bufs[b].dirty {
        IdeReadWrite(p, b);
      }
    }

    static lemma BreadIs(c: Cache, p: nat, blockno: nat)
      requires Inv(c)
      ensures |c.chains| == HASHSLOT && forall b :: b in c.free ==> b < |c.bufs|
      ensures forall b :: 0 <= b < |c.bufs| && c.bufs[b].hashed ==> b in c.chains[Hash(c.bufs[b].blockno)]
      ensures var (c1, b) := TryGet(c, p, blockno);
              BufferContents.Bread(c, p, blockno)
              == if b >= |c.bufs| then None
                 else if c1.bufs[b].valid || c1.bufs[b].dirty then Some((c1, b))
                 else Some((Apply(c1, IoDone(p, b)), b))
      ensures forall v :: BufferContents.Shows(c, blockno, v) ==>
                BufferContents.Bread(c, p, blockno).Some? ==>
                  var (c', b) := BufferContents.Bread(c, p, blockno).value; c'.bufs[b].data == v
    {
      hide Inv, MustWait, TryGet;
      GetKeeps(c, p, blockno);
      forall v | BufferContents.Shows(c, blockno, v) {
        BufferContents.BreadShows(c, p, blockno, v);
      }
    }

    /** brelse: only a buffer with a clean content returns to the free list. */
    method Brelse(p: nat, b: nat)
      requires Inv(Now()) && Enabled(Now(), Release(p, b))
      modifies this
      ensures Inv(Now()) && Now() == Apply(old(Now()), Release(p, b))
      ensures free == if bufs[b].dirty then old(free) else old(free) + [b]
    {
      OtherKeeps(Now(), Release(p, b));
      bufs := bufs[b := bufs[b].(busy := false)];
      owner := owner - {b};
      if bufs[b].valid && !bufs[b].dirty {
        free := free + [b];
      }
      assert Now() == Apply(old(Now()), Release(p, b));
    }
  }
}
