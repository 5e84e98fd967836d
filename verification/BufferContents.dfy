/** What the block cache of kern/bio.c shows to its readers, over whole runs. */
module BufferContents {
  import opened Params
  import opened Lists
  import opened BufferState

  /** Buffer b has a content of block k. */
  ghost predicate Has(c: Cache, b: nat, k: nat) {
    b < |c.bufs| && c.bufs[b].hashed && c.bufs[b].blockno == k && (c.bufs[b].valid || c.bufs[b].dirty)
  }

  ghost predicate Newer(c: Cache, k: nat) {
    exists b: nat :: Has(c, b, k) && c.bufs[b].dirty
  }

  /** Whoever reads block k gets v: from a buffer, or from the disk unless a buffer of the block is dirty. */
  ghost predicate Shows(c: Cache, k: nat, v: Data) {
    && (forall b: nat :: Has(c, b, k) ==> c.bufs[b].data == v)
    && (!Newer(c, k) ==> Stored(c.disk, k) == v)
  }

  ghost predicate Writes(c: Cache, a: Step, k: nat) {
    a.LogWrite? && a.b < |c.bufs| && c.bufs[a.b].blockno == k
  }

  /** No buffer gains a content of the block, and no dirty one loses it. */
  ghost predicate Follows(c: Cache, c': Cache, k: nat) {
    && (forall d: nat :: Has(c', d, k) ==> Has(c, d, k) && c'.bufs[d].data == c.bufs[d].data)
    && (forall d: nat :: Has(c, d, k) && c.bufs[d].dirty ==> Has(c', d, k) && c'.bufs[d].dirty)
  }

  lemma FollowsShows(c: Cache, c': Cache, k: nat, v: Data)
    requires Follows(c, c', k) && Stored(c'.disk, k) == Stored(c.disk, k) && Shows(c, k, v)
    ensures Shows(c', k, v)
  {
    hide Stored;
    if Newer(c, k) {
      var b: nat :| Has(c, b, k) && c.bufs[b].dirty;
      assert Has(c', b, k);
    }
  }

  lemma GetShows(c: Cache, p: nat, blockno: nat, k: nat, v: Data)
    requires Inv(c) && Shows(c, k, v)
    ensures Enabled(c, Get(p, blockno)) && |c.chains| == HASHSLOT && (forall b :: b in c.free ==> b < |c.bufs|)
    ensures forall b :: 0 <= b < |c.bufs| && c.bufs[b].hashed ==> b in c.chains[Hash(c.bufs[b].blockno)]
    ensures Shows(Apply(c, Get(p, blockno)), k, v)
  {
    GetKeeps(c, p, blockno);
    FreeIsClean(c);
    hide Inv, TryGet, MustWait, Without, Shows, Follows;
    var (c', b) := TryGet(c, p, blockno);
    if b < |c.bufs| {
      OneFollows(c, c', b, k);
      FollowsShows(c, c', k, v);
    }
  }

  lemma OneFollows(c: Cache, c': Cache, b: nat, k: nat)
    requires |c'.bufs| == |c.bufs| && b < |c.bufs| && c'.bufs == c.bufs[b := c'.bufs[b]]
    requires Has(c', b, k) ==> Has(c, b, k) && c'.bufs[b].data == c.bufs[b].data
    requires Has(c, b, k) && c.bufs[b].dirty ==> Has(c', b, k) && c'.bufs[b].dirty
    ensures Follows(c, c', k)
  {
    forall d: nat | d < |c.bufs| && d != b ensures c'.bufs[d] == c.bufs[d] {
    }
  }

  lemma FreeIsClean(c: Cache)
    requires Inv(c)
    ensures c.free != [] ==> c.free[0] < |c.bufs| && !c.bufs[c.free[0]].dirty
  {
    if c.free != [] {
      assert c.free[0] in c.free;
    }
  }

  /** A held buffer is the only one of its block. */
  lemma HeldAlone(c: Cache, b: nat)
    requires Inv(c) && b in c.owner
    ensures b < |c.bufs| && forall d: nat, k: nat :: Has(c, d, k) && d != b ==> c.bufs[b].blockno != k
  {
  }

  lemma OtherShows(c: Cache, a: Step, k: nat, v: Data)
    requires Inv(c) && Enabled(c, a) && !a.Get? && Shows(c, k, v)
    ensures a.b < |c.bufs| && Shows(Apply(c, a), k, if Writes(c, a, k) then a.v else v)
  {
    hide Chained, Listed, Shows, Follows;
    HeldAlone(c, a.b);
    HeldHashed(c, a.b);
    var c' := Apply(c, a);
    if c.bufs[a.b].blockno != k || a.Release? {
      OneFollows(c, c', a.b, k);
      FollowsShows(c, c', k, v);
    } else {
      OwnShows(c, a, k, v);
    }
  }

  lemma OwnShows(c: Cache, a: Step, k: nat, v: Data)
    requires !a.Get? && !a.Release? && a.b < |c.bufs| && c.bufs[a.b].hashed && c.bufs[a.b].blockno == k
    requires Shows(c, k, v) && forall d: nat :: Has(c, d, k) ==> d == a.b
    ensures Shows(Apply(c, a), k, if a.LogWrite? then a.v else v)
  {
    var c' := Apply(c, a);
    assert forall d: nat :: Has(c', d, k) && d != a.b ==> Has(c, d, k);
    if a.LogWrite? {
      assert Has(c', a.b, k) && c'.bufs[a.b].dirty;
    } else if c.bufs[a.b].dirty {
      assert Has(c, a.b, k);
    } else {
      assert !Newer(c, k);
    }
  }

  lemma HeldHashed(c: Cache, b: nat)
    requires Inv(c) && b in c.owner
    ensures b < |c.bufs| && c.bufs[b].hashed
  {
  }

  lemma StepShows(c: Cache, a: Step, k: nat, v: Data)
    requires Inv(c) && Enabled(c, a) && Shows(c, k, v)
    ensures |c.chains| == HASHSLOT && (forall b :: b in c.free ==> b < |c.bufs|) && (!a.Get? ==> a.b < |c.bufs|)
    ensures forall b :: 0 <= b < |c.bufs| && c.bufs[b].hashed ==> b in c.chains[Hash(c.bufs[b].blockno)]
    ensures Shows(Apply(c, a), k, if Writes(c, a, k) then a.v else v)
  {
    hide Inv, Apply, Shows;
    StepKeeps(c, a);
    if a.Get? {
      GetShows(c, a.p, a.blockno, k, v);
    } else {
      OtherShows(c, a, k, v);
    }
  }

  /** The last bytes that the run has written to block k; v if it has written none. */
  ghost function Latest(c: Cache, steps: seq<Step>, k: nat, v: Data): Data
    requires Inv(c) && Legal(c, steps)
    decreases |steps|
  {
    if steps == [] then v
    else
      StepKeeps(c, steps[0]);
      Latest(Apply(c, steps[0]), steps[1..], k, if Writes(c, steps[0], k) then steps[0].v else v)
  }

  lemma {:induction false} RunShows(c: Cache, steps: seq<Step>, k: nat, v: Data)
    requires Inv(c) && Legal(c, steps) && Shows(c, k, v)
    ensures Shows(Final(c, steps), k, Latest(c, steps, k, v))
    decreases |steps|
  {
    hide Inv, Apply, Shows, Enabled;
    if steps != [] {
      StepKeeps(c, steps[0]);
      StepShows(c, steps[0], k, v);
      RunShows(Apply(c, steps[0]), steps[1..], k, if Writes(c, steps[0], k) then steps[0].v else v);
    }
  }

  /** Over every interleaving from boot: a buffer with a content, valid or dirty, has the bytes last written to its
      block, and so does the disk unless that buffer is dirty.  Hence a valid clean buffer agrees with the
      disk. */
  lemma Coherent(c: Cache, steps: seq<Step>, k: nat)
    requires Init(c)
    ensures Inv(c)
    ensures Legal(c, steps) ==>
              var t, v := Final(c, steps), Latest(c, steps, k, Stored(c.disk, k));
              && (forall b: nat :: Has(t, b, k) ==>
                    t.bufs[b].data == v && (t.bufs[b].dirty || Stored(t.disk, k) == v))
              && (!Newer(t, k) ==> Stored(t.disk, k) == v)
  {
    InitInv(c);
    if Legal(c, steps) {
      var v := Stored(c.disk, k);
      InitShows(c, k);
      RunShows(c, steps, k, v);
      RunInv(c, steps);
      hide *;
      CleanIsStored(Final(c, steps), k, Latest(c, steps, k, v));
    }
  }

  lemma InitShows(c: Cache, k: nat)
    requires Init(c)
    ensures Shows(c, k, Stored(c.disk, k))
  {
    assert forall b: nat :: !Has(c, b, k);
  }

  lemma CleanIsStored(c: Cache, k: nat, v: Data)
    requires Inv(c) && Shows(c, k, v)
    ensures forall b: nat :: Has(c, b, k) ==> c.bufs[b].data == v && (c.bufs[b].dirty || Stored(c.disk, k) == v)
    ensures !Newer(c, k) ==> Stored(c.disk, k) == v
  {
    OneBuffer(c);
    hide Inv, Stored;
  }

  lemma OneBuffer(c: Cache)
    requires Inv(c)
    ensures forall b, d :: 0 <= b < |c.bufs| && 0 <= d < |c.bufs| && c.bufs[b].hashed && c.bufs[d].hashed ==>
              (c.bufs[b].blockno == c.bufs[d].blockno ==> b == d)
  {
  }

  // ---------------------------------------------------------------- bread

  /** bread: getblk, and a disk request when the buffer has no content.  None stands for a process that sleeps. */
  ghost function Bread(c: Cache, p: nat, blockno: nat): (r: Option<(Cache, nat)>)
    requires Inv(c)
    ensures r.Some? ==> Inv(r.value.0) && Enabled(r.value.0, Release(p, r.value.1))
    ensures r.Some? ==> r.value.1 < |c.bufs| == |r.value.0.bufs|
    ensures r.Some? ==> forall q: nat, d: nat :: Enabled(c, Release(q, d)) ==> Enabled(r.value.0, Release(q, d))
  {
    GetKeeps(c, p, blockno);
    HoldersStay(c, p, blockno);
    hide Inv, TryGet;
    var (c1, b) := TryGet(c, p, blockno);
    if b >= |c.bufs| then None
    else if c1.bufs[b].valid || c1.bufs[b].dirty then Some((c1, b))
    else
      OtherKeeps(c1, IoDone(p, b));
      Some((Apply(c1, IoDone(p, b)), b))
  }

  lemma HoldersStay(c: Cache, p: nat, blockno: nat)
    requires Inv(c)
    ensures |c.chains| == HASHSLOT && forall b :: b in c.free ==> b < |c.bufs|
    ensures forall b :: 0 <= b < |c.bufs| && c.bufs[b].hashed ==> b in c.chains[Hash(c.bufs[b].blockno)]
    ensures var (c1, b) := TryGet(c, p, blockno);
            b < |c.bufs| ==> c1.bufs == c.bufs[b := c1.bufs[b]]
                             && forall q: nat, d: nat :: Enabled(c, Release(q, d)) ==>
                                  d != b && Enabled(c1, Release(q, d))
  {
    GetKeeps(c, p, blockno);
    HeldAreBusy(c);
    hide Inv, TryGet, Without, MustWait;
  }

  lemma HeldAreBusy(c: Cache)
    requires Inv(c)
    ensures forall d :: d in c.owner ==> d < |c.bufs| && c.bufs[d].busy
  {
  }

  lemma BreadShows(c: Cache, p: nat, k: nat, v: Data)
    requires Inv(c) && Shows(c, k, v)
    ensures var r := Bread(c, p, k);
            && (r.None? <==> MustWait(c, k))
            && (r.Some? ==>
                  var (c', b) := r.value;
                  c'.bufs[b].busy && Has(c', b, k) && c'.bufs[b].data == v && Shows(c', k, v) && c'.disk == c.disk)
  {
    GetKeeps(c, p, k);
    GetShows(c, p, k, k, v);
    hide Inv, TryGet, Shows, MustWait, Without;
    var (c1, b) := TryGet(c, p, k);
    if b < |c.bufs| {
      if c1.bufs[b].valid || c1.bufs[b].dirty {
        ShownIn(c1, b, k, v);
      } else {
        StepShows(c1, IoDone(p, b), k, v);
        ShownIn(Apply(c1, IoDone(p, b)), b, k, v);
      }
    }
  }

  lemma ShownIn(c: Cache, b: nat, k: nat, v: Data)
    requires Shows(c, k, v) && Has(c, b, k)
    ensures c.bufs[b].data == v
  {
  }

  /** After every interleaving from boot: bread gives a buffer with the bytes last written to the block, held by the
      caller, unless it has to wait. */
  lemma BreadGivesLatest(c: Cache, steps: seq<Step>, p: nat, k: nat)
    requires Init(c)
    ensures Inv(c)
    ensures Legal(c, steps) ==> Inv(Final(c, steps))
    ensures Legal(c, steps) ==>
              var t := Final(c, steps);
              var r := Bread(t, p, k);
              && (r.None? <==> MustWait(t, k))
              && (r.Some? ==>
                    var (t', b) := r.value;
                    && Has(t', b, k) && t'.bufs[b].busy
                    && t'.bufs[b].data == Latest(c, steps, k, Stored(c.disk, k)))
  {
    InitInv(c);
    if Legal(c, steps) {
      var v := Stored(c.disk, k);
      InitShows(c, k);
      RunShows(c, steps, k, v);
      RunInv(c, steps);
      hide *;
      BreadShows(Final(c, steps), p, k, Latest(c, steps, k, v));
    }
  }

  // ---------------------------------------------------------------- replacement

  /** Buffer x is free, and y is not, or has not been for as long as x. */
  ghost predicate Behind(c: Cache, x: nat, y: nat) {
    x in c.free && x != y && y < |c.bufs| && (y in c.free ==> Ahead(c.free, x, y))
  }

  lemma StepBehind(c: Cache, a: Step, x: nat, y: nat)
    requires Inv(c) && Enabled(c, a) && Behind(c, x, y)
    ensures |c.chains| == HASHSLOT && (forall b :: b in c.free ==> b < |c.bufs|) && (!a.Get? ==> a.b < |c.bufs|)
    ensures forall b :: 0 <= b < |c.bufs| && c.bufs[b].hashed ==> b in c.chains[Hash(c.bufs[b].blockno)]
    ensures var c' := Apply(c, a);
            x in c'.free ==>
              Behind(c', x, y) && c'.bufs[y].hashed == c.bufs[y].hashed && c'.bufs[y].blockno == c.bufs[y].blockno
  {
    hide Apply, Inv, Ahead, Distinct;
    StepKeeps(c, a);
    FreeDistinct(c);
    if a.Get? {
      GetBehind(c, a.p, a.blockno, x, y);
    } else {
      ReleaseBehind(c, a, x, y);
    }
  }

  lemma FreeDistinct(c: Cache)
    requires Inv(c)
    ensures Distinct(c.free)
  {
  }

  lemma GetBehind(c: Cache, p: nat, blockno: nat, x: nat, y: nat)
    requires Inv(c) && Behind(c, x, y)
    ensures |c.chains| == HASHSLOT && (forall b :: b in c.free ==> b < |c.bufs|)
    ensures forall b :: 0 <= b < |c.bufs| && c.bufs[b].hashed ==> b in c.chains[Hash(c.bufs[b].blockno)]
    ensures var c' := Apply(c, Get(p, blockno));
            x in c'.free ==>
              Behind(c', x, y) && c'.bufs[y].hashed == c.bufs[y].hashed && c'.bufs[y].blockno == c.bufs[y].blockno
  {
    GetKeeps(c, p, blockno);
    FreeDistinct(c);
    hide Inv, TryGet, MustWait, Without;
    var (c', b) := TryGet(c, p, blockno);
    if b < |c.bufs| && x in c'.free {
      WithoutIs(c.free, b);
      if b != y {
        if y in c.free {
          AheadWithout(c.free, x, y, b);
        }
      } else {
        HeadAhead(c.free, x, y);
      }
    }
  }

  lemma HeadAhead(s: seq<nat>, x: nat, y: nat)
    requires Distinct(s) && x in s && (y in s ==> Ahead(s, x, y))
    ensures s[0] != y
  {
  }

  lemma ReleaseBehind(c: Cache, a: Step, x: nat, y: nat)
    requires Inv(c) && Enabled(c, a) && !a.Get? && Behind(c, x, y)
    ensures a.b < |c.bufs|
    ensures var c' := Apply(c, a);
            Behind(c', x, y) && c'.bufs[y].hashed == c.bufs[y].hashed && c'.bufs[y].blockno == c.bufs[y].blockno
  {
    OtherKeeps(c, a);
    HeldNotFree(c, a.b);
    hide Inv, Ahead;
    if a.Release? && (y in c.free || y == a.b) {
      AheadSnoc(c.free, x, y, a.b);
    }
  }

  lemma HeldNotFree(c: Cache, b: nat)
    requires Inv(c) && b in c.owner
    ensures b !in c.free
  {
  }

  /** Buffer x is free throughout the run. */
  ghost predicate StaysFree(c: Cache, steps: seq<Step>, x: nat)
    requires Inv(c) && Legal(c, steps)
    decreases |steps|
  {
    x in c.free && (steps == [] || (StepKeeps(c, steps[0]); StaysFree(Apply(c, steps[0]), steps[1..], x)))
  }

  /** Over every run: as long as a buffer lies on the free list, none that came there after it, or was in use, is
      given to another block. */
  lemma {:induction false} LeastRecentlyUsed(c: Cache, steps: seq<Step>, x: nat, y: nat)
    requires Inv(c) && Legal(c, steps) && Behind(c, x, y) && StaysFree(c, steps, x)
    ensures var t := Final(c, steps);
            |t.bufs| == |c.bufs| && t.bufs[y].hashed == c.bufs[y].hashed && t.bufs[y].blockno == c.bufs[y].blockno
    decreases |steps|
  {
    hide Inv, Apply, Ahead, Enabled;
    if steps != [] {
      StepKeeps(c, steps[0]);
      StepBehind(c, steps[0], x, y);
      assert x in Apply(c, steps[0]).free;
      LeastRecentlyUsed(Apply(c, steps[0]), steps[1..], x, y);
    }
  }
}
