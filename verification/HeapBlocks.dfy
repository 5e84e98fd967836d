/** The list of blocks that user/umalloc.c keeps: a header of MMSIZE bytes and the bytes it serves. */
module HeapBlocks {
  // Cutting a block and joining neighbours keep the bytes covered and the order of addresses.

  /** sizeof(struct mm_node): busy, a red-black node of five words, two list pointers. */
  const MMSIZE: nat := 32

  datatype Block = Block(at: nat, size: nat, busy: bool) {
    function End(): nat { at + MMSIZE + size }
  }

  ghost function Interval(lo: nat, hi: nat): set<nat>
    decreases hi
  {
    if lo >= hi then {} else Interval(lo, hi - 1) + {hi - 1}
  }

  lemma {:induction false} IntervalIs(lo: nat, hi: nat)
    requires lo <= hi
    ensures |Interval(lo, hi)| == hi - lo && forall a: nat :: a in Interval(lo, hi) <==> lo <= a < hi
    decreases hi
  {
    if lo < hi {
      IntervalIs(lo, hi - 1);
    }
  }

  ghost function Span(b: Block): set<nat> {
    Interval(b.at, b.End())
  }

  /** The addresses that belong to some block. */
  ghost function Cover(bs: seq<Block>): set<nat> {
    if bs == [] then {} else Span(bs[0]) + Cover(bs[1..])
  }

  /** The bytes that the blocks take, headers included. */
  ghost function Total(bs: seq<Block>): nat {
    if bs == [] then 0 else MMSIZE + bs[0].size + Total(bs[1..])
  }

  /** The headers of the idle blocks. */
  ghost function Idle(bs: seq<Block>): set<nat> {
    if bs == [] then {} else (if bs[0].busy then {} else {bs[0].at}) + Idle(bs[1..])
  }

  /** Blocks follow one another in memory, above address lo. */
  ghost predicate Chain(bs: seq<Block>, lo: nat) {
    bs == [] || (lo <= bs[0].at && Chain(bs[1..], bs[0].End()))
  }

  ghost function EndOf(bs: seq<Block>, lo: nat): nat {
    if bs == [] then lo else bs[|bs| - 1].End()
  }

  ghost predicate Touch(a: Block, b: Block) {
    !a.busy && !b.busy && a.End() == b.at
  }

  /** No two idle neighbours touch, except perhaps at position i. */
  ghost predicate CoalescedBut(bs: seq<Block>, i: int) {
    forall k :: 0 <= k < |bs| - 1 && k != i - 1 && k != i ==> !Touch(bs[k], bs[k + 1])
  }

  ghost predicate Coalesced(bs: seq<Block>) {
    forall k :: 0 <= k < |bs| - 1 ==> !Touch(bs[k], bs[k + 1])
  }

  lemma {:induction false} CoverAppend(a: seq<Block>, b: seq<Block>)
    ensures Cover(a + b) == Cover(a) + Cover(b)
    ensures Total(a + b) == Total(a) + Total(b)
    ensures Idle(a + b) == Idle(a) + Idle(b)
  {
    if a == [] {
      assert a + b == b;
    } else {
      CoverAppend(a[1..], b);
      assert (a + b)[1..] == a[1..] + b;
    }
  }

  lemma {:induction false} ChainAppend(a: seq<Block>, b: seq<Block>, lo: nat)
    ensures Chain(a + b, lo) <==> Chain(a, lo) && Chain(b, EndOf(a, lo))
    decreases a
  {
    if a == [] {
      assert a + b == b;
    } else {
      ChainAppend(a[1..], b, a[0].End());
      assert (a + b)[1..] == a[1..] + b;
      assert EndOf(a, lo) == EndOf(a[1..], a[0].End());
    }
  }

  lemma {:induction false} ChainBounds(bs: seq<Block>, lo: nat)
    requires Chain(bs, lo)
    ensures lo <= EndOf(bs, lo)
    ensures forall a :: a in Cover(bs) ==> lo <= a < EndOf(bs, lo)
    ensures forall i :: 0 <= i < |bs| ==> lo <= bs[i].at && bs[i].End() <= EndOf(bs, lo) && bs[i].at in Cover(bs)
  {
    if bs != [] {
      ChainBounds(bs[1..], bs[0].End());
      IntervalIs(bs[0].at, bs[0].End());
      assert EndOf(bs, lo) == EndOf(bs[1..], bs[0].End());
      assert forall i :: 0 < i < |bs| ==> bs[i] == bs[1..][i - 1];
    }
  }

  /** Blocks in a chain do not overlap. */
  lemma ChainApart(bs: seq<Block>, lo: nat, i: nat, j: nat)
    requires Chain(bs, lo) && i < j < |bs|
    ensures bs[i].End() <= bs[j].at
  {
    var a, b := bs[..j], bs[j..];
    assert bs == a + b;
    ChainAppend(a, b, lo);
    ChainBounds(a, lo);
    assert a[i] == bs[i] && b[0] == bs[j];
  }

  lemma ChainDistinct(bs: seq<Block>, lo: nat, i: nat)
    requires Chain(bs, lo) && i < |bs|
    ensures forall k :: 0 <= k < |bs| && k != i ==> bs[k].at != bs[i].at && !(bs[i].at <= bs[k].at < bs[i].End())
    ensures forall k :: 0 <= k < |bs| ==> (bs[k].at < bs[i].at <==> k < i)
  {
    forall k | 0 <= k < |bs| && k != i
      ensures bs[k].at != bs[i].at && !(bs[i].at <= bs[k].at < bs[i].End()) && (bs[k].at < bs[i].at <==> k < i)
    {
      if k < i {
        ChainApart(bs, lo, k, i);
      } else {
        ChainApart(bs, lo, i, k);
      }
    }
  }

  /** The bytes are as many as the addresses, so that no byte is counted twice. */
  lemma {:induction false} TotalIsCover(bs: seq<Block>, lo: nat)
    requires Chain(bs, lo)
    ensures Total(bs) == |Cover(bs)|
  {
    if bs != [] {
      TotalIsCover(bs[1..], bs[0].End());
      ChainBounds(bs[1..], bs[0].End());
      IntervalIs(bs[0].at, bs[0].End());
      assert Span(bs[0]) !! Cover(bs[1..]);
      assert |Span(bs[0]) + Cover(bs[1..])| == |Span(bs[0])| + |Cover(bs[1..])|;
    }
  }

  lemma {:induction false} IdleAt(bs: seq<Block>, lo: nat, i: nat)
    requires Chain(bs, lo) && i < |bs|
    ensures bs[i].at in Idle(bs) <==> !bs[i].busy
  {
    var a, b := bs[..i], bs[i + 1..];
    assert bs == a + [bs[i]] + b;
    ChainAppend(a + [bs[i]], b, lo);
    ChainAppend(a, [bs[i]], lo);
    CoverAppend(a + [bs[i]], b);
    CoverAppend(a, [bs[i]]);
    ChainBounds(a, lo);
    ChainBounds(b, bs[i].End());
    IdleInCover(a);
    IdleInCover(b);
  }

  lemma {:induction false} IdleInCover(bs: seq<Block>)
    ensures Idle(bs) <= Cover(bs)
    ensures forall x :: x in Idle(bs) ==> exists i :: 0 <= i < |bs| && !bs[i].busy && bs[i].at == x
  {
    if bs != [] {
      IdleInCover(bs[1..]);
      IntervalIs(bs[0].at, bs[0].End());
      forall x | x in Idle(bs) ensures exists i :: 0 <= i < |bs| && !bs[i].busy && bs[i].at == x {
        if !bs[0].busy && x == bs[0].at {
        } else {
          var i :| 0 <= i < |bs[1..]| && !bs[1..][i].busy && bs[1..][i].at == x;
          assert bs[i + 1] == bs[1..][i];
        }
      }
    }
  }

  /** Inside a block there is no other header. */
  lemma SpanInCover(bs: seq<Block>, lo: nat, i: nat, x: nat)
    requires Chain(bs, lo) && i < |bs| && bs[i].at < x < bs[i].End()
    ensures x in Cover(bs) && x !in Idle(bs) && forall k :: 0 <= k < |bs| ==> bs[k].at != x
  {
    var a, b := bs[..i], bs[i + 1..];
    assert bs == a + [bs[i]] + b;
    CoverAppend(a + [bs[i]], b);
    CoverAppend(a, [bs[i]]);
    assert Cover([bs[i]]) == Span(bs[i]);
    IntervalIs(bs[i].at, bs[i].End());
    ChainDistinct(bs, lo, i);
    IdleInCover(bs);
  }

  /** Everything that one part of the list of blocks contributes. */
  ghost predicate SameSpace(a: seq<Block>, b: seq<Block>) {
    Cover(a) == Cover(b) && Total(a) == Total(b)
  }

  /** One stretch of blocks in place of another. */
  lemma Exchange(a: seq<Block>, m: seq<Block>, m': seq<Block>, b: seq<Block>, lo: nat)
    requires Chain(a + m + b, lo) && Chain(m', EndOf(a, lo)) && m != [] && m' != []
    requires EndOf(m', EndOf(a, lo)) == EndOf(m, EndOf(a, lo)) && SameSpace(m, m')
    ensures Chain(a + m' + b, lo) && SameSpace(a + m + b, a + m' + b)
    ensures EndOf(a + m' + b, lo) == EndOf(a + m + b, lo)
    ensures Chain(m, EndOf(a, lo)) && Chain(a, lo) && Chain(b, EndOf(a + m, lo))
    ensures Idle(a + m + b) == Idle(a) + Idle(m) + Idle(b) && Idle(a + m' + b) == Idle(a) + Idle(m') + Idle(b)
  {
    hide Chain, Cover, Total, Idle;
    ChainAppend(a + m, b, lo);
    ChainAppend(a, m, lo);
    ChainAppend(a + m', b, lo);
    ChainAppend(a, m', lo);
    CoverAppend(a + m, b);
    CoverAppend(a, m);
    CoverAppend(a + m', b);
    CoverAppend(a, m');
    assert EndOf(a + m, lo) == EndOf(m, EndOf(a, lo));
    assert EndOf(a + m', lo) == EndOf(m', EndOf(a, lo));
    assert b != [] ==> EndOf(a + m + b, lo) == EndOf(b, lo) && EndOf(a + m' + b, lo) == EndOf(b, lo);
    assert b == [] ==> a + m + b == a + m && a + m' + b == a + m';
  }

  /** The idle headers around a stretch of blocks lie outside it. */
  lemma AroundMiddle(a: seq<Block>, m: seq<Block>, b: seq<Block>, lo: nat)
    requires Chain(a + m + b, lo) && m != []
    ensures Chain(m, EndOf(a, lo)) && Chain(a, lo) && EndOf(a, lo) <= m[0].at
    ensures forall x :: x in Idle(a) ==> x < m[0].at
    ensures forall x :: x in Idle(b) ==> x >= m[|m| - 1].End()
  {
    ChainAppend(a + m, b, lo);
    ChainAppend(a, m, lo);
    hide Cover, Idle;
    ChainBounds(a, lo);
    ChainBounds(b, m[|m| - 1].End());
    IdleInCover(a);
    IdleInCover(b);
  }

  // ---------------------------------------------------------------- malloc

  /** What malloc makes of the idle block that it found. */
  ghost function Cut(b: Block, size: nat): seq<Block> {
    if size + MMSIZE < b.size
    then [Block(b.at, size, true), Block(b.at + MMSIZE + size, b.size - size - MMSIZE, false)]
    else [b.(busy := true)]
  }

  ghost function Take(bs: seq<Block>, i: nat, size: nat): seq<Block>
    requires i < |bs|
  {
    bs[..i] + Cut(bs[i], size) + bs[i + 1..]
  }

  ghost predicate Fits(b: Block, size: nat) {
    !b.busy && b.size >= size
  }

  /** Block i is idle, fits, and no idle block that fits is smaller. */
  ghost predicate BestFit(bs: seq<Block>, i: nat, size: nat) {
    && i < |bs| && Fits(bs[i], size)
    && forall j :: 0 <= j < |bs| && Fits(bs[j], size) ==> bs[i].size <= bs[j].size
  }

  lemma SpanJoin(b: Block, c: Block)
    requires b.End() == c.at
    ensures Span(b) + Span(c) == Span(Block(b.at, b.size + MMSIZE + c.size, false))
  {
    var j := Block(b.at, b.size + MMSIZE + c.size, false);
    IntervalIs(b.at, b.End());
    IntervalIs(c.at, c.End());
    IntervalIs(j.at, j.End());
    assert forall a :: a in Span(j) <==> a in Span(b) || a in Span(c);
  }

  lemma CoverOne(b: Block)
    ensures Cover([b]) == Span(b) && Total([b]) == MMSIZE + b.size && Idle([b]) == (if b.busy then {} else {b.at})
  {
  }

  lemma CoverTwo(b: Block, c: Block)
    ensures Cover([b, c]) == Span(b) + Span(c) && Total([b, c]) == 2 * MMSIZE + b.size + c.size
    ensures Idle([b, c]) == (if b.busy then {} else {b.at}) + (if c.busy then {} else {c.at})
  {
    assert [b, c] == [b] + [c];
    CoverAppend([b], [c]);
    CoverOne(b);
    CoverOne(c);
  }

  lemma CutSpace(b: Block, size: nat, lo: nat)
    requires size <= b.size && lo <= b.at && !b.busy
    ensures SameSpace([b], Cut(b, size)) && Chain(Cut(b, size), lo) && EndOf(Cut(b, size), lo) == b.End()
    ensures Idle(Cut(b, size)) == if size + MMSIZE < b.size then {b.at + MMSIZE + size} else {}
    ensures Cut(b, size)[0].at == b.at && Cut(b, size)[0].busy && Cut(b, size)[0].size >= size
  {
    CoverOne(b);
    if size + MMSIZE < b.size {
      var c, d := Cut(b, size)[0], Cut(b, size)[1];
      CoverTwo(c, d);
      SpanJoin(c, d);
      assert Span(b) == Span(Block(c.at, c.size + MMSIZE + d.size, false));
      assert Chain([d], c.End());
      assert [c, d][1..] == [d];
    } else {
      CoverOne(b.(busy := true));
      assert Span(b.(busy := true)) == Span(b);
    }
  }

  /** Taking a block that fits: the bytes are the same, the block handed out is at least as large as asked, and
      only its own header leaves the idle set, for that of the rest. */
  lemma TakeKeeps(bs: seq<Block>, i: nat, size: nat, lo: nat)
    requires Chain(bs, lo) && i < |bs| && Fits(bs[i], size)
    requires forall k :: 0 <= k < |bs| - 1 && k != i - 1 ==> !Touch(bs[k], bs[k + 1])
    ensures var t := Take(bs, i, size);
            && Chain(t, lo) && SameSpace(bs, t) && EndOf(t, lo) == EndOf(bs, lo) && Coalesced(t)
            && Idle(t) == Idle(bs) - {bs[i].at}
                          + (if size + MMSIZE < bs[i].size then {bs[i].at + MMSIZE + size} else {})
            && t[i].at == bs[i].at && t[i].busy && t[i].size >= size
  {
    hide Chain, Cover, Total, Idle;
    var a, b := bs[..i], bs[i + 1..];
    assert bs == a + [bs[i]] + b;
    AroundMiddle(a, [bs[i]], b, lo);
    CutSpace(bs[i], size, EndOf(a, lo));
    Exchange(a, [bs[i]], Cut(bs[i], size), b, lo);
    CoverOne(bs[i]);
    TakeCoalesced(bs, i, size);
    assert Take(bs, i, size)[i] == Cut(bs[i], size)[0];
  }

  lemma TakeCoalesced(bs: seq<Block>, i: nat, size: nat)
    requires i < |bs| && Fits(bs[i], size)
    requires forall k :: 0 <= k < |bs| - 1 && k != i - 1 ==> !Touch(bs[k], bs[k + 1])
    ensures Coalesced(Take(bs, i, size))
  {
    var t := Take(bs, i, size);
    var n := |Cut(bs[i], size)|;
    forall k | 0 <= k < |t| - 1 ensures !Touch(t[k], t[k + 1]) {
      if k < i - 1 {
        assert t[k] == bs[k] && t[k + 1] == bs[k + 1];
      } else if k >= i + n {
        assert t[k] == bs[k - n + 1] && t[k + 1] == bs[k - n + 2];
      } else if k == i + n - 1 {
        assert t[k + 1] == bs[i + 1] && t[k] == Cut(bs[i], size)[n - 1];
        assert !Touch(bs[i], bs[i + 1]);
      }
    }
  }

  // ---------------------------------------------------------------- free

  /** IS_LEFT_SIBLING with an idle block, at position i. */
  ghost predicate JoinsLeft(bs: seq<Block>, i: nat)
    requires i < |bs|
  {
    i > 0 && !bs[i - 1].busy && bs[i - 1].End() == bs[i].at
  }

  /** IS_RIGHT_SIBLING with an idle block. */
  ghost predicate JoinsRight(bs: seq<Block>, i: nat)
    requires i < |bs|
  {
    i + 1 < |bs| && !bs[i + 1].busy && bs[i].End() == bs[i + 1].at
  }

  /** What free should leave: block i idle and one with its idle neighbours. */
  ghost function Release(bs: seq<Block>, i: nat): seq<Block>
    requires i < |bs|
  {
    var lo := if JoinsLeft(bs, i) then i - 1 else i;
    var hi := if JoinsRight(bs, i) then i + 1 else i;
    var size := bs[i].size + (if lo < i then MMSIZE + bs[lo].size else 0)
                + (if i < hi then MMSIZE + bs[hi].size else 0);
    bs[..lo] + [Block(bs[lo].at, size, false)] + bs[hi + 1..]
  }

  /** Blocks k and k+1 as one idle block. */
  ghost function Join(bs: seq<Block>, k: nat): seq<Block>
    requires k + 1 < |bs|
  {
    bs[..k] + [Block(bs[k].at, bs[k].size + MMSIZE + bs[k + 1].size, false)] + bs[k + 2..]
  }

  lemma JoinKeeps(bs: seq<Block>, k: nat, lo: nat)
    requires Chain(bs, lo) && k + 1 < |bs| && bs[k].End() == bs[k + 1].at
    ensures var t := Join(bs, k);
            && Chain(t, lo) && SameSpace(bs, t) && EndOf(t, lo) == EndOf(bs, lo)
            && Idle(t) == Idle(bs) - {bs[k + 1].at} + {bs[k].at}
  {
    hide Chain, Cover, Total, Idle;
    var a, b := bs[..k], bs[k + 2..];
    var c, d := bs[k], bs[k + 1];
    var j := Block(c.at, c.size + MMSIZE + d.size, false);
    assert bs == a + [c, d] + b;
    AroundMiddle(a, [c, d], b, lo);
    CoverOne(j);
    CoverTwo(c, d);
    SpanJoin(c, d);
    ChainOne(j, EndOf(a, lo));
    Exchange(a, [c, d], [j], b, lo);
  }

  lemma ChainOne(b: Block, lo: nat)
    requires lo <= b.at
    ensures Chain([b], lo)
  {
  }

  lemma JoinLeftAt(bs: seq<Block>, i: nat)
    requires 0 < i < |bs|
    ensures var t := Join(bs, i - 1);
            && |t| == |bs| - 1 && t[i - 1] == Block(bs[i - 1].at, bs[i - 1].size + MMSIZE + bs[i].size, false)
            && (forall k :: 0 <= k < i - 1 ==> t[k] == bs[k]) && (forall k :: i <= k < |t| ==> t[k] == bs[k + 1])
            && t[..i - 1] == bs[..i - 1] && t[i..] == bs[i + 1..] && (i + 1 < |bs| ==> t[i + 1..] == bs[i + 2..])
  {
  }

  /** After the join with the left neighbour the rest of the work is what it was, and there is no further
      idle neighbour on the left. */
  lemma JoinLeftStep(bs: seq<Block>, i: nat)
    requires i < |bs| && CoalescedBut(bs, i) && JoinsLeft(bs, i)
    ensures var t := Join(bs, i - 1);
            CoalescedBut(t, i - 1) && !JoinsLeft(t, i - 1) && Release(t, i - 1) == Release(bs, i)
            && (JoinsRight(t, i - 1) <==> JoinsRight(bs, i)) && !t[i - 1].busy && |t| == |bs| - 1
  {
    hide Join;
    var t := Join(bs, i - 1);
    JoinLeftAt(bs, i);
    assert i >= 2 ==> !Touch(bs[i - 2], bs[i - 1]);
    forall k | 0 <= k < |t| - 1 && k != i - 2 && k != i - 1 ensures !Touch(t[k], t[k + 1]) {
      assert k < i - 2 ==> !Touch(bs[k], bs[k + 1]);
      assert k >= i ==> !Touch(bs[k + 1], bs[k + 2]);
    }
    hide CoalescedBut;
  }

  lemma JoinRightStep(bs: seq<Block>, i: nat)
    requires i < |bs| && CoalescedBut(bs, i) && !JoinsLeft(bs, i) && JoinsRight(bs, i)
    ensures var t := Join(bs, i);
            CoalescedBut(t, i) && !JoinsLeft(t, i) && !JoinsRight(t, i) && Release(t, i) == Release(bs, i)
            && !t[i].busy && |t| == |bs| - 1
  {
    var t := Join(bs, i);
    assert forall k :: 0 <= k < i ==> t[k] == bs[k];
    assert forall k :: i < k < |t| ==> t[k] == bs[k + 1];
    assert i + 2 < |bs| ==> !Touch(bs[i + 1], bs[i + 2]);
    forall k | 0 <= k < |t| - 1 && k != i - 1 && k != i ensures !Touch(t[k], t[k + 1]) {
      assert k < i - 1 ==> !Touch(bs[k], bs[k + 1]);
      assert k > i ==> !Touch(bs[k + 1], bs[k + 2]);
    }
    assert t[..i] == bs[..i] && t[i + 1..] == bs[i + 2..];
  }

  /** Nothing left to join. */
  lemma ReleaseDone(bs: seq<Block>, i: nat, lo: nat)
    requires i < |bs| && CoalescedBut(bs, i) && !JoinsLeft(bs, i) && !JoinsRight(bs, i) && Chain(bs, lo)
    ensures Release(bs, i) == bs[i := bs[i].(busy := false)] && Coalesced(Release(bs, i))
    ensures Chain(Release(bs, i), lo) && SameSpace(bs, Release(bs, i))
    ensures EndOf(Release(bs, i), lo) == EndOf(bs, lo)
    ensures Idle(Release(bs, i)) == Idle(bs) + {bs[i].at}
  {
    hide Chain, Cover, Total, Idle;
    var t := Release(bs, i);
    var a, b := bs[..i], bs[i + 1..];
    var c := bs[i].(busy := false);
    assert bs == a + [bs[i]] + b;
    assert t == a + [c] + b;
    AroundMiddle(a, [bs[i]], b, lo);
    CoverOne(bs[i]);
    CoverOne(c);
    assert Span(c) == Span(bs[i]);
    ChainOne(c, EndOf(a, lo));
    Exchange(a, [bs[i]], [c], b, lo);
    forall k | 0 <= k < |t| - 1 ensures !Touch(t[k], t[k + 1]) {
      assert k != i - 1 && k != i ==> !Touch(bs[k], bs[k + 1]);
    }
  }

  /** Freeing a block right after malloc handed it out restores the list. */
  lemma FreeUndoesMalloc(bs: seq<Block>, i: nat, size: nat)
    requires Coalesced(bs) && i < |bs| && Fits(bs[i], size)
    ensures Release(Take(bs, i, size), i) == bs
  {
    var t := Take(bs, i, size);
    assert i > 0 ==> !Touch(bs[i - 1], bs[i]) && t[i - 1] == bs[i - 1];
    assert t[i] == Cut(bs[i], size)[0] && t[..i] == bs[..i];
    if size + MMSIZE < bs[i].size {
      assert t[i + 1] == Cut(bs[i], size)[1];
      assert t[i + 2..] == bs[i + 1..];
    } else {
      assert i + 1 < |bs| ==> !Touch(bs[i], bs[i + 1]) && t[i + 1] == bs[i + 1];
      assert t[i + 1..] == bs[i + 1..];
    }
    assert bs == bs[..i] + [bs[i]] + bs[i + 1..];
  }
}
