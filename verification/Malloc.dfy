/** user/umalloc.c: a heap of blocks with a red-black tree of the idle ones, keyed by size.  malloc takes the
    least idle block that fits, free joins a block with the idle blocks on both sides. */
module Malloc {
  import opened Params
  import opened RbShape
  import opened HeapBlocks
  import R = RbTree

  /** ROUNDUP(size + MMSIZE, PGSIZE) in uint32_t. */
  function GrowSize(size: nat): nat {
    var a := ((size + MMSIZE) % WORD + PGSIZE - 1) % WORD;
    a - a % PGSIZE
  }

  /** The region asked from sbrk has room for the block exactly when the sum does not wrap. */
  lemma GrowFits(size: nat)
    requires size < WORD
    ensures GrowSize(size) >= size + MMSIZE <==> size + MMSIZE + PGSIZE - 1 < WORD
    ensures size + MMSIZE + PGSIZE - 1 < WORD ==>
              GrowSize(size) % PGSIZE == 0 && GrowSize(size) < size + MMSIZE + PGSIZE
  {
    if size + MMSIZE + PGSIZE - 1 >= WORD {
      if size + MMSIZE < WORD {
        assert (size + MMSIZE) % WORD == size + MMSIZE;
        assert (size + MMSIZE + PGSIZE - 1) % WORD == size + MMSIZE + PGSIZE - 1 - WORD;
      } else {
        assert (size + MMSIZE) % WORD == size + MMSIZE - WORD;
      }
    }
  }

  ghost predicate AllBelow(s: seq<Item>, k: nat) {
    forall i :: 0 <= i < |s| ==> s[i].1 < k
  }

  lemma SearchStep(b: seq<Item>, l: seq<Item>, x: Item, r: seq<Item>, a: seq<Item>, k: nat)
    requires Sorted(b + (l + [x] + r) + a) && AllBelow(b, k) && AllAbove(a, k)
    ensures k < x.1 ==> AllAbove([x] + r + a, k)
    ensures k > x.1 ==> AllBelow(b + l + [x], k)
  {
    var s := b + (l + [x] + r) + a;
    var p := |b| + |l|;
    assert s[p] == x;
    assert forall i :: 0 <= i < |r| ==> s[p + 1 + i] == r[i];
    assert forall i :: 0 <= i < |l| ==> s[|b| + i] == l[i];
  }

  /** One step of MallocSearch. */
  lemma SearchOrder(c: Context, t: Tree, k: nat)
    requires t.Node? && Sorted(Before(c) + Inorder(t) + After(c))
    requires AllBelow(Before(c), k) && AllAbove(After(c), k)
    ensures k < t.k ==> var d := InLeft(c, t.n, t.k, t.c, t.r); AllBelow(Before(d), k) && AllAbove(After(d), k)
    ensures k > t.k ==> var d := InRight(t.l, t.n, t.k, t.c, c); AllBelow(Before(d), k) && AllAbove(After(d), k)
  {
    hide Sorted, AllBelow, AllAbove;
    SearchStep(Before(c), Inorder(t.l), (t.n, t.k), Inorder(t.r), After(c), k);
  }

  /** Among the items, y carries the least key that is not below k; nil says there is none. */
  ghost predicate LeastAbove(nil: Ref, s: seq<Item>, k: nat, y: Ref) {
    if y == nil then AllBelow(s, k)
    else exists i :: 0 <= i < |s| && s[i].0 == y && s[i].1 >= k
                     && forall j :: 0 <= j < |s| && s[j].1 >= k ==> s[i].1 <= s[j].1
  }

  lemma FirstAbove(nil: Ref, b: seq<Item>, a: seq<Item>, k: nat)
    requires Sorted(b + a) && AllBelow(b, k) && AllAbove(a, k)
    requires forall i :: 0 <= i < |a| ==> a[i].0 != nil
    ensures LeastAbove(nil, b + a, k, First(nil, a))
  {
    if a != [] {
      assert (b + a)[|b|] == a[0];
    }
  }

  lemma EqualFound(nil: Ref, c: Context, t: Tree)
    requires t.Node? && t.n != nil
    ensures LeastAbove(nil, Inorder(Plug(c, t)), t.k, t.n)
  {
    InorderPlug(c, t);
    InorderNode(t);
    assert Inorder(Plug(c, t))[|Before(c)| + |Inorder(t.l)|] == (t.n, t.k);
  }

  lemma TopBounds(nil: Ref, k: nat)
    ensures AllBelow(Before(Top), k) && AllAbove(After(Top), k) && LeastAbove(nil, Inorder(Leaf), k, nil)
  {
  }

  lemma AfterNotNil(nil: Ref, c: Context)
    requires nil !in Nodes(Plug(c, Leaf)) && Once(Plug(c, Leaf))
    ensures Inorder(Plug(c, Leaf)) == Before(c) + After(c)
    ensures forall i :: 0 <= i < |After(c)| ==> After(c)[i].0 != nil
  {
    hide Nodes, Once, Plug, Before, After;
    InorderPlug(c, Leaf);
    assert Before(c) + Inorder(Leaf) + After(c) == Before(c) + After(c);
    ItemsAre(nil, Plug(c, Leaf), nil);
    forall i | 0 <= i < |After(c)| ensures After(c)[i].0 != nil {
      assert (Before(c) + After(c))[|Before(c)| + i] == After(c)[i];
      assert After(c)[i] in Before(c) + After(c);
    }
  }

  lemma HoleNeighbour(nil: Ref, c: Context)
    requires !c.Top?
    ensures c.InLeft? ==> First(nil, After(c)) == c.n
    ensures c.InRight? ==> Fill(c, Leaf).r == Leaf && After(c) == Inorder(Fill(c, Leaf).r) + After(c.up)
  {
  }

  /** The search fell off the tree at the hole of c. */
  lemma FellOff(nil: Ref, c: Context, k: nat)
    requires AllBelow(Before(c), k) && AllAbove(After(c), k)
    requires Sorted(Inorder(Plug(c, Leaf))) && nil !in Nodes(Plug(c, Leaf))
    requires Once(Plug(c, Leaf)) && !c.Top?
    ensures LeastAbove(nil, Inorder(Plug(c, Leaf)), k, First(nil, After(c)))
  {
    hide Nodes, Once, Plug, Before, After, Inorder, Sorted, AllBelow, AllAbove, LeastAbove, First;
    AfterNotNil(nil, c);
    FirstAbove(nil, Before(c), After(c), k);
  }

  /** The headers in memory say what the blocks are; the node of a busy block is unlinked. */
  ghost predicate Mirrors(nil: Ref, list: seq<Ref>, busy: map<Ref, bool>, mem: R.Memory, bs: seq<Block>) {
    && |list| == |bs|
    && forall i :: 0 <= i < |bs| ==>
         && list[i] == bs[i].at && list[i] in busy && list[i] in mem
         && busy[list[i]] == bs[i].busy && mem[list[i]].key == bs[i].size
         && (bs[i].busy ==> mem[list[i]].left == nil && mem[list[i]].right == nil)
  }

  /** Memory changed, but not at the headers of the list except at x. */
  ghost predicate HeadersKept(nil: Ref, list: seq<Ref>, busy: map<Ref, bool>, busy': map<Ref, bool>, mem: R.Memory,
                              mem': R.Memory, bs: seq<Block>, i: int)
    requires Mirrors(nil, list, busy, mem, bs)
  {
    forall k :: 0 <= k < |list| && k != i ==>
      && list[k] in busy' && list[k] in mem' && busy'[list[k]] == bs[k].busy && mem'[list[k]].key == bs[k].size
      && (bs[k].busy ==> mem'[list[k]].left == nil && mem'[list[k]].right == nil)
  }

  /** The list of headers with one more behind position i. */
  function InsertAfter(list: seq<Ref>, i: nat, x: Ref): seq<Ref>
    requires i < |list|
  {
    list[..i + 1] + [x] + list[i + 1..]
  }

  function RemoveAt(list: seq<Ref>, i: nat): seq<Ref>
    requires i < |list|
  {
    list[..i] + list[i + 1..]
  }

  function IndexOf(list: seq<Ref>, x: Ref): (i: nat)
    requires x in list
    ensures i < |list| && list[i] == x
  {
    if list[0] == x then 0 else 1 + IndexOf(list[1..], x)
  }

  lemma MirrorsCut(nil: Ref, list: seq<Ref>, busy: map<Ref, bool>, mem: R.Memory, bs: seq<Block>, i: nat, size: nat,
                   busy': map<Ref, bool>, mem': R.Memory)
    requires Mirrors(nil, list, busy, mem, bs) && i < |bs| && size + MMSIZE < bs[i].size
    requires HeadersKept(nil, list, busy, busy', mem, mem', bs, i)
    requires var x, y := list[i], list[i] + MMSIZE + size;
             && x in busy' && x in mem' && busy'[x] && mem'[x].key == size && mem'[x].left == nil
             && mem'[x].right == nil
             && y in busy' && y in mem' && !busy'[y] && mem'[y].key == bs[i].size - size - MMSIZE
    ensures Mirrors(nil, InsertAfter(list, i, list[i] + MMSIZE + size), busy', mem', Take(bs, i, size))
  {
    var l, t := InsertAfter(list, i, list[i] + MMSIZE + size), Take(bs, i, size);
    forall k | 0 <= k < |t| ensures
         && l[k] == t[k].at && l[k] in busy' && l[k] in mem'
         && busy'[l[k]] == t[k].busy && mem'[l[k]].key == t[k].size
         && (t[k].busy ==> mem'[l[k]].left == nil && mem'[l[k]].right == nil)
    {
      if k < i {
        assert l[k] == list[k] && t[k] == bs[k];
      } else if k > i + 1 {
        assert l[k] == list[k - 1] && t[k] == bs[k - 1];
      }
    }
  }

  lemma MirrorsTake(nil: Ref, list: seq<Ref>, busy: map<Ref, bool>, mem: R.Memory, bs: seq<Block>, i: nat, size: nat,
                    busy': map<Ref, bool>, mem': R.Memory)
    requires Mirrors(nil, list, busy, mem, bs) && i < |bs| && !(size + MMSIZE < bs[i].size)
    requires HeadersKept(nil, list, busy, busy', mem, mem', bs, i)
    requires var x := list[i];
             && x in busy' && x in mem' && busy'[x] && mem'[x].key == bs[i].size && mem'[x].left == nil
             && mem'[x].right == nil
    ensures Mirrors(nil, list, busy', mem', Take(bs, i, size))
  {
    var t := Take(bs, i, size);
    assert forall k :: 0 <= k < |t| && k != i ==> t[k] == bs[k];
  }

  lemma MirrorsJoin(nil: Ref, list: seq<Ref>, busy: map<Ref, bool>, mem: R.Memory, bs: seq<Block>, i: nat,
                    busy': map<Ref, bool>, mem': R.Memory)
    requires Mirrors(nil, list, busy, mem, bs) && i + 1 < |bs|
    requires HeadersKept(nil, list, busy, busy', mem, mem', bs, i)
    requires var x := list[i];
             x in busy' && x in mem' && !busy'[x] && mem'[x].key == bs[i].size + MMSIZE + bs[i + 1].size
    ensures Mirrors(nil, RemoveAt(list, i + 1), busy', mem', Join(bs, i))
  {
    var l, t := RemoveAt(list, i + 1), Join(bs, i);
    forall k | 0 <= k < |t| ensures
         && l[k] == t[k].at && l[k] in busy' && l[k] in mem'
         && busy'[l[k]] == t[k].busy && mem'[l[k]].key == t[k].size
         && (t[k].busy ==> mem'[l[k]].left == nil && mem'[l[k]].right == nil)
    {
      if k < i {
        assert l[k] == list[k] && t[k] == bs[k];
      } else if k > i {
        assert l[k] == list[k + 1] && t[k] == bs[k + 1];
      }
    }
  }

  lemma MirrorsGrow(nil: Ref, list: seq<Ref>, busy: map<Ref, bool>, mem: R.Memory, bs: seq<Block>, b: Block,
                    busy': map<Ref, bool>, mem': R.Memory)
    requires Mirrors(nil, list, busy, mem, bs) && HeadersKept(nil, list, busy, busy', mem, mem', bs, |bs|)
    requires b.at in busy' && b.at in mem' && !b.busy && !busy'[b.at] && mem'[b.at].key == b.size
    ensures Mirrors(nil, list + [b.at], busy', mem', bs + [b])
  {
  }

  lemma MirrorsFreed(nil: Ref, list: seq<Ref>, busy: map<Ref, bool>, mem: R.Memory, bs: seq<Block>, i: nat,
                     busy': map<Ref, bool>, mem': R.Memory)
    requires Mirrors(nil, list, busy, mem, bs) && i < |bs| && HeadersKept(nil, list, busy, busy', mem, mem', bs, i)
    requires var x := list[i]; x in busy' && x in mem' && !busy'[x] && mem'[x].key == bs[i].size
    ensures Mirrors(nil, list, busy', mem', bs[i := bs[i].(busy := false)])
  {
  }

  /** A store to header x and an insertion into the tree with nodes `ns` change no other header. */
  lemma OthersStay(nil: Ref, list: seq<Ref>, busy: map<Ref, bool>, mem: R.Memory, bs: seq<Block>, i: nat,
                   x: Ref, f: Fields, ns: set<Ref>, mem': R.Memory)
    requires Mirrors(nil, list, busy, mem, bs) && R.Kept(ns, mem[x := f], mem') && R.KeysKept(mem[x := f], mem')
    requires forall k :: 0 <= k < |bs| && k != i ==> list[k] != x && (bs[k].busy ==> list[k] !in ns)
    ensures HeadersKept(nil, list, busy, busy[x := false], mem, mem', bs, i)
  {
  }

  ghost predicate SomeFits(bs: seq<Block>, size: nat) {
    exists j :: 0 <= j < |bs| && Fits(bs[j], size)
  }

  // ---------------------------------------------------------------- free as written

  /** The loop of free turns a second time, and then inserts a node that is in the tree already
      (user/umalloc.c:115), exactly when both neighbours are idle and touch the block.  Merge removes the
      node first. */
  lemma SecondInsertAsWritten(bs: seq<Block>, i: nat)
    requires i < |bs| && CoalescedBut(bs, i) && (JoinsLeft(bs, i) || JoinsRight(bs, i))
    ensures var j := if JoinsLeft(bs, i) then i - 1 else i; var t := Join(bs, j);
            && !t[j].busy
            && (JoinsLeft(t, j) || JoinsRight(t, j) <==> JoinsLeft(bs, i) && JoinsRight(bs, i))
  {
    if JoinsLeft(bs, i) {
      JoinLeftStep(bs, i);
    } else {
      JoinRightStep(bs, i);
    }
  }

  /** What the second insertion starts from: the node is the whole tree, was painted red, and the descent has
      ended at its empty right place and linked it under itself. */
  ghost function LinkedTwice(nil: Ref, n: Ref, k: nat): R.Memory {
    map[nil := Fields(nil, nil, nil, 0, Black)]
    + Links(nil, Node(Leaf, n, k, Red, Leaf), nil)[n := Fields(nil, n, n, k, Red)]
  }

  /** No tree allows that, and the loop of the fixup never ends there: after one round node and memory stay
      as they are with the guard true. */
  lemma InsertTwiceExample(nil: Ref, n: Ref, k: nat, rounds: nat)
    requires n != nil
    ensures forall t: Tree :: Once(t) && nil !in Nodes(t) && n in Nodes(t) ==> !R.Holds(nil, LinkedTwice(nil, n, k), t)
    ensures var (a, x) := R.FixupRounds(nil, LinkedTwice(nil, n, k), n, rounds); R.GoesOn(a, x)
  {
    forall t: Tree | Once(t) && nil !in Nodes(t) && n in Nodes(t) ensures Links(nil, t, nil)[n].right != n {
      var c, s := Locate(t, n);
      OncePlug(c, s);
      FocusLinks(nil, c, s);
      LinksNode(nil, s, ParentOf(c, nil));
      RootIn(nil, s.r);
    }
    TwiceRounds(nil, n, k, rounds);
  }

  /** The node points to itself on every side. */
  ghost function Knot(nil: Ref, n: Ref, k: nat): R.Memory {
    LinkedTwice(nil, n, k)[n := Fields(n, n, n, k, Red)]
  }

  lemma FirstRound(nil: Ref, n: Ref, k: nat)
    requires n != nil
    ensures R.FixupRound(nil, LinkedTwice(nil, n, k), n) == (Knot(nil, n, k), n)
  {
    var a := LinkedTwice(nil, n, k);
    assert a[n] == Fields(nil, n, n, k, Red) && a[nil].color == Black;
    var c := R.Painted(R.Painted(a, n, Black), n, Red);
    assert c == a;
    assert R.LeftDefined(a, n);
    assert R.LeftStores(nil, a, n) == Knot(nil, n, k);
  }

  lemma LaterRounds(nil: Ref, n: Ref, k: nat)
    requires n != nil
    ensures R.FixupRound(nil, Knot(nil, n, k), n) == (Knot(nil, n, k), n)
  {
    var a := Knot(nil, n, k);
    assert R.Painted(R.Painted(R.Painted(a, n, Black), n, Black), n, Red) == a;
  }

  lemma {:induction false} TwiceRounds(nil: Ref, n: Ref, k: nat, rounds: nat)
    requires n != nil
    ensures R.FixupRounds(nil, LinkedTwice(nil, n, k), n, rounds)
            == (if rounds == 0 then LinkedTwice(nil, n, k) else Knot(nil, n, k), n)
  {
    hide R.FixupRound, Knot, LinkedTwice;
    if rounds > 0 {
      TwiceRounds(nil, n, k, rounds - 1);
      FirstRound(nil, n, k);
      LaterRounds(nil, n, k);
    }
  }

  /** The last lines of free insert the node with the colour it had (user/umalloc.c:125-128), into the empty
      place c.  The tree that the code ends with is red-black exactly when that colour is red, or the tree is
      empty, or two rotations happen to bring the node to the top of its red parent and black grandparent:
      it is an inner grandchild and its uncle is empty. */
  lemma ColourAsWritten(c: Context, n: Ref, k: nat, col: Color)
    requires Rb(Plug(c, Leaf)) && !IsRed(Plug(c, Leaf))
    ensures Rb(Fixup(c, Node(Leaf, n, k, col, Leaf))) <==> col.Red? || c.Top? || InnerGrandchild(c)
  {
    hide Fixup, Plug;
    var t := Node(Leaf, n, k, col, Leaf);
    RbOpen(c, Leaf);
    if col.Red? {
      FixupRb(c, t);
    } else if c.Top? {
      TopFixup(c, t);
    } else if !ParentRed(c) {
      BlackUnderBlack(c, t);
    } else {
      BlackUnderRed(c, t);
    }
  }

  ghost predicate InnerGrandchild(c: Context) {
    ParentRed(c) && !c.up.Top? && (c.InLeft? <==> c.up.InRight?) && SiblingOf(c.up).Leaf?
  }

  lemma TopFixup(c: Context, t: Tree)
    requires c.Top? && t.Node?
    ensures Fixup(c, t) == Blacken(t)
  {
  }

  lemma BlackUnderBlack(c: Context, t: Tree)
    requires !c.Top? && !ParentRed(c) && CtxRb(c, 0) && t.Node? && t.l.Leaf? && t.r.Leaf? && t.c.Black?
    ensures !Rb(Fixup(c, t))
  {
    hide Plug;
    if Rb(Fixup(c, t)) {
      PlugUp(c, t);
      BlackenedParts(c.up, Fill(c, t));
      assert Blacken(Fill(c, t)) == Fill(c, t);
      if c.up.Top? {
        PlugTop(c.up, Fill(c, t));
      }
      assert false;
    }
  }

  lemma BlackUnderRed(c: Context, t: Tree)
    requires ParentRed(c) && CtxRb(c, 0) && t.Node? && t.l.Leaf? && t.r.Leaf? && t.c.Black?
    ensures Rb(Fixup(c, t)) <==> InnerGrandchild(c)
  {
    hide Plug;
    LeafChild(c);
    var g := c.up;
    if IsRed(SiblingOf(g)) {
      if Rb(Fixup(c, t)) {
        FixupParts(g.up, Recoloured(c, t));
        assert false;
      }
    } else {
      var s := Lifted(c, t);
      BlackenedRoot(g.up, s);
      if c.InLeft? <==> g.InRight? {
        RbPlug(g.up, s);
      }
    }
  }

  /** Below a red parent everything is empty but the red uncle, if there is one. */
  lemma LeafChild(c: Context)
    requires ParentRed(c) && CtxRb(c, 0)
    ensures !c.up.Top? && c.up.c.Black? && SiblingOf(c).Leaf? && CtxRb(c.up.up, 1)
    ensures Rb(SiblingOf(c.up)) && Bh(SiblingOf(c.up)) == 0 && (SiblingOf(c.up).Leaf? || IsRed(SiblingOf(c.up)))
  {
    assert CtxRb(c.up, 0);
  }

  lemma BlackenedRoot(c: Context, s: Tree)
    requires s.Node? && s.c.Black?
    ensures Rb(Blacken(Plug(c, s))) ==> Rb(s)
    ensures Rb(Plug(c, s)) && !IsRed(Plug(c, s)) ==> Rb(Blacken(Plug(c, s)))
  {
    if Rb(Blacken(Plug(c, s))) {
      BlackenedParts(c, s);
    }
  }

  /** The smallest failing input: a black node under a black root. */
  lemma ColourExample(n: Ref, k: nat, g: Ref, m: nat)
    ensures var c := InLeft(Top, g, m, Black, Leaf);
            Rb(Plug(c, Leaf)) && !IsRed(Plug(c, Leaf)) && !Rb(Fixup(c, Node(Leaf, n, k, Black, Leaf)))
  {
    var c := InLeft(Top, g, m, Black, Leaf);
    ColourAsWritten(c, n, k, Black);
  }

  class Heap {
    const T: R.RbTree
    var list: seq<Ref>
    var busy: map<Ref, bool>
    ghost var blocks: seq<Block>

    /** The tree holds exactly the idle blocks; all but the absence of idle neighbours. */
    ghost predicate Sound()
      reads this, T
    {
      && T.Valid() && Mirrors(T.nil, list, busy, T.mem, blocks)
      && Chain(blocks, 1) && EndOf(blocks, 1) <= WORD
      && Nodes(T.tree) == Idle(blocks) && T.nil !in Cover(blocks)
    }

    ghost predicate Valid()
      reads this, T
    {
      Sound() && Coalesced(blocks)
    }

    /** What malloc does on its first call. */
    constructor (sentinel: Ref)
      ensures Valid() && blocks == [] && T.nil == sentinel && fresh(T)
    {
      T := new R.RbTree(sentinel);
      list, busy, blocks := [], map[], [];
      new;
      InitialTree();
    }

    lemma InitialTree()
      requires T.Linked() && T.tree == Leaf
      ensures T.Valid() && Nodes(T.tree) == {}
    {
    }

    /** The node that the search returned is a best fitting block, or none fits. */
    lemma Found(size: nat, y: Ref) returns (i: nat)
      requires Sound() && LeastAbove(T.nil, Inorder(T.tree), size, y)
      ensures y == T.nil ==> !SomeFits(blocks, size)
      ensures y != T.nil ==> BestFit(blocks, i, size) && blocks[i].at == y
    {
      hide Links, Nodes, Once, Inorder, Rb, Sorted, Chain, Idle, Cover;
      T.Items();
      IdleInCover(blocks);
      forall j | 0 <= j < |blocks| && Fits(blocks[j], size)
        ensures (blocks[j].at, blocks[j].size) in Inorder(T.tree)
      {
        IdleAt(blocks, 1, j);
        assert blocks[j].at in Nodes(T.tree);
      }
      i := 0;
      if y != T.nil {
        var s := Inorder(T.tree);
        var m :| 0 <= m < |s| && s[m].0 == y && s[m].1 >= size
                 && forall j :: 0 <= j < |s| && s[j].1 >= size ==> s[m].1 <= s[j].1;
        assert s[m] in s;
        i :| 0 <= i < |blocks| && !blocks[i].busy && blocks[i].at == y;
        forall j | 0 <= j < |blocks| && Fits(blocks[j], size) ensures blocks[i].size <= blocks[j].size {
          assert (blocks[j].at, blocks[j].size) in s;
        }
      }
    }

    /** MallocSearch: best fit. */
    method MallocSearch(key: nat) returns (y: Ref)
      requires T.Valid()
      ensures LeastAbove(T.nil, Inorder(T.tree), key, y)
    {
      hide Links, Nodes, Once, Inorder, Plug, After, Before, Rb, Sorted, AllBelow, AllAbove;
      var tx := T.root;
      PlugTop(Top, T.tree);
      T.At(Top, T.tree);
      TopBounds(T.nil, key);
      ghost var c, t := Top, T.tree;
      if T.root == T.nil {
        return T.nil;
      }
      T.Children(c, t);
      var left := false;
      var ty := tx;
      while tx != T.nil
        invariant T.tree == Plug(c, t) && tx == RootOf(T.nil, t) && (tx == T.nil <==> t.Leaf?)
        invariant AllBelow(Before(c), key) && AllAbove(After(c), key)
        invariant if c.Top? then t.Node? else ty == c.n && (left <==> c.InLeft?)
        decreases t
      {
        T.At(c, t);
        T.Children(c, t);
        InorderPlug(c, t);
        SearchOrder(c, t, key);
        ty := tx;
        if key > T.mem[tx].key {
          left := false;
          tx := T.mem[tx].right;
          c, t := InRight(t.l, t.n, t.k, t.c, c), t.r;
        } else if key < T.mem[tx].key {
          left := true;
          tx := T.mem[tx].left;
          c, t := InLeft(c, t.n, t.k, t.c, t.r), t.l;
        } else {
          EqualFound(T.nil, c, t);
          return tx;
        }
        PlugUp(c, t);
      }
      FellOff(T.nil, c, key);
      HoleNeighbour(T.nil, c);
      if left {
        return ty;
      }
      PlugUp(c, Leaf);
      T.Children(c.up, Fill(c, Leaf));
      y := T.Succeeder(ty, c.up, Fill(c, Leaf));
    }

    /** No block fits: a fresh region becomes the last block. */
    method Grow(size: nat, region: Ref)
      requires Valid() && size + MMSIZE + PGSIZE - 1 < WORD && region != 0
      requires EndOf(blocks, 1) <= region && region + GrowSize(size) <= WORD
      requires T.nil !in Interval(region, region + GrowSize(size))
      modifies this, T
      ensures Sound() && GrowSize(size) >= size + MMSIZE
      ensures blocks == old(blocks) + [Block(region, GrowSize(size) - MMSIZE, false)]
    {
      hide Links, Nodes, Once, Inorder, Rb, Sorted, Chain, Idle, Cover, LeastAbove, GrowSize, Interval, R.RbTree.Linked;
      var tsize := GrowSize(size);
      GrowFits(size);
      Room(region, tsize);
      forall k | 0 <= k < |blocks| ensures blocks[k].at in Nodes(T.tree) <==> !blocks[k].busy {
        IdleAt(blocks, 1, k);
      }
      ghost var list0, busy0, mem0 := list, busy, T.mem;
      ghost var f, b := Fields(T.nil, T.nil, T.nil, tsize - MMSIZE, Red), Block(region, tsize - MMSIZE, false);
      T.Store(region, Fields(T.nil, T.nil, T.nil, tsize - MMSIZE, Red));
      busy := busy[region := false];
      list := list + [region];
      ghost var _ := T.Insert(region);
      OthersStay(T.nil, list0, busy0, mem0, blocks, |blocks|, region, f, Nodes(T.tree), T.mem);
      MirrorsGrow(T.nil, list0, busy0, mem0, blocks, b, busy, T.mem);
      hide Mirrors;
      blocks := blocks + [b];
    }

    /** A fresh block behind all others. */
    lemma Room(region: Ref, tsize: nat)
      requires Sound() && EndOf(blocks, 1) <= region && region + tsize <= WORD && tsize >= MMSIZE
      requires T.nil !in Interval(region, region + tsize)
      ensures region !in Nodes(T.tree) && region != T.nil
      ensures forall k :: 0 <= k < |blocks| ==> blocks[k].at != region && blocks[k].at != T.nil
      ensures var bs := blocks + [Block(region, tsize - MMSIZE, false)];
              Chain(bs, 1) && EndOf(bs, 1) <= WORD && Idle(bs) == Idle(blocks) + {region} && T.nil !in Cover(bs)
    {
      hide Links, Once, Inorder, Rb, Sorted, Chain, Idle, Cover, Interval;
      var b := Block(region, tsize - MMSIZE, false);
      ChainBounds(blocks, 1);
      IdleInCover(blocks);
      ChainOne(b, EndOf(blocks, 1));
      ChainAppend(blocks, [b], 1);
      CoverAppend(blocks, [b]);
      CoverOne(b);
      IntervalIs(region, region + tsize);
    }

    /** Where the headers lie: of the idle blocks in the tree, of the found block and of its rest elsewhere. */
    lemma Headers(i: nat, size: nat)
      requires Sound() && i < |blocks|
      ensures blocks[i].at == list[i] && list[i] != T.nil && list[i] in T.mem && list[i] in list
      ensures forall k :: 0 <= k < |blocks| && k != i ==> list[k] != list[i] && (list[k] < list[i] <==> k < i)
      ensures forall k :: 0 <= k < |blocks| ==> (list[k] in Nodes(T.tree) <==> !blocks[k].busy)
      ensures forall k :: 0 <= k < |blocks| ==> list[k] != T.nil
      ensures size + MMSIZE < blocks[i].size ==>
                var y := list[i] + MMSIZE + size;
                y !in Nodes(T.tree) && y != T.nil && forall k :: 0 <= k < |blocks| ==> list[k] != y
    {
      hide Links, Once, Inorder, Rb, Sorted, Chain, Idle, Cover;
      ChainDistinct(blocks, 1, i);
      ChainBounds(blocks, 1);
      forall k | 0 <= k < |blocks| ensures list[k] in Nodes(T.tree) <==> !blocks[k].busy {
        IdleAt(blocks, 1, k);
      }
      IdleInCover(blocks);
      if size + MMSIZE < blocks[i].size {
        SpanInCover(blocks, 1, i, list[i] + MMSIZE + size);
      }
    }

    /** The rest of the found block becomes an idle block behind it. */
    method SplitOff(trb: Ref, size: nat, at: nat, ghost i: nat, ghost mem0: R.Memory)
      requires T.Valid() && Mirrors(T.nil, list, busy, mem0, blocks)
      requires HeadersKept(T.nil, list, busy, busy, mem0, T.mem, blocks, i)
      requires i < |blocks| && list[i] == trb && at == i && size + MMSIZE < blocks[i].size
      requires trb in T.mem && trb in busy && trb != T.nil && trb !in Nodes(T.tree)
      requires T.mem[trb].key == blocks[i].size && T.mem[trb].left == T.mem[trb].right == T.nil
      requires var y := trb + MMSIZE + size;
               y !in Nodes(T.tree) && y != T.nil && forall k :: 0 <= k < |blocks| ==> list[k] != y
      requires forall k :: 0 <= k < |blocks| && k != i ==>
                 list[k] != trb && (blocks[k].busy ==> list[k] !in Nodes(T.tree))
      modifies this`busy, this`list, T
      ensures T.Valid() && Nodes(T.tree) == old(Nodes(T.tree)) + {trb + MMSIZE + size}
      ensures list == InsertAfter(old(list), at, trb + MMSIZE + size)
      ensures Mirrors(T.nil, old(list), old(busy), mem0, blocks)
      ensures HeadersKept(T.nil, old(list), old(busy), busy, mem0, T.mem, blocks, i)
      ensures trb in T.mem && trb in busy && T.mem[trb].key == size && T.mem[trb].left == T.mem[trb].right == T.nil
      ensures var y := trb + MMSIZE + size;
              y in busy && y in T.mem && !busy[y] && T.mem[y].key == blocks[i].size - size - MMSIZE
    {
      hide Links, Nodes, Once, Inorder, Rb, Sorted, Chain, Idle, Cover, R.RbTree.Linked, InsertAfter;
      var smn := trb + MMSIZE + size;
      busy := busy[smn := false];
      T.Store(smn, Fields(T.nil, T.nil, T.nil, T.mem[trb].key - size - MMSIZE, Red));
      list := InsertAfter(list, at, smn);
      ghost var _ := T.Insert(smn);
      T.Store(trb, T.mem[trb].(key := T.mem[trb].key - (T.mem[smn].key + MMSIZE)));
    }

    /** The found block leaves the tree; what it has too much becomes a new idle block. */
    method Carve(trb: Ref, size: nat, ghost i: nat) returns (p: Ref)
      requires Sound() && i < |blocks| && Fits(blocks[i], size) && blocks[i].at == trb
      requires forall k :: 0 <= k < |blocks| - 1 && k != i - 1 ==> !Touch(blocks[k], blocks[k + 1])
      modifies this, T
      ensures Valid() && blocks == old(Take(blocks, i, size)) && p == trb + MMSIZE
      ensures SameSpace(old(blocks), blocks)
    {
      hide Links, Nodes, Once, Inorder, Rb, Sorted, Chain, Idle, R.RbTree.Linked, Cut, Coalesced, Take, EndOf,
        HeadersKept, Cover;
      Headers(i, size);
      TakeKeeps(blocks, i, size, 1);
      var at := IndexOf(list, trb);
      assert at == i;
      ghost var mem0 := T.mem;
      ghost var j := T.DeleteNode(trb);
      StillKept(mem0, i, old(Nodes(T.tree)));
      ghost var list0, busy0 := list, busy;
      if size + MMSIZE < T.mem[trb].key {
        SplitOff(trb, size, at, i, mem0);
        busy := busy[trb := true];
        BusyKept(list0, busy0, mem0, i, trb);
        MirrorsCut(T.nil, list0, busy0, mem0, blocks, i, size, busy, T.mem);
      } else {
        busy := busy[trb := true];
        BusyKept(list0, busy0, mem0, i, trb);
        MirrorsTake(T.nil, list0, busy0, mem0, blocks, i, size, busy, T.mem);
      }
      p := trb + MMSIZE;
      blocks := Take(blocks, i, size);
    }

    lemma StillKept(mem0: R.Memory, i: nat, was: set<Ref>)
      requires Mirrors(T.nil, list, busy, mem0, blocks) && i < |blocks|
      requires R.Kept(was + {T.nil}, mem0, T.mem)
      requires forall x :: x in T.mem && x != T.nil ==> T.mem[x].key == mem0[x].key
      requires forall k :: 0 <= k < |blocks| ==> list[k] != T.nil && (list[k] in was <==> !blocks[k].busy)
      ensures HeadersKept(T.nil, list, busy, busy, mem0, T.mem, blocks, i)
    {
    }

    lemma BusyKept(list0: seq<Ref>, busy0: map<Ref, bool>, mem0: R.Memory, i: nat, trb: Ref)
      requires Mirrors(T.nil, list0, busy0, mem0, blocks) && trb in busy && busy[trb]
      requires exists b: map<Ref, bool> ::
                 busy == b[trb := true] && HeadersKept(T.nil, list0, busy0, b, mem0, T.mem, blocks, i)
      requires forall k :: 0 <= k < |blocks| && k != i ==> list0[k] != trb
      ensures HeadersKept(T.nil, list0, busy0, busy, mem0, T.mem, blocks, i)
    {
    }

    /** malloc.  `region` is the answer of sbrk, zero for a failure: an unused region above all blocks.  The
        least idle block that fits is handed out; when there is none the heap grows, at most once. */
    method Malloc(size: nat, region: Ref) returns (p: Ref, ghost i: nat)
      requires Valid() && size + MMSIZE + PGSIZE - 1 < WORD
      requires region != 0 ==> EndOf(blocks, 1) <= region && region + GrowSize(size) <= WORD
      requires region != 0 ==> T.nil !in Interval(region, region + GrowSize(size))
      modifies this, T
      ensures Valid()
      ensures p == 0 <==> region == 0 && !SomeFits(old(blocks), size)
      ensures p == 0 ==> blocks == old(blocks)
      ensures p != 0 ==>
                var bs := if SomeFits(old(blocks), size) then old(blocks)
                          else old(blocks) + [Block(region, GrowSize(size) - MMSIZE, false)];
                BestFit(bs, i, size) && blocks == Take(bs, i, size) && p == bs[i].at + MMSIZE && SameSpace(bs, blocks)
    {
      hide Links, Nodes, Once, Inorder, Rb, Sorted, Chain, Idle, Cover, R.RbTree.Valid, R.RbTree.Linked, GrowSize, Take,
        Interval, LeastAbove, SameSpace, Mirrors;
      i := 0;
      ghost var bs := blocks;
      GrowFits(size);
      var trb := MallocSearch(size);
      while trb == T.nil
        invariant Sound() && LeastAbove(T.nil, Inorder(T.tree), size, trb) && bs == blocks
        invariant if blocks == old(blocks) then Coalesced(blocks)
                  else region != 0 && !SomeFits(old(blocks), size) && trb != T.nil
                       && blocks == old(blocks) + [Block(region, GrowSize(size) - MMSIZE, false)]
        decreases trb == T.nil
      {
        i := Found(size, trb);
        if region == 0 {
          return 0, 0;
        }
        Grow(size, region);
        trb := MallocSearch(size);
        i := Found(size, trb);
        bs := blocks;
        assert Fits(blocks[|blocks| - 1], size);
      }
      i := Found(size, trb);
      assert SomeFits(blocks, size);
      OnlyTheLast(old(blocks), bs, size, i);
      p := Carve(trb, size, i);
    }

    static lemma OnlyTheLast(was: seq<Block>, bs: seq<Block>, size: nat, i: nat)
      requires Coalesced(was) && i < |bs| && Fits(bs[i], size)
      requires bs == was || (!SomeFits(was, size) && |bs| == |was| + 1 && bs[..|was|] == was)
      ensures forall k :: 0 <= k < |bs| - 1 && k != i - 1 ==> !Touch(bs[k], bs[k + 1])
    {
      if bs != was {
        assert forall k :: 0 <= k < |was| ==> bs[k] == was[k];
      }
    }

    // ---------------------------------------------------------------- free

    /** find_siblings for the header at position i: the position of an idle neighbour that touches it, the
        left one first, or -1. */
    method FindSiblings(i: nat) returns (s: int)
      requires Mirrors(T.nil, list, busy, T.mem, blocks) && i < |list|
      ensures s == if JoinsLeft(blocks, i) then i as int - 1 else if JoinsRight(blocks, i) then i + 1 else -1
    {
      var mn := list[i];
      if i != 0 {
        var smn := list[i - 1];
        if smn + MMSIZE + T.mem[smn].key == mn && !busy[smn] {
          return i - 1;
        }
      }
      if i + 1 != |list| {
        var smn := list[i + 1];
        if smn == mn + MMSIZE + T.mem[mn].key && !busy[smn] {
          return i + 1;
        }
      }
      return -1;
    }

    /** The header at position k takes in its right neighbour, which is in no tree; it enters the tree as an
        idle block of the joint size. */
    method Absorb(k: nat)
      requires k + 1 < |blocks| && Mirrors(T.nil, list, busy, T.mem, blocks)
      requires Chain(blocks, 1) && EndOf(blocks, 1) <= WORD
      requires T.Valid() && T.nil !in Cover(blocks) && blocks[k].End() == blocks[k + 1].at
      requires Nodes(T.tree) == Idle(blocks) - {list[k], list[k + 1]}
      requires T.mem[list[k]].left == T.mem[list[k]].right == T.nil
      modifies this, T
      ensures Sound() && blocks == old(Join(blocks, k))
    {
      hide Links, Nodes, Once, Inorder, Rb, Sorted, Chain, Idle, Cover, R.RbTree.Linked, Join;
      JoinKeeps(blocks, k, 1);
      AbsorbHeaders(k);
      var mn, smn := list[k], list[k + 1];
      ghost var list0, busy0, mem0 := list, busy, T.mem;
      list := RemoveAt(list, k + 1);
      busy := busy[mn := false];
      T.Store(mn, T.mem[mn].(color := Red, key := T.mem[mn].key + MMSIZE + T.mem[smn].key));
      ghost var _ := T.Insert(mn);
      MirrorsJoin(T.nil, list0, busy0, mem0, blocks, k, busy, T.mem);
      blocks := Join(blocks, k);
    }

    lemma AbsorbHeaders(k: nat)
      requires k + 1 < |blocks| && Mirrors(T.nil, list, busy, T.mem, blocks) && Chain(blocks, 1)
      requires T.nil !in Cover(blocks) && Nodes(T.tree) == Idle(blocks) - {list[k], list[k + 1]}
      ensures forall j :: 0 <= j < |blocks| ==> list[j] != T.nil && (j != k ==> list[j] != list[k])
      ensures forall j :: 0 <= j < |blocks| && blocks[j].busy ==> list[j] !in Nodes(T.tree)
    {
      hide Once, Inorder, Rb, Sorted, Chain, Idle, Cover;
      ChainDistinct(blocks, 1, k);
      ChainBounds(blocks, 1);
      forall j | 0 <= j < |blocks| && blocks[j].busy ensures list[j] !in Nodes(T.tree) {
        IdleAt(blocks, 1, j);
      }
    }

    /** RBTreeDelete of the header at position k. */
    method TakeOff(k: nat)
      requires T.Valid() && Mirrors(T.nil, list, busy, T.mem, blocks) && k < |blocks| && list[k] in Nodes(T.tree)
      requires forall j :: 0 <= j < |blocks| ==> list[j] != T.nil && (list[j] in Nodes(T.tree) ==> !blocks[j].busy)
      modifies T
      ensures T.Valid() && Mirrors(T.nil, list, busy, T.mem, blocks)
      ensures Nodes(T.tree) == old(Nodes(T.tree)) - {list[k]}
      ensures T.mem[list[k]].left == T.mem[list[k]].right == T.nil
    {
      hide Links, Nodes, Once, Inorder, Rb, Sorted, R.RbTree.Linked;
      ghost var _ := T.DeleteNode(list[k]);
    }

    /** One turn of the loop of free, for the header at position i and its sibling at position s. */
    method Merge(i: nat, s: nat) returns (j: nat)
      requires Sound() && i < |blocks| && CoalescedBut(blocks, i)
      requires s == (if JoinsLeft(blocks, i) then i as int - 1 else i as int + 1)
      requires JoinsLeft(blocks, i) || JoinsRight(blocks, i)
      requires !blocks[i].busy ==> !JoinsLeft(blocks, i)
      modifies this, T
      ensures Sound() && j < |blocks| && CoalescedBut(blocks, j) && |blocks| == |old(blocks)| - 1
      ensures !blocks[j].busy && !JoinsLeft(blocks, j) && Release(blocks, j) == old(Release(blocks, i))
      ensures SameSpace(old(blocks), blocks)
    {
      hide Links, Nodes, Once, Inorder, Rb, Sorted, Chain, Idle, Cover, R.RbTree.Linked, Join, CoalescedBut, Release,
        SameSpace;
      Headers(i, 0);
      Headers(s, 0);
      JoinKeeps(blocks, if s < i then s else i, 1);
      var mn, smn := list[i], list[s];
      TakeOff(s);
      if mn < smn {
        JoinRightStep(blocks, i);
        if !busy[mn] {
          TakeOff(i);
        }
        j := i;
      } else {
        JoinLeftStep(blocks, i);
        j := s;
      }
      Absorb(j);
    }

    /** The end of free for a block that had no idle neighbour: its node turns red and enters the tree. */
    method EnterTree(i: nat)
      requires Sound() && i < |blocks| && blocks[i].busy && CoalescedBut(blocks, i)
      requires !JoinsLeft(blocks, i) && !JoinsRight(blocks, i)
      modifies this, T
      ensures Valid() && blocks == old(blocks)[i := old(blocks[i]).(busy := false)] && SameSpace(old(blocks), blocks)
    {
      hide Links, Nodes, Once, Inorder, Rb, Sorted, Chain, Idle, Cover, R.RbTree.Linked, Coalesced, CoalescedBut,
        Release;
      Headers(i, 0);
      ReleaseDone(blocks, i, 1);
      var mn := list[i];
      ghost var busy0, mem0, f := busy, T.mem, T.mem[mn].(color := Red);
      busy := busy[mn := false];
      T.Store(mn, T.mem[mn].(color := Red));
      ghost var _ := T.Insert(mn);
      OthersStay(T.nil, list, busy0, mem0, blocks, i, mn, f, Nodes(T.tree), T.mem);
      MirrorsFreed(T.nil, list, busy0, mem0, blocks, i, busy, T.mem);
      hide Mirrors;
      blocks := blocks[i := blocks[i].(busy := false)];
    }

    /** free.  The block and its idle neighbours become one idle block; no byte is lost. */
    method Free(ptr: Ref, ghost k: nat)
      requires Valid() && k < |blocks| && blocks[k].busy && ptr == blocks[k].at + MMSIZE
      modifies this, T
      ensures Valid() && blocks == old(Release(blocks, k))
      ensures SameSpace(old(blocks), blocks)
    {
      hide Links, Nodes, Once, Inorder, Rb, Sorted, Chain, Idle, Cover, R.RbTree.Linked, R.RbTree.Valid, Release;
      Headers(k, 0);
      var i: nat := IndexOf(list, ptr - MMSIZE);
      assert i == k;
      var s := FindSiblings(i);
      while s != -1
        invariant Sound() && i < |blocks| && CoalescedBut(blocks, i) && SameSpace(old(blocks), blocks)
        invariant s == if JoinsLeft(blocks, i) then i as int - 1 else if JoinsRight(blocks, i) then i + 1 else -1
        invariant (!blocks[i].busy ==> !JoinsLeft(blocks, i)) && Release(blocks, i) == old(Release(blocks, k))
        decreases |blocks|
      {
        i := Merge(i, s);
        s := FindSiblings(i);
      }
      ReleaseDone(blocks, i, 1);
      if busy[list[i]] {
        EnterTree(i);
      }
    }
  }

  // ---------------------------------------------------------------- a heap at the failing input

  /** The blocks after two small blocks were cut from one page and the first was given back. */
  lemma TwoCuts(region: Ref)
    ensures var a := [Block(region, PGSIZE - MMSIZE, false)];
            var b := Take(a, 0, 100);
            var c := Take(b, 1, 100);
            && b == [Block(region, 100, true), Block(region + 132, 3932, false)]
            && c == [Block(region, 100, true), Block(region + 132, 100, true), Block(region + 264, 3800, false)]
            && Release(c, 0) == [Block(region, 100, false), Block(region + 132, 100, true),
                                 Block(region + 264, 3800, false)]
  {
    var a := [Block(region, PGSIZE - MMSIZE, false)];
    assert Take(a, 0, 100) == [Block(region, 100, true), Block(region + 132, 3932, false)];
    var b := Take(a, 0, 100);
    assert Take(b, 1, 100) == [Block(region, 100, true), Block(region + 132, 100, true),
                               Block(region + 264, 3800, false)];
  }

  /** malloc, malloc, free of the first: the second is busy between two idle neighbours that touch it, so that
      freeing it would insert a node twice. */
  method TwoIdleNeighbours(region: Ref) returns (h: Heap, ghost k: nat)
    requires 0 < region && region + PGSIZE <= WORD
    ensures fresh(h) && h.Valid() && k < |h.blocks| && h.blocks[k].busy
    ensures JoinsLeft(h.blocks, k) && JoinsRight(h.blocks, k)
  {
    hide Heap.Sound, Take, Release, Interval, EndOf, Cover, Chain, Idle;
    h := new Heap(0);
    TwoCuts(region);
    NilOutside(region);
    var p; ghost var i;
    p, i := h.Malloc(100, region);
    ghost var page := Block(region, PGSIZE - MMSIZE, false);
    assert [] + [page] == [page];
    assert h.blocks == Take([page], 0, 100);
    var q;
    assert Fits(h.blocks[1], 100);
    q, i := h.Malloc(100, 0);
    assert i == 1;
    h.Free(p, 0);
    k := 1;
  }

  lemma NilOutside(region: Ref)
    requires 0 < region
    ensures GrowSize(100) == PGSIZE && 0 !in Interval(region, region + PGSIZE) && EndOf([], 1) == 1
  {
    IntervalIs(region, region + PGSIZE);
  }

  // ---------------------------------------------------------------- a heap whose colours fail

  /** What malloc of a whole page does to the tree when nothing is idle: the node enters it and leaves it again
      (user/umalloc.c:66-73 and 51-52).  As the only node it has turned black. */
  method TakePage(t: R.RbTree, x: Ref, size: nat)
    requires t.Valid() && t.tree == Leaf && x != t.nil
    modifies t
    ensures t.Valid() && t.tree == Leaf && x in t.mem
    ensures t.mem[x].left == t.mem[x].right == t.nil && t.mem[x].key == size && t.mem[x].color == Black
    ensures forall y :: y in old(t.mem) && y != x && y != t.nil ==> y in t.mem && t.mem[y] == old(t.mem[y])
  {
    hide Plug, Fixup, Inorder, Sorted, R.RbTree.Linked, ItemRemoved;
    t.Store(x, Fields(t.nil, t.nil, t.nil, size, Red));
    ghost var c := t.Insert(x);
    OnlyNode(c, x, size, Red);
    LinkedNode(t, x);
    ghost var _ := t.DeleteNode(x);
    assert t.tree == Leaf;
  }

  lemma LinkedNode(t: R.RbTree, x: Ref)
    requires t.Linked() && t.tree.Node? && t.tree.n == x
    ensures x in t.mem && t.mem[x].color == t.tree.c && x in Nodes(t.tree)
  {
  }

  lemma OnlyNode(c: Context, x: Ref, k: nat, col: Color)
    requires Plug(c, Leaf) == Leaf
    ensures var u := Fixup(c, Node(Leaf, x, k, col, Leaf));
            && u == Node(Leaf, x, k, Black, Leaf) && Rb(u) && !IsRed(u) && Nodes(u) == {x} && Inorder(u) == [(x, k)]
  {
    if !c.Top? {
      PlugIsNode(c, Leaf);
    }
  }

  /** Three pages are taken, the first and the third are freed as the code is written: the tree is no longer
      red-black. */
  method ThreePages(a: Ref, b: Ref, c: Ref, size: nat) returns (t: R.RbTree)
    requires a != b && b != c && c != a && 0 !in {a, b, c}
    ensures fresh(t) && t.Linked() && Nodes(t.tree) == {a, c} && Inorder(t.tree) == [(a, size), (c, size)]
    ensures !Rb(t.tree)
  {
    hide Plug, Fixup, Inorder, Nodes, Sorted, Rb, InsertItem, R.RbTree.Linked, R.KeysKept;
    t := new R.RbTree(0);
    LeafOnce();
    EmptyTree();
    TakePage(t, a, size);
    TakePage(t, b, size);
    TakePage(t, c, size);
    ghost var d := t.Insert(a);
    OnlyNode(d, a, size, Black);
    d := t.Insert(c);
    SecondPage(d, a, c, size);
  }

  lemma EmptyTree()
    ensures Rb(Leaf) && !IsRed(Leaf) && Inorder(Leaf) == [] && Sorted([])
  {
  }

  lemma TwoAbove(d: Context)
    ensures !d.Top? && !d.up.Top? ==> |Before(d)| + |After(d)| >= 2
  {
  }

  lemma SecondPage(d: Context, a: Ref, c: Ref, size: nat)
    requires Plug(d, Leaf) == Node(Leaf, a, size, Black, Leaf)
    ensures !Rb(Fixup(d, Node(Leaf, c, size, Black, Leaf)))
    ensures InsertItem([(a, size)], (c, size)) == [(a, size), (c, size)]
  {
    TwoAbove(d);
    InorderPlug(d, Leaf);
    assert |Before(d)| + |After(d)| == 1;
    ColourAsWritten(d, c, size, Black);
    assert InsertItem([], (c, size)) == [(c, size)];
  }
}
