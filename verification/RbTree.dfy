/** lib/krbfunc.c: rotations, insertion and deletion on linked nodes with parent pointers and a shared
    sentinel.  Every step is proved to do to memory what it should do to the ghost tree. */
module RbTree {
  import opened RbShape

  /** Memory outside `ns` is as before. */
  ghost predicate Kept(ns: set<Ref>, a: map<Ref, Fields>, b: map<Ref, Fields>) {
    a.Keys == b.Keys && forall n :: n in a && n !in ns ==> b[n] == a[n]
  }

  type Memory = map<Ref, Fields>

  lemma KeptKeys(ns: set<Ref>, a: Memory, b: Memory)
    requires Kept(ns, a, b)
    ensures a.Keys == b.Keys
  {
  }

  ghost predicate KeysKept(a: Memory, b: Memory) {
    a.Keys == b.Keys && forall n :: n in a ==> b[n].key == a[n].key
  }

  /** The stores of LeftRotate at x, as a function of memory. */
  ghost function LeftStores(nil: Ref, a: Memory, x: Ref): Memory
    requires LeftDefined(a, x)
  {
    var m := a[x].right;
    var b := a[m].left;
    var a1 := a[x := a[x].(right := b)];
    var a2 := if b != nil then a1[b := a1[b].(parent := x)] else a1;
    var a3 := a2[m := a2[m].(parent := a2[x].parent)];
    var h := a3[x].parent;
    var a4 := if h == nil then a3
              else a3[h := if x == a3[h].left then a3[h].(left := m) else a3[h].(right := m)];
    var a5 := a4[m := a4[m].(left := x)];
    a5[x := a5[x].(parent := m)]
  }

  ghost predicate LeftDefined(a: Memory, x: Ref) {
    x in a && a[x].parent in a && a[x].right in a && a[a[x].right].left in a
  }

  ghost predicate LeftReady(nil: Ref, a: Memory, x: Ref) {
    && x in a && x != nil && a[x].parent in a && a[x].parent != x
    && a[x].right in a && a[x].right !in {x, nil, a[x].parent}
    && a[a[x].right].left in a && a[a[x].right].left !in {x, a[x].right}
    && (a[a[x].right].left == a[x].parent ==> a[x].parent == nil)
  }

  lemma LeftStoresEffect(nil: Ref, a: Memory, x: Ref)
    requires LeftReady(nil, a, x)
    ensures var m, h := a[x].right, a[x].parent; var b, s := a[m].left, LeftStores(nil, a, x);
            && s.Keys == a.Keys && s[x] == a[x].(right := b, parent := m) && s[m] == a[m].(left := x, parent := h)
            && (b != nil ==> s[b] == a[b].(parent := x))
            && (h != nil ==> s[h] == if x == a[h].left then a[h].(left := m) else a[h].(right := m))
            && (forall n :: n in a && n !in {x, m} && (n == nil || n !in {b, h}) ==> s[n] == a[n])
  {
  }

  /** They make memory what the rotated tree asks. */
  lemma LeftStoresRotate(nil: Ref, a: Memory, c: Context, t: Tree)
    requires Once(Plug(c, t)) && nil !in Nodes(Plug(c, t)) && t.Node? && t.r.Node? && nil in a
    requires forall n :: n in Nodes(Plug(c, t)) ==> n in a && a[n] == Links(nil, Plug(c, t), nil)[n]
    ensures LeftReady(nil, a, t.n) && a[t.n].right == t.r.n
    ensures var u, b := Plug(c, RotateLeft(t)), LeftStores(nil, a, t.n);
            && Once(u) && Nodes(u) == Nodes(Plug(c, t))
            && nil in b && b[nil] == a[nil] && Kept(Nodes(u), a, b)
            && (forall n :: n in Nodes(u) ==> n in b && b[n] == Links(nil, u, nil)[n])
            && RootOf(nil, u) == if a[t.n].parent == nil then t.r.n else RootOf(nil, Plug(c, t))
  {
    hide Plug, Links, Nodes, Once, RootOf, ParentOf, RotateLeft, LeftStores;
    RotateLeftLinks(nil, c, t);
    LeftStoresEffect(nil, a, t.n);
  }

  /** The stores of RightRotate at x, as a function of memory. */
  ghost function RightStores(nil: Ref, a: Memory, x: Ref): Memory
    requires RightDefined(a, x)
  {
    var m := a[x].left;
    var b := a[m].right;
    var a1 := a[x := a[x].(left := b)];
    var a2 := if b != nil then a1[b := a1[b].(parent := x)] else a1;
    var a3 := a2[m := a2[m].(parent := a2[x].parent)];
    var h := a3[x].parent;
    var a4 := if h == nil then a3
              else a3[h := if x == a3[h].left then a3[h].(left := m) else a3[h].(right := m)];
    var a5 := a4[m := a4[m].(right := x)];
    a5[x := a5[x].(parent := m)]
  }

  ghost predicate RightDefined(a: Memory, x: Ref) {
    x in a && a[x].parent in a && a[x].left in a && a[a[x].left].right in a
  }

  ghost predicate RightReady(nil: Ref, a: Memory, x: Ref) {
    && x in a && x != nil && a[x].parent in a && a[x].parent != x
    && a[x].left in a && a[x].left !in {x, nil, a[x].parent}
    && a[a[x].left].right in a && a[a[x].left].right !in {x, a[x].left}
    && (a[a[x].left].right == a[x].parent ==> a[x].parent == nil)
  }

  lemma RightStoresEffect(nil: Ref, a: Memory, x: Ref)
    requires RightReady(nil, a, x)
    ensures var m, h := a[x].left, a[x].parent; var b, s := a[m].right, RightStores(nil, a, x);
            && s.Keys == a.Keys && s[x] == a[x].(left := b, parent := m) && s[m] == a[m].(right := x, parent := h)
            && (b != nil ==> s[b] == a[b].(parent := x))
            && (h != nil ==> s[h] == if x == a[h].left then a[h].(left := m) else a[h].(right := m))
            && (forall n :: n in a && n !in {x, m} && (n == nil || n !in {b, h}) ==> s[n] == a[n])
  {
  }

  /** They make memory what the rotated tree asks. */
  lemma RightStoresRotate(nil: Ref, a: Memory, c: Context, t: Tree)
    requires Once(Plug(c, t)) && nil !in Nodes(Plug(c, t)) && t.Node? && t.l.Node? && nil in a
    requires forall n :: n in Nodes(Plug(c, t)) ==> n in a && a[n] == Links(nil, Plug(c, t), nil)[n]
    ensures RightReady(nil, a, t.n) && a[t.n].left == t.l.n
    ensures var u, b := Plug(c, RotateRight(t)), RightStores(nil, a, t.n);
            && Once(u) && Nodes(u) == Nodes(Plug(c, t))
            && nil in b && b[nil] == a[nil] && Kept(Nodes(u), a, b)
            && (forall n :: n in Nodes(u) ==> n in b && b[n] == Links(nil, u, nil)[n])
            && RootOf(nil, u) == if a[t.n].parent == nil then t.l.n else RootOf(nil, Plug(c, t))
  {
    hide Plug, Links, Nodes, Once, RootOf, ParentOf, RotateRight, RightStores;
    RotateRightLinks(nil, c, t);
    RightStoresEffect(nil, a, t.n);
  }

  // One round of the loop of RBTreeInsertFixup on any memory, whether it holds a tree or not.  A pointer
  // that leads nowhere reads as a black node and is not rotated.

  ghost function Read(a: Memory, n: Ref): Fields {
    if n in a then a[n] else Fields(n, n, n, 0, Black)
  }

  ghost function Painted(a: Memory, n: Ref, col: Color): Memory {
    a[n := Read(a, n).(color := col)]
  }

  ghost function Rotated(nil: Ref, a: Memory, n: Ref, left: bool): Memory {
    if left && LeftDefined(a, n) then LeftStores(nil, a, n)
    else if !left && RightDefined(a, n) then RightStores(nil, a, n)
    else a
  }

  ghost function FixupRound(nil: Ref, a: Memory, x: Ref): (Memory, Ref) {
    var p := Read(a, x).parent;
    var g := Read(a, p).parent;
    var left := p == Read(a, g).left;
    var u := if left then Read(a, g).right else Read(a, g).left;
    if Read(a, u).color == Red then (Painted(Painted(Painted(a, p, Black), u, Black), g, Red), g)
    else
      var inner := x == if left then Read(a, p).right else Read(a, p).left;
      var y := if inner then p else x;
      var b := if inner then Rotated(nil, a, p, left) else a;
      var c := Painted(b, Read(b, y).parent, Black);
      var h := Read(c, Read(c, y).parent).parent;
      (Rotated(nil, Painted(c, h, Red), h, !left), y)
  }

  ghost function FixupRounds(nil: Ref, a: Memory, x: Ref, rounds: nat): (Memory, Ref) {
    if rounds == 0 then (a, x)
    else var r := FixupRounds(nil, a, x, rounds - 1); FixupRound(nil, r.0, r.1)
  }

  /** The guard of the loop. */
  ghost predicate GoesOn(a: Memory, x: Ref) {
    Read(a, Read(a, x).parent).color == Red
  }

  /** The stores of RBTreeTransplant, as a function of memory. */
  ghost function TransplantStores(nil: Ref, a: Memory, src: Ref, dst: Ref): Memory
    requires src in a && a[src].parent in a && dst in a
  {
    var h := a[src].parent;
    var b := if h == nil then a
             else a[h := if src == a[h].left then a[h].(left := dst) else a[h].(right := dst)];
    b[dst := b[dst].(parent := b[src].parent)]
  }

  ghost predicate Holds(nil: Ref, a: Memory, t: Tree) {
    forall n :: n in Nodes(t) ==> n in a && a[n] == Links(nil, t, nil)[n]
  }

  lemma KeysStay(nil: Ref, t: Tree, a: Memory, u: Tree, b: Memory, i: nat, x: Item)
    requires Once(t) && Holds(nil, a, t) && Once(u) && Holds(nil, b, u) && ItemRemoved(Inorder(t), Inorder(u), i, x)
    ensures forall n :: n in Nodes(u) ==> n in a && n in b && b[n].key == a[n].key
  {
    hide Links, Nodes, Once, Inorder, ItemRemoved;
    ItemsAre(nil, t, nil);
    ItemsAre(nil, u, nil);
    RemovedItems(Inorder(t), Inorder(u), i, x);
  }

  /** Transplanting the only subtree of t over t. */
  lemma SpliceStores(nil: Ref, a: Memory, c: Context, t: Tree, s: Tree)
    requires Once(Plug(c, t)) && nil !in Nodes(Plug(c, t)) && t.Node? && nil in a && Holds(nil, a, Plug(c, t))
    requires (t.l.Leaf? && s == t.r) || (t.r.Leaf? && s == t.l)
    ensures t.n in a && a[t.n].parent in a && RootOf(nil, s) in a
    ensures var b, u := TransplantStores(nil, a, t.n, RootOf(nil, s)), Plug(c, s);
            && Once(u) && Nodes(u) == Nodes(Plug(c, t)) - {t.n}
            && nil in b && b[nil].color == a[nil].color && Kept(Nodes(u) + {nil}, a, b) && Holds(nil, b, u)
            && b[RootOf(nil, s)].parent == ParentOf(c, nil)
            && RootOf(nil, u) == if a[t.n].parent == nil then RootOf(nil, s) else RootOf(nil, Plug(c, t))
  {
    hide Plug, Links, Nodes, Once, RootOf, ParentOf;
    SpliceLinks(nil, c, t, s);
  }

  /** The stores that put y, which is in no tree or is n's right child, in the place of n. */
  ghost function PromoteStores(nil: Ref, a: Memory, n: Ref, y: Ref): Memory
    requires n in a && a[n].parent in a && y in a && a[n].left in a
  {
    var a1 := TransplantStores(nil, a, n, y);
    var a2 := a1[y := a1[y].(left := a1[n].left)];
    var a3 := a2[a2[y].left := a2[a2[y].left].(parent := y)];
    a3[y := a3[y].(color := a3[n].color)]
  }

  lemma PromoteEffect(nil: Ref, a: Memory, n: Ref, y: Ref)
    requires n in a && a[n].parent in a && y in a && a[n].left in a
    requires y !in {n, nil} && a[n].parent !in {n, y} && a[n].left !in {n, y, nil, a[n].parent} && n != nil
    ensures var b, l, h := PromoteStores(nil, a, n, y), a[n].left, a[n].parent;
            && b.Keys == a.Keys && b[y] == a[y].(left := l, parent := h, color := a[n].color)
            && b[l] == a[l].(parent := y)
            && (h != nil ==> b[h] == if n == a[h].left then a[h].(left := y) else a[h].(right := y))
            && (h == nil ==> b[h] == a[h])
            && (forall x :: x in a && x !in {y, l, h} ==> b[x] == a[x])
  {
  }

  /** The stores for a y outside the tree, which first takes over the right child of n. */
  ghost function TakePlaceStores(nil: Ref, a: Memory, n: Ref, y: Ref): Memory
    requires n in a && a[n].parent in a && y in a && a[n].left in a && a[n].right in a && y != n
    requires a[n].right !in {n, y}
  {
    var a1 := a[y := a[y].(right := a[n].right)];
    var a2 := a1[a1[y].right := a1[a1[y].right].(parent := y)];
    PromoteStores(nil, a2, n, y)
  }

  lemma RenameStores(nil: Ref, a: Memory, c: Context, t: Tree, y: Ref)
    requires Once(Plug(c, t)) && nil !in Nodes(Plug(c, t)) && t.Node? && t.l.Node? && t.r.Node?
    requires nil in a && Holds(nil, a, Plug(c, t)) && y in a && y !in Nodes(Plug(c, t)) && y != nil
    ensures t.n in a && a[t.n].parent in a && a[t.n].left in a
    ensures a[t.n].right in a && a[t.n].right !in {t.n, y} && y != t.n
    ensures var u, b := Plug(c, Node(t.l, y, a[y].key, t.c, t.r)), TakePlaceStores(nil, a, t.n, y);
            && Once(u) && Nodes(u) == Nodes(Plug(c, t)) - {t.n} + {y} && nil !in Nodes(u)
            && nil in b && b[nil] == a[nil] && Kept(Nodes(u), a, b) && Holds(nil, b, u)
            && RootOf(nil, u) == if a[t.n].parent == nil then y else RootOf(nil, Plug(c, t))
  {
    hide Plug, Links, Nodes, Once, RootOf, ParentOf, PromoteStores;
    RenameLinks(nil, c, t, y, a[y].key);
    var a1 := a[y := a[y].(right := a[t.n].right)];
    PromoteEffect(nil, a1[t.r.n := a1[t.r.n].(parent := y)], t.n, y);
  }

  /** The stores for a y that is the right child of n; its own right child may be nil. */
  ghost function HoistStores(nil: Ref, a: Memory, n: Ref, y: Ref): Memory
    requires n in a && a[n].parent in a && y in a && a[n].left in a && a[y].right in a && y != n && a[y].right != n
  {
    PromoteStores(nil, a[a[y].right := a[a[y].right].(parent := y)], n, y)
  }

  lemma HoistStoresHold(nil: Ref, a: Memory, c: Context, t: Tree)
    requires Once(Plug(c, t)) && nil !in Nodes(Plug(c, t)) && t.Node? && t.l.Node? && t.r.Node? && t.r.l.Leaf?
    requires nil in a && Holds(nil, a, Plug(c, t))
    ensures t.n in a && a[t.n].parent in a && a[t.n].left in a && t.r.n in a && t.r.n != t.n
    ensures a[t.r.n].right in a && a[t.r.n].right == RootOf(nil, t.r.r) && a[t.r.n].right != t.n
    ensures var u, b := Plug(c, Node(t.l, t.r.n, t.r.k, t.c, t.r.r)), HoistStores(nil, a, t.n, t.r.n);
            && Once(u) && Nodes(u) == Nodes(Plug(c, t)) - {t.n}
            && nil in b && b[nil].color == a[nil].color && Kept(Nodes(u) + {nil}, a, b) && Holds(nil, b, u)
            && b[RootOf(nil, t.r.r)].parent == t.r.n
            && RootOf(nil, u) == if a[t.n].parent == nil then t.r.n else RootOf(nil, Plug(c, t))
  {
    hide Plug, Links, Nodes, Once, RootOf, ParentOf, PromoteStores;
    HoistFrom(nil, c, t);
    HoistLinks(nil, c, t);
    var x := a[t.r.n].right;
    PromoteEffect(nil, a[x := a[x].(parent := t.r.n)], t.n, t.r.n);
  }

  class RbTree {
    const nil: Ref
    var root: Ref
    var mem: map<Ref, Fields>    // the sentinel and every node known to the tree
    ghost var tree: Tree

    /** Memory holds `tree`. */
    ghost predicate Linked()
      reads this
    {
      && root == RootOf(nil, tree)
      && nil in mem && mem[nil].color == Black
      && Once(tree) && nil !in Nodes(tree)
      && forall n :: n in Nodes(tree) ==> n in mem && mem[n] == Links(nil, tree, nil)[n]
    }

    /** Only fields of the tree's nodes have changed. */
    twostate predicate OthersKept()
      reads this
    {
      Kept(Nodes(tree), old(mem), mem)
    }

    /** rbtree_init. */
    constructor (sentinel: Ref)
      ensures Linked() && tree == Leaf && nil == sentinel
    {
      nil, root, tree := sentinel, sentinel, Leaf;
      mem := map[sentinel := Fields(sentinel, sentinel, sentinel, 0, Black)];
    }

    /** Reading memory at the focus. */
    lemma At(c: Context, t: Tree)
      requires Linked() && tree == Plug(c, t)
      ensures t.Node? ==> t.n in mem && t.n != nil && mem[t.n] ==
                            Fields(RootOf(nil, t.l), RootOf(nil, t.r), ParentOf(c, nil), t.k, t.c)
      ensures !c.Top? ==> c.n in mem && c.n != nil && c.n !in Nodes(t) && mem[c.n] ==
                            Fields(if c.InLeft? then RootOf(nil, t) else RootOf(nil, c.l),
                                   if c.InLeft? then RootOf(nil, c.r) else RootOf(nil, t),
                                   ParentOf(c.up, nil), c.k, c.c)
      ensures c.Top? ==> root == RootOf(nil, t)
      ensures Nodes(t) <= Nodes(tree) && (t.Node? ==> t.n in Nodes(tree))
    {
      FocusLinks(nil, c, t);
      if c.Top? {
        PlugTop(c, t);
      }
    }

    /** x->color = col. */
    method Paint(x: Ref, col: Color, ghost c: Context, ghost t: Tree)
      requires Linked() && tree == Plug(c, t) && t.Node? && t.n == x
      modifies this
      ensures Linked() && tree == Plug(c, t.(c := col)) && OthersKept()
      ensures Nodes(tree) == old(Nodes(tree)) && Inorder(tree) == old(Inorder(tree))
    {
      hide Plug, Links, Nodes, Once, Inorder;
      PaintLinks(nil, c, t, col);
      mem, tree := mem[x := mem[x].(color := col)], Plug(c, t.(c := col));
    }

    /** LeftRotate at the root x of subtree t. */
    method LeftRotate(x: Ref, ghost c: Context, ghost t: Tree)
      requires Linked() && tree == Plug(c, t) && t.Node? && t.n == x && t.r.Node?
      modifies this
      ensures Linked() && tree == Plug(c, RotateLeft(t)) && OthersKept()
      ensures Nodes(tree) == old(Nodes(tree)) && Inorder(tree) == old(Inorder(tree))
    {
      hide Plug, Links, Nodes, Once, Inorder, RootOf, ParentOf, RotateLeft, RotateRight, Kept;
      LeftStoresRotate(nil, mem, c, t);
      RotateInorder(c, t);
      var a := mem;
      var m := a[x].right;
      a := a[x := a[x].(right := a[m].left)];
      if a[m].left != nil {
        var b := a[m].left;
        a := a[b := a[b].(parent := x)];
      }
      a := a[m := a[m].(parent := a[x].parent)];
      var h := a[x].parent;
      if h == nil {
        root := m;
      } else if x == a[h].left {
        a := a[h := a[h].(left := m)];
      } else {
        a := a[h := a[h].(right := m)];
      }
      a := a[m := a[m].(left := x)];
      a := a[x := a[x].(parent := m)];
      assert a == LeftStores(nil, mem, x);
      mem, tree := a, Plug(c, RotateLeft(t));
    }

    method RightRotate(x: Ref, ghost c: Context, ghost t: Tree)
      requires Linked() && tree == Plug(c, t) && t.Node? && t.n == x && t.l.Node?
      modifies this
      ensures Linked() && tree == Plug(c, RotateRight(t)) && OthersKept()
      ensures Nodes(tree) == old(Nodes(tree)) && Inorder(tree) == old(Inorder(tree))
    {
      hide Plug, Links, Nodes, Once, Inorder, RootOf, ParentOf, RotateLeft, RotateRight, Kept;
      RightStoresRotate(nil, mem, c, t);
      RotateInorder(c, t);
      var a := mem;
      var m := a[x].left;
      a := a[x := a[x].(left := a[m].right)];
      if a[m].right != nil {
        var b := a[m].right;
        a := a[b := a[b].(parent := x)];
      }
      a := a[m := a[m].(parent := a[x].parent)];
      var h := a[x].parent;
      if h == nil {
        root := m;
      } else if x == a[h].left {
        a := a[h := a[h].(left := m)];
      } else {
        a := a[h := a[h].(right := m)];
      }
      a := a[m := a[m].(right := x)];
      a := a[x := a[x].(parent := m)];
      assert a == RightStores(nil, mem, x);
      mem, tree := a, Plug(c, RotateRight(t));
    }

    // ---------------------------------------------------------------- insertion

    /** The colour that a pointer into the tree leads to; the sentinel is black. */
    lemma RedAt(c: Context, t: Tree)
      requires Linked() && tree == Plug(c, t)
      ensures RootOf(nil, t) in mem && (mem[RootOf(nil, t)].color == Red <==> IsRed(t))
    {
      At(c, t);
    }

    /** The loop of RBTreeInsertFixup holds node x; no red node around its subtree has a red parent. */
    ghost predicate Rising(x: Ref, c: Context, t: Tree)
      reads this
    {
      Linked() && tree == Plug(c, t) && t.Node? && t.n == x && Calm(c)
    }

    twostate predicate SameItems()
      reads this
    {
      Nodes(tree) == old(Nodes(tree)) && Inorder(tree) == old(Inorder(tree)) && OthersKept()
    }

    lemma LookUp(x: Ref, c: Context, t: Tree)
      requires Rising(x, c, t) && !c.Top? && !c.up.Top?
      ensures x in mem && mem[x].parent in mem && mem[mem[x].parent].parent == c.up.n && c.up.n in mem
    {
      At(c, t);
      PlugUp(c, t);
      At(c.up, Fill(c, t));
    }

    /** What the loop reads: the parent, and above a red parent the grandparent and the uncle. */
    lemma Look(x: Ref, c: Context, t: Tree)
      requires Rising(x, c, t)
      ensures x in mem && mem[x].parent in mem && (mem[mem[x].parent].color == Red <==> ParentRed(c))
      ensures ParentRed(c) ==>
                && !c.up.Top? && mem[mem[x].parent].parent == c.up.n && c.up.n in mem
                && (mem[x].parent == mem[c.up.n].left <==> c.up.InLeft?)
                && var u := if c.up.InLeft? then mem[c.up.n].right else mem[c.up.n].left;
                   u == RootOf(nil, SiblingOf(c.up)) && u in mem && (mem[u].color == Red <==> IsRed(SiblingOf(c.up)))
    {
      At(c, t);
      if ParentRed(c) {
        var p := Fill(c, t);
        PlugUp(c, t);
        At(c.up, p);
        Sides(nil, c.up, p);
        var a := Aside(c.up, p);
        PlugUp(a, SiblingOf(c.up));
        PlugUp(c.up, p);
        RedAt(a, SiblingOf(c.up));
      }
    }

    /** Parent and uncle are red: the redness moves to the grandparent. */
    method UncleRed(x: Ref, u: Ref, ghost c: Context, ghost t: Tree)
        returns (y: Ref, ghost c': Context, ghost t': Tree)
      requires Rising(x, c, t) && ParentRed(c)
      requires IsRed(SiblingOf(c.up)) && u == RootOf(nil, SiblingOf(c.up))
      modifies this
      ensures !c.up.Top? && Rising(y, c', t') && c' == c.up.up && t' == Recoloured(c, t) && SameItems()
    {
      hide Links, Nodes, Once, Inorder, Plug;
      assert Calm(c.up) && Calm(c.up.up);
      At(c, t);
      PlugUp(c, t);
      ghost var p := Fill(c, t);
      At(c.up, p);
      y := mem[mem[x].parent].parent;
      Paint(mem[x].parent, Black, c.up, p);
      p := p.(c := Black);
      PlugUp(c.up, p);
      ghost var cu := Aside(c.up, p);
      ghost var ut := SiblingOf(c.up);
      PlugUp(cu, ut);
      Paint(u, Black, cu, ut);
      ut := ut.(c := Black);
      PlugUp(cu, ut);
      t' := Fill(cu, ut);
      c' := cu.up;
      Paint(y, Red, c', t');
      t' := t'.(c := Red);
    }

    /** A node that is a right child is rotated up, so that a red node is the left child below it. */
    method StraightenLeft(x: Ref, ghost c: Context, ghost t: Tree)
        returns (y: Ref, ghost c': Context, ghost t': Tree)
      requires Rising(x, c, t) && ParentRed(c)
      modifies this
      ensures !c.up.Top? && Rising(y, c', t') && c'.InLeft? && c'.up == c.up && SameItems()
      ensures if c.InLeft? then c' == c && t' == t
              else c' == InLeft(c.up, t.n, t.k, t.c, t.r) && t' == Node(c.l, c.n, c.k, c.c, t.l)
    {
      hide Links, Nodes, Once, Inorder, Plug;
      At(c, t);
      Sides(nil, c, t);
      y, c', t' := x, c, t;
      if x == mem[mem[x].parent].right {
        y := mem[x].parent;
        PlugUp(c, t);
        LeftRotate(y, c.up, Fill(c, t));
        c', t' := InLeft(c.up, t.n, t.k, t.c, t.r), Node(c.l, c.n, c.k, c.c, t.l);
        PlugUp(c', t');
      }
    }

    /** Parent and grandparent swap places and colours. */
    method LiftLeft(x: Ref, ghost c: Context, ghost t: Tree) returns (ghost c': Context)
      requires Rising(x, c, t) && c.InLeft? && c.up.InLeft? && !ParentRed(c.up)
      modifies this
      ensures Rising(x, c', t)
      ensures c' == InLeft(c.up.up, c.n, c.k, Black, Node(c.r, c.up.n, c.up.k, Red, c.up.r)) && SameItems()
    {
      hide Links, Nodes, Once, Inorder, Plug;
      assert Calm(c.up) && Calm(c.up.up);
      LookUp(x, c, t);
      At(c, t);
      var g := mem[mem[x].parent].parent;
      PlugUp(c, t);
      ghost var p := Fill(c, t);
      At(c.up, p);
      Paint(mem[x].parent, Black, c.up, p);
      p := p.(c := Black);
      PlugUp(c.up, p);
      Paint(g, Red, c.up.up, Fill(c.up, p));
      RightRotate(g, c.up.up, Fill(c.up, p).(c := Red));
      c' := InLeft(c.up.up, c.n, c.k, Black, Node(c.r, c.up.n, c.up.k, Red, c.up.r));
      PlugUp(c', t);
    }

    /** A node that is a left child is rotated up, so that a red node is the right child below it. */
    method StraightenRight(x: Ref, ghost c: Context, ghost t: Tree)
        returns (y: Ref, ghost c': Context, ghost t': Tree)
      requires Rising(x, c, t) && ParentRed(c)
      modifies this
      ensures !c.up.Top? && Rising(y, c', t') && c'.InRight? && c'.up == c.up && SameItems()
      ensures if c.InRight? then c' == c && t' == t
              else c' == InRight(t.l, t.n, t.k, t.c, c.up) && t' == Node(t.r, c.n, c.k, c.c, c.r)
    {
      hide Links, Nodes, Once, Inorder, Plug;
      At(c, t);
      Sides(nil, c, t);
      y, c', t' := x, c, t;
      if x == mem[mem[x].parent].left {
        y := mem[x].parent;
        PlugUp(c, t);
        RightRotate(y, c.up, Fill(c, t));
        c', t' := InRight(t.l, t.n, t.k, t.c, c.up), Node(t.r, c.n, c.k, c.c, c.r);
        PlugUp(c', t');
      }
    }

    /** Parent and grandparent swap places and colours. */
    method LiftRight(x: Ref, ghost c: Context, ghost t: Tree) returns (ghost c': Context)
      requires Rising(x, c, t) && c.InRight? && c.up.InRight? && !ParentRed(c.up)
      modifies this
      ensures Rising(x, c', t)
      ensures c' == InRight(Node(c.up.l, c.up.n, c.up.k, Red, c.l), c.n, c.k, Black, c.up.up) && SameItems()
    {
      hide Links, Nodes, Once, Inorder, Plug;
      assert Calm(c.up) && Calm(c.up.up);
      LookUp(x, c, t);
      At(c, t);
      var g := mem[mem[x].parent].parent;
      PlugUp(c, t);
      ghost var p := Fill(c, t);
      At(c.up, p);
      Paint(mem[x].parent, Black, c.up, p);
      p := p.(c := Black);
      PlugUp(c.up, p);
      Paint(g, Red, c.up.up, Fill(c.up, p));
      LeftRotate(g, c.up.up, Fill(c.up, p).(c := Red));
      c' := InRight(Node(c.up.l, c.up.n, c.up.k, Red, c.l), c.n, c.k, Black, c.up.up);
      PlugUp(c', t);
    }

    /** RBTreeInsertFixup, from a node of either colour. */
    method InsertFixup(n: Ref, ghost c0: Context, ghost t0: Tree)
      requires Rising(n, c0, t0)
      modifies this
      ensures Linked() && tree == Fixup(c0, t0) && SameItems()
    {
      hide Links, Nodes, Once, Inorder, Plug, Recoloured;
      var x := n;
      ghost var c, t := c0, t0;
      Look(x, c, t);
      while mem[mem[x].parent].color == Red
        invariant Rising(x, c, t) && SameItems() && Fixup(c, t) == Fixup(c0, t0)
        invariant x in mem && mem[x].parent in mem && (mem[mem[x].parent].color == Red <==> ParentRed(c))
        decreases Depth(c)
      {
        Look(x, c, t);
        assert Depth(c) == 1 + Depth(c.up) == 2 + Depth(c.up.up);
        ghost var d, s := c, t;
        var g := mem[mem[x].parent].parent;
        if mem[x].parent == mem[g].left {
          var u := mem[g].right;
          if mem[u].color == Red {
            x, c, t := UncleRed(x, u, c, t);
          } else {
            x, c, t := StraightenLeft(x, c, t);
            c := LiftLeft(x, c, t);
            PlugUp(c, t);
            assert Plug(c, t) == Plug(d.up.up, Lifted(d, s));
          }
        } else {
          var u := mem[g].left;
          if mem[u].color == Red {
            x, c, t := UncleRed(x, u, c, t);
          } else {
            x, c, t := StraightenRight(x, c, t);
            c := LiftRight(x, c, t);
            PlugUp(c, t);
            assert Plug(c, t) == Plug(d.up.up, Lifted(d, s));
          }
        }
        Look(x, c, t);
        assert !c.Top? ==> Depth(c) == 1 + Depth(c.up);
      }
      NodePlug(c, t);
      PlugTop(Top, tree);
      At(Top, tree);
      ghost var w := tree;
      Paint(root, Black, Top, w);
      PlugTop(Top, w.(c := Black));
    }

    static lemma NodePlug(c: Context, t: Tree)
      requires t.Node?
      ensures Plug(c, t).Node?
    {
      if !c.Top? {
        PlugIsNode(c, t);
      }
    }

    /** A red-black tree in memory, its keys in order. */
    ghost predicate Valid()
      reads this
    {
      Linked() && Rb(tree) && !IsRed(tree) && Sorted(Inorder(tree))
    }

    lemma Items()
      requires Linked()
      ensures forall x :: x in Inorder(tree) ==> x.0 in Nodes(tree) && x.0 in mem && mem[x.0].key == x.1
      ensures forall n :: n in Nodes(tree) ==> n in mem && n != nil && (n, mem[n].key) in Inorder(tree)
    {
      ItemsAre(nil, tree, nil);
    }

    /** Stores to a node that is in no tree; rbnode_init is such a store. */
    method Store(n: Ref, f: Fields)
      requires Linked() && n !in Nodes(tree) && n != nil
      modifies `mem
      ensures mem == old(mem)[n := f] && Linked() && (old(Valid()) ==> Valid())
    {
      mem := mem[n := f];
    }

    /** The descent of RBTreeInsert: the empty place for key k, and the node above it. */
    method Descend(k: nat) returns (tp: Ref, ghost c: Context)
      requires Linked() && Sorted(Inorder(tree))
      ensures tree == Plug(c, Leaf) && tp == ParentOf(c, nil) && tp in mem && (tp == nil <==> c.Top?)
      ensures AllAtMost(Before(c), k) && AllAbove(After(c), k)
      ensures !c.Top? ==> mem[tp].key == c.k && (c.InLeft? <==> k < c.k)
    {
      hide Links, Nodes, Once, Inorder, Plug, Sorted, AllAtMost, AllAbove;
      c := Top;
      ghost var t := tree;
      PlugTop(c, t);
      TopOrder(k);
      At(c, t);
      tp := nil;
      var tc := root;
      while tc != nil
        invariant tree == Plug(c, t) && tc == RootOf(nil, t) && tp == ParentOf(c, nil)
        invariant AllAtMost(Before(c), k) && AllAbove(After(c), k)
        invariant !c.Top? ==> (c.InLeft? <==> k < c.k)
        invariant tp in mem && (t.Node? ==> tc in mem && tc != nil) && (!c.Top? ==> tp != nil && mem[tp].key == c.k)
        decreases t
      {
        At(c, t);
        InorderPlug(c, t);
        DescendOrder(c, t, k);
        tp := tc;
        if k < mem[tc].key {
          tc := mem[tc].left;
          c, t := InLeft(c, t.n, t.k, t.c, t.r), t.l;
        } else {
          tc := mem[tc].right;
          c, t := InRight(t.l, t.n, t.k, t.c, c), t.r;
        }
        PlugUp(c, t);
        At(c, t);
      }
    }

    /** The new node is linked under the node that the descent ended at. */
    method Attach(n: Ref, tp: Ref, ghost c: Context)
      requires Linked() && tree == Plug(c, Leaf) && n in mem && n != nil && n !in Nodes(tree)
      requires mem[n].left == mem[n].right == nil
      requires tp == ParentOf(c, nil) && tp in mem && (tp == nil <==> c.Top?)
      requires !c.Top? ==> mem[tp].key == c.k && (c.InLeft? <==> mem[n].key < c.k)
      modifies this
      ensures Linked() && tree == Plug(c, Node(Leaf, n, old(mem[n].key), old(mem[n].color), Leaf))
      ensures Nodes(tree) == old(Nodes(tree)) + {n} && OthersKept()
    {
      hide Links, Nodes, Once, Plug, RootOf, ParentOf;
      AttachLinks(nil, c, n, mem[n].key, mem[n].color);
      tree := Plug(c, Node(Leaf, n, mem[n].key, mem[n].color, Leaf));
      var a := mem;
      a := a[n := a[n].(parent := tp)];
      if tp == nil {
        root := n;
      } else if a[n].key < a[tp].key {
        a := a[tp := a[tp].(left := n)];
      } else {
        a := a[tp := a[tp].(right := n)];
      }
      mem := a;
    }

    /** RBTreeInsert of a node with nil children, at the empty place c.  For a red node the result is a
        red-black tree; a black one goes through the same stores. */
    method Insert(n: Ref) returns (ghost c: Context)
      requires Valid() && n in mem && n != nil && n !in Nodes(tree)
      requires mem[n].left == mem[n].right == nil
      modifies this
      ensures Linked() && old(tree) == Plug(c, Leaf)
      ensures tree == Fixup(c, Node(Leaf, n, old(mem[n].key), old(mem[n].color), Leaf))
      ensures Inorder(tree) == InsertItem(old(Inorder(tree)), (n, old(mem[n].key))) && Sorted(Inorder(tree))
      ensures old(mem[n].color) == Red ==> Valid()
      ensures Nodes(tree) == old(Nodes(tree)) + {n} && OthersKept() && KeysKept(old(mem), mem)
    {
      hide Links, Nodes, Once, Inorder, Plug, Sorted, AllAtMost, AllAbove, Rb, Bh, CtxRb, Linked, Fixup, Calm;
      Items();
      InsertedItems(Inorder(tree), (n, mem[n].key));
      var tp;
      tp, c := Descend(mem[n].key);
      Attached(c, n, mem[n].key, mem[n].color);
      ghost var t := Node(Leaf, n, mem[n].key, mem[n].color, Leaf);
      Attach(n, tp, c);
      InsertFixup(n, c, t);
      if t.c == Red {
        FixupRb(c, t);
      }
      Items();
    }

    // ---------------------------------------------------------------- deletion

    /** The loop of RBTreeDeleteFixup holds node x, perhaps nil, whose subtree may lack one black node. */
    ghost predicate Sinking(x: Ref, c: Context, s: Tree)
      reads this
    {
      && Linked() && tree == Plug(c, s) && Short(c, s)
      && x == RootOf(nil, s) && x in mem && mem[x].parent == ParentOf(c, nil)
    }

    /** What the loop test reads. */
    lemma Test(x: Ref, c: Context, s: Tree)
      requires Sinking(x, c, s)
      ensures (x == root <==> c.Top?) && (mem[x].color == Red <==> IsRed(s))
    {
      At(c, s);
      NodesPlug(c, s);
      if !c.Top? {
        RootStable(nil, c, s, s);
        RootAround(c, s);
      }
    }

    lemma RootAround(c: Context, s: Tree)
      requires Linked() && tree == Plug(c, s) && !c.Top?
      ensures root != RootOf(nil, s) && root != nil
    {
      OncePlug(c, s);
      TopOfContext(nil, c, s);
    }

    /** What the body of the loop reads: the parent, the sibling and the nephews. */
    lemma LookDown(x: Ref, c: Context, s: Tree)
      requires Sinking(x, c, s) && !c.Top?
      ensures c.n in mem && mem[x].parent == c.n && (x == mem[c.n].left <==> c.InLeft?)
      ensures var w, t := if c.InLeft? then mem[c.n].right else mem[c.n].left, SiblingOf(c);
              && t.Node? && w == t.n && w in mem && w != nil && (mem[w].color == Red <==> IsRed(t))
              && mem[w].left == RootOf(nil, t.l) && mem[w].right == RootOf(nil, t.r)
              && mem[w].left in mem && (mem[mem[w].left].color == Red <==> IsRed(t.l))
              && mem[w].right in mem && (mem[mem[w].right].color == Red <==> IsRed(t.r))
              && mem[w].parent == c.n
    {
      ShortSibling(c, s);
      At(c, s);
      Sides(nil, c, s);
      PlugUp(c, s);
      var a, t := Aside(c, s), SiblingOf(c);
      AsideFill(c, s);
      PlugUp(a, t);
      RedAt(a, t);
      At(a, t);
      var l := InLeft(a, t.n, t.k, t.c, t.r);
      PlugUp(l, t.l);
      RedAt(l, t.l);
      var r := InRight(t.l, t.n, t.k, t.c, a);
      PlugUp(r, t.r);
      RedAt(r, t.r);
    }

    /** N->color = BLACK at the end of RBTreeDeleteFixup, where N may be nil. */
    method BlackenFocus(x: Ref, ghost c: Context, ghost s: Tree)
      requires Sinking(x, c, s)
      modifies this
      ensures Linked() && tree == Plug(c, Blacken(s)) && SameItems()
    {
      hide Links, Nodes, Once, Inorder, Plug, Short;
      if s.Node? {
        PaintLinks(nil, c, s, Black);
        At(c, s);
      }
      mem := mem[x := mem[x].(color := Black)];
      tree := Plug(c, Blacken(s));
    }

    /** Black sibling with black children: the sibling turns red and the parent is next. */
    method ReddenSibling(x: Ref, w: Ref, ghost c: Context, ghost s: Tree)
        returns (y: Ref, ghost c': Context, ghost s': Tree)
      requires Sinking(x, c, s) && !IsRed(s) && !c.Top? && SiblingOf(c).Node? && w == SiblingOf(c).n
      requires !IsRed(SiblingOf(c)) && !IsRed(SiblingOf(c).l) && !IsRed(SiblingOf(c).r)
      modifies this
      ensures Sinking(y, c', s') && c' == c.up && (IsRed(s') <==> c.c.Red?) && SameItems()
    {
      hide Links, Nodes, Once, Inorder, Plug, Rb, Bh, CtxRb, Short;
      BlackNephews(c, s);
      PlugUp(c, s);
      AsideFill(c, s);
      ghost var a, t := Aside(c, s), SiblingOf(c);
      PlugUp(a, t);
      At(c, s);
      y := mem[x].parent;
      Paint(w, Red, a, t);
      c', s' := c.up, Fill(a, Redden(t));
      PlugUp(a, Redden(t));
      At(c', s');
    }

    /** Red sibling: it changes places and colours with the parent. */
    method RaiseSiblingLeft(x: Ref, w: Ref, ghost c: Context, ghost s: Tree) returns (v: Ref, ghost c': Context)
      requires Sinking(x, c, s) && !IsRed(s) && c.InLeft? && IsRed(c.r) && w == c.r.n
      modifies this
      ensures Sinking(x, c', s) && c'.InLeft? && !IsRed(SiblingOf(c')) && v == RootOf(nil, SiblingOf(c')) && SameItems()
      ensures c'.c.Red? && Depth(c') == 1 + Depth(c)
    {
      hide Links, Nodes, Once, Inorder, Plug, Rb, Bh, CtxRb, Short;
      RedSibling(c, s);
      LookDown(x, c, s);
      var p := mem[x].parent;
      ghost var a, t := Aside(c, s), SiblingOf(c);
      PlugUp(c, s);
      AsideFill(c, s);
      PlugUp(a, t);
      Paint(w, Black, a, t);
      PlugUp(a, Blacken(t));
      ghost var g := Fill(a, Blacken(t));
      At(a, Blacken(t));
      At(c.up, g);
      Paint(mem[w].parent, Red, c.up, g);
      LeftRotate(p, c.up, Redden(g));
      c' := InLeft(InLeft(c.up, t.n, t.k, Black, t.r), c.n, c.k, Red, t.l);
      PlugUp(c', s);
      PlugUp(c'.up, Fill(c', s));
      At(c', s);
      v := mem[mem[x].parent].right;
      ShortSibling(c, s);
    }

    /** Near nephew red, far nephew black: they are rotated so that the far one is red. */
    method RaiseNephewLeft(x: Ref, w: Ref, ghost c: Context, ghost s: Tree) returns (v: Ref, ghost c': Context)
      requires Sinking(x, c, s) && !IsRed(s) && c.InLeft? && c.r.Node? && w == c.r.n && !IsRed(c.r)
      requires IsRed(c.r.l) && !IsRed(c.r.r)
      modifies this
      ensures Sinking(x, c', s) && c'.InLeft? && c'.up == c.up
      ensures FarNephewRed(c', s) && v == SiblingOf(c').n && SameItems()
    {
      hide Links, Nodes, Once, Inorder, Plug, Rb, Bh, CtxRb, Short;
      NearNephew(c, s);
      LookDown(x, c, s);
      ghost var a, t := Aside(c, s), SiblingOf(c);
      PlugUp(c, s);
      AsideFill(c, s);
      PlugUp(a, t);
      ghost var b := InLeft(a, t.n, t.k, t.c, t.r);
      PlugUp(b, t.l);
      Paint(mem[w].left, Black, b, t.l);
      PlugUp(b, Blacken(t.l));
      ghost var t1 := Fill(b, Blacken(t.l));
      Paint(w, Red, a, t1);
      RightRotate(w, a, Redden(t1));
      c' := InLeft(c.up, c.n, c.k, c.c, Node(t.l.l, t.l.n, t.l.k, Black, Node(t.l.r, t.n, t.k, Red, t.r)));
      PlugUp(a, RotateRight(Redden(t1)));
      PlugUp(c', s);
      At(c', s);
      v := mem[mem[x].parent].right;
    }

    /** Far nephew red: one rotation settles the tree.  The sibling takes the parent's colour, as the right
        branch of the code has it; RbShape.FarNephewAsWritten says when the written left branch agrees. */
    method SettleLeft(x: Ref, w: Ref, ghost c: Context, ghost s: Tree)
      requires Sinking(x, c, s) && c.InLeft? && FarNephewRed(c, s) && w == SiblingOf(c).n
      modifies this
      ensures Sinking(root, Top, tree) && tree == Plug(c.up, Settled(c, s, c.c)) && SameItems()
    {
      hide Links, Nodes, Once, Inorder, Plug, Rb, Bh, CtxRb, Short;
      LookDown(x, c, s);
      At(c, s);
      var p := mem[x].parent;
      ghost var a, t := Aside(c, s), SiblingOf(c);
      PlugUp(c, s);
      AsideFill(c, s);
      PlugUp(a, t);
      Paint(w, mem[p].color, a, t);
      ghost var t1 := t.(c := c.c);
      PlugUp(a, t1);
      ghost var g := Fill(a, t1);
      At(c.up, g);
      Paint(p, Black, c.up, g);
      ghost var b := InRight(s, c.n, c.k, Black, c.up);
      PlugUp(b, t1);
      ghost var d := InRight(t.l, t.n, t.k, c.c, b);
      PlugUp(d, t.r);
      At(b, t1);
      Paint(mem[w].right, Black, d, t.r);
      PlugUp(d, Blacken(t.r));
      PlugUp(b, Fill(d, Blacken(t.r)));
      LeftRotate(p, c.up, Fill(b, Fill(d, Blacken(t.r))));
      FarNephew(c, s);
      ShortTop(tree);
      PlugTop(Top, tree);
      At(Top, tree);
    }

    /** Red sibling: it changes places and colours with the parent. */
    method RaiseSiblingRight(x: Ref, w: Ref, ghost c: Context, ghost s: Tree) returns (v: Ref, ghost c': Context)
      requires Sinking(x, c, s) && !IsRed(s) && c.InRight? && IsRed(c.l) && w == c.l.n
      modifies this
      ensures Sinking(x, c', s) && c'.InRight? && !IsRed(SiblingOf(c'))
      ensures v == RootOf(nil, SiblingOf(c')) && SameItems()
      ensures c'.c.Red? && Depth(c') == 1 + Depth(c)
    {
      hide Links, Nodes, Once, Inorder, Plug, Rb, Bh, CtxRb, Short;
      RedSibling(c, s);
      LookDown(x, c, s);
      var p := mem[x].parent;
      ghost var a, t := Aside(c, s), SiblingOf(c);
      PlugUp(c, s);
      AsideFill(c, s);
      PlugUp(a, t);
      Paint(w, Black, a, t);
      PlugUp(a, Blacken(t));
      ghost var g := Fill(a, Blacken(t));
      At(a, Blacken(t));
      At(c.up, g);
      Paint(mem[w].parent, Red, c.up, g);
      RightRotate(p, c.up, Redden(g));
      c' := InRight(t.r, c.n, c.k, Red, InRight(t.l, t.n, t.k, Black, c.up));
      PlugUp(c', s);
      PlugUp(c'.up, Fill(c', s));
      At(c', s);
      v := mem[mem[x].parent].left;
      ShortSibling(c, s);
    }

    /** Near nephew red, far nephew black: they are rotated so that the far one is red. */
    method RaiseNephewRight(x: Ref, w: Ref, ghost c: Context, ghost s: Tree) returns (v: Ref, ghost c': Context)
      requires Sinking(x, c, s) && !IsRed(s) && c.InRight? && c.l.Node? && w == c.l.n && !IsRed(c.l)
      requires IsRed(c.l.r) && !IsRed(c.l.l)
      modifies this
      ensures Sinking(x, c', s) && c'.InRight? && c'.up == c.up
      ensures FarNephewRed(c', s) && v == SiblingOf(c').n && SameItems()
    {
      hide Links, Nodes, Once, Inorder, Plug, Rb, Bh, CtxRb, Short;
      NearNephew(c, s);
      LookDown(x, c, s);
      ghost var a, t := Aside(c, s), SiblingOf(c);
      PlugUp(c, s);
      AsideFill(c, s);
      PlugUp(a, t);
      ghost var b := InRight(t.l, t.n, t.k, t.c, a);
      PlugUp(b, t.r);
      Paint(mem[w].right, Black, b, t.r);
      PlugUp(b, Blacken(t.r));
      ghost var t1 := Fill(b, Blacken(t.r));
      Paint(w, Red, a, t1);
      LeftRotate(w, a, Redden(t1));
      c' := InRight(Node(Node(t.l, t.n, t.k, Red, t.r.l), t.r.n, t.r.k, Black, t.r.r), c.n, c.k, c.c, c.up);
      PlugUp(a, RotateLeft(Redden(t1)));
      PlugUp(c', s);
      At(c', s);
      v := mem[mem[x].parent].left;
    }

    /** Far nephew red: one rotation settles the tree.  The sibling takes the parent's colour, as the right
        branch of the code has it; RbShape.FarNephewAsWritten says when the written left branch agrees. */
    method SettleRight(x: Ref, w: Ref, ghost c: Context, ghost s: Tree)
      requires Sinking(x, c, s) && c.InRight? && FarNephewRed(c, s) && w == SiblingOf(c).n
      modifies this
      ensures Sinking(root, Top, tree) && tree == Plug(c.up, Settled(c, s, c.c)) && SameItems()
    {
      hide Links, Nodes, Once, Inorder, Plug, Rb, Bh, CtxRb, Short;
      LookDown(x, c, s);
      At(c, s);
      var p := mem[x].parent;
      ghost var a, t := Aside(c, s), SiblingOf(c);
      PlugUp(c, s);
      AsideFill(c, s);
      PlugUp(a, t);
      Paint(w, mem[p].color, a, t);
      ghost var t1 := t.(c := c.c);
      PlugUp(a, t1);
      ghost var g := Fill(a, t1);
      At(c.up, g);
      Paint(p, Black, c.up, g);
      ghost var b := InLeft(c.up, c.n, c.k, Black, s);
      PlugUp(b, t1);
      ghost var d := InLeft(b, t.n, t.k, c.c, t.r);
      PlugUp(d, t.l);
      At(b, t1);
      Paint(mem[w].left, Black, d, t.l);
      PlugUp(d, Blacken(t.l));
      PlugUp(b, Fill(d, Blacken(t.l)));
      RightRotate(p, c.up, Fill(b, Fill(d, Blacken(t.l))));
      FarNephew(c, s);
      ShortTop(tree);
      PlugTop(Top, tree);
      At(Top, tree);
    }

    /** One turn of RBTreeDeleteFixup at a left child: the node in hand turns red, goes up or is settled. */
    method TurnLeft(n: Ref, ghost c0: Context, ghost s0: Tree) returns (x: Ref, ghost c: Context, ghost s: Tree)
      requires Sinking(n, c0, s0) && !IsRed(s0) && c0.InLeft?
      modifies this
      ensures Sinking(x, c, s) && SameItems() && (IsRed(s) || Depth(c) < Depth(c0))
    {
      hide Links, Nodes, Once, Inorder, Plug, Rb, Bh, CtxRb, Short;
      x, c, s := n, c0, s0;
      LookDown(x, c, s);
      assert Depth(c) == 1 + Depth(c.up);
      var w := mem[mem[x].parent].right;
      if mem[w].color == Red {
        w, c := RaiseSiblingLeft(x, w, c, s);
        LookDown(x, c, s);
      }
      if mem[mem[w].left].color == Black && mem[mem[w].right].color == Black {
        x, c, s := ReddenSibling(x, w, c, s);
      } else {
        if mem[mem[w].right].color == Black {
          w, c := RaiseNephewLeft(x, w, c, s);
        }
        SettleLeft(x, w, c, s);
        x, c, s := root, Top, tree;
      }
    }

    method TurnRight(n: Ref, ghost c0: Context, ghost s0: Tree) returns (x: Ref, ghost c: Context, ghost s: Tree)
      requires Sinking(n, c0, s0) && !IsRed(s0) && c0.InRight?
      modifies this
      ensures Sinking(x, c, s) && SameItems() && (IsRed(s) || Depth(c) < Depth(c0))
    {
      hide Links, Nodes, Once, Inorder, Plug, Rb, Bh, CtxRb, Short;
      x, c, s := n, c0, s0;
      LookDown(x, c, s);
      assert Depth(c) == 1 + Depth(c.up);
      var w := mem[mem[x].parent].left;
      if mem[w].color == Red {
        w, c := RaiseSiblingRight(x, w, c, s);
        LookDown(x, c, s);
      }
      if mem[mem[w].left].color == Black && mem[mem[w].right].color == Black {
        x, c, s := ReddenSibling(x, w, c, s);
      } else {
        if mem[mem[w].left].color == Black {
          w, c := RaiseNephewRight(x, w, c, s);
        }
        SettleRight(x, w, c, s);
        x, c, s := root, Top, tree;
      }
    }

    /** RBTreeDeleteFixup. */
    method DeleteFixup(n: Ref, ghost c0: Context, ghost s0: Tree)
      requires Sinking(n, c0, s0)
      modifies this
      ensures Linked() && Rb(tree) && !IsRed(tree) && SameItems()
    {
      hide Links, Nodes, Once, Inorder, Plug, Rb, Bh, CtxRb, Short;
      var x := n;
      ghost var c, s := c0, s0;
      Test(x, c, s);
      while x != root && mem[x].color == Black
        invariant Sinking(x, c, s) && SameItems()
        invariant (x == root <==> c.Top?) && (mem[x].color == Red <==> IsRed(s))
        decreases if IsRed(s) then 0 else Depth(c)
      {
        LookDown(x, c, s);
        assert Depth(c) == 1 + Depth(c.up);
        if x == mem[mem[x].parent].left {
          x, c, s := TurnLeft(x, c, s);
        } else {
          x, c, s := TurnRight(x, c, s);
        }
        Test(x, c, s);
      }
      AtRest(c, s);
      BlackenFocus(x, c, s);
    }

    /** RBTreeTransplant: dst, perhaps nil, takes the place of src. */
    method Transplant(src: Ref, dst: Ref)
      requires src in mem && mem[src].parent in mem && dst in mem
      modifies `mem, `root
      ensures mem == TransplantStores(nil, old(mem), src, dst)
      ensures root == if old(mem[src].parent) == nil then dst else old(root)
      ensures mem.Keys == old(mem.Keys)
    {
      var h := mem[src].parent;
      if h == nil {
        root := dst;
      } else if src == mem[h].left {
        mem := mem[h := mem[h].(left := dst)];
      } else {
        mem := mem[h := mem[h].(right := dst)];
      }
      mem := mem[dst := mem[dst].(parent := mem[src].parent)];
    }

    /** The sentinel stands for the missing children. */
    lemma Children(c: Context, t: Tree)
      requires Linked() && tree == Plug(c, t) && t.Node?
      ensures t.n in mem && (mem[t.n].left == nil <==> t.l.Leaf?) && (mem[t.n].right == nil <==> t.r.Leaf?)
    {
      At(c, t);
      PlugUp(InLeft(c, t.n, t.k, t.c, t.r), t.l);
      PlugUp(InRight(t.l, t.n, t.k, t.c, c), t.r);
      At(InLeft(c, t.n, t.k, t.c, t.r), t.l);
      At(InRight(t.l, t.n, t.k, t.c, c), t.r);
    }

    /** RBTreeMinimum of the subtree t. */
    method Minimum(x: Ref, ghost c: Context, ghost t: Tree) returns (y: Ref, ghost lc: Context, ghost m: Tree)
      requires Linked() && tree == Plug(c, t) && t.Node? && x == t.n
      ensures LeftSpine(lc) && t == Plug(lc, m) && m.Node? && m.l.Leaf? && y == m.n
    {
      hide Links, Nodes, Once, Inorder, Plug;
      y, lc, m := x, Top, t;
      PlugTop(Top, t);
      AtWithin(Top, c, t);
      while mem[y].left != nil
        invariant LeftSpine(lc) && t == Plug(lc, m) && m.Node? && y == m.n
        invariant y in mem && mem[y].left == RootOf(nil, m.l) && (m.l.Node? ==> m.l.n != nil)
        decreases m
      {
        y := mem[y].left;
        lc, m := InLeft(lc, m.n, m.k, m.c, m.r), m.l;
        PlugUp(lc, m);
        AtWithin(lc, c, m);
      }
    }

    lemma AtWithin(lc: Context, c: Context, m: Tree)
      requires Linked() && tree == Plug(c, Plug(lc, m)) && m.Node?
      ensures m.n in mem && m.n != nil && mem[m.n] == 
                Fields(RootOf(nil, m.l), RootOf(nil, m.r), ParentOf(Append(lc, c), nil), m.k, m.c)
      ensures m.l.Node? ==> m.l.n != nil
    {
      PlugAppend(lc, c, m);
      At(Append(lc, c), m);
      if m.l.Node? {
        var d := InLeft(Append(lc, c), m.n, m.k, m.c, m.r);
        PlugUp(d, m.l);
        At(d, m.l);
      }
    }

    /** A node was taken out; x, perhaps nil, is the root of what follows in the place that lost a node of
        colour `lost`. */
    ghost predicate TakenOut(x: Ref, c: Context, s: Tree, lost: Color)
      reads this
    {
      && Linked() && tree == Plug(c, s) && x == RootOf(nil, s) && x in mem && mem[x].parent == ParentOf(c, nil)
      && if lost.Black? then Short(c, s) else Rb(tree) && !IsRed(tree)
    }

    /** A node with one child at most gives its place to that child. */
    method SpliceOut(n: Ref, x: Ref, ghost c: Context, ghost t: Tree, ghost s: Tree)
      requires Linked() && Rb(tree) && !IsRed(tree) && tree == Plug(c, t) && t.Node? && t.n == n
      requires ((t.l.Leaf? && s == t.r) || (t.r.Leaf? && s == t.l)) && x == RootOf(nil, s)
      modifies this
      ensures TakenOut(x, c, s, t.c) && Nodes(tree) == old(Nodes(tree)) - {n} && n != nil
      ensures Kept(Nodes(tree) + {nil}, old(mem), mem)
    {
      hide Links, Nodes, Once, Inorder, Plug, Rb, Bh, CtxRb, Short, TransplantStores;
      At(c, t);
      SpliceStores(nil, mem, c, t, s);
      TakenOutRb(c, c, t, s);
      Transplant(n, x);
      tree := Plug(c, s);
    }

    /** The least node y of the right subtree, which is n's right child, takes the place of n. */
    method Hoist(n: Ref, y: Ref, ghost c: Context, ghost t: Tree) returns (x: Ref)
      requires Linked() && tree == Plug(c, t) && t.Node? && t.n == n && t.l.Node? && t.r.Node?
      requires t.r.n == y && t.r.l.Leaf?
      modifies this
      ensures Linked() && tree == Plug(c, Node(t.l, y, t.r.k, t.c, t.r.r)) && Nodes(tree) == old(Nodes(tree)) - {n}
      ensures x == RootOf(nil, t.r.r) && x in mem && mem[x].parent == y && n != nil
      ensures Kept(Nodes(tree) + {nil}, old(mem), mem)
    {
      hide Links, Nodes, Once, Inorder, Plug, RootOf;
      At(c, t);
      HoistStoresHold(nil, mem, c, t);
      tree := Plug(c, Node(t.l, y, t.r.k, t.c, t.r.r));
      x := mem[y].right;
      mem := mem[x := mem[x].(parent := y)];
      Transplant(n, y);
      mem := mem[y := mem[y].(left := mem[n].left)];
      mem := mem[mem[y].left := mem[mem[y].left].(parent := y)];
      mem := mem[y := mem[y].(color := mem[n].color)];
    }

    /** Node y, which is in no tree, takes the place and the colour of n. */
    method TakePlace(n: Ref, y: Ref, ghost c: Context, ghost t: Tree)
      requires Linked() && tree == Plug(c, t) && t.Node? && t.n == n && t.l.Node? && t.r.Node?
      requires y in mem && y !in Nodes(tree) && y != nil
      modifies this
      ensures Linked() && tree == Plug(c, Node(t.l, y, old(mem[y].key), t.c, t.r))
      ensures Nodes(tree) == old(Nodes(tree)) - {n} + {y}
      ensures nil in mem && mem[nil] == old(mem[nil]) && Kept(Nodes(tree), old(mem), mem)
    {
      hide Links, Nodes, Once, Inorder, Plug, RootOf;
      RenameStores(nil, mem, c, t, y);
      tree := Plug(c, Node(t.l, y, mem[y].key, t.c, t.r));
      mem := mem[y := mem[y].(right := mem[n].right)];
      mem := mem[mem[y].right := mem[mem[y].right].(parent := y)];
      Transplant(n, y);
      mem := mem[y := mem[y].(left := mem[n].left)];
      mem := mem[mem[y].left := mem[mem[y].left].(parent := y)];
      mem := mem[y := mem[y].(color := mem[n].color)];
    }

    /** The least node y of the right subtree, deeper down, is taken out and takes the place of n. */
    method TakeOutAndPlace(n: Ref, y: Ref, ghost c: Context, ghost t: Tree, ghost lc: Context, ghost m: Tree)
        returns (x: Ref)
      requires Linked() && Rb(tree) && !IsRed(tree) && tree == Plug(c, t) && t.Node? && t.n == n && t.l.Node?
      requires t.r == Plug(lc, m) && m.Node? && m.l.Leaf? && m.n == y && !lc.Top?
      modifies this
      ensures Linked() && tree == Plug(c, Node(t.l, y, m.k, t.c, Plug(lc, m.r)))
      ensures x == RootOf(nil, m.r) && x in mem && (x == nil ==> mem[x].parent == lc.n)
      ensures Nodes(tree) == old(Nodes(tree)) - {n} && Kept(Nodes(tree) + {nil}, old(mem), mem)
    {
      hide Links, Nodes, Once, Inorder, Plug, Rb, Bh, CtxRb, Short, TransplantStores, Append;
      WithinRight(nil, c, t, lc, m);
      ghost var b := Append(lc, InRight(t.l, n, t.k, t.c, c));
      At(c, t);
      At(b, m);
      x := mem[y].right;
      SpliceOut(y, x, b, m, m.r);
      ghost var t1 := t.(r := Plug(lc, m.r));
      PlugAppend(lc, InRight(t.l, n, t.k, t.c, c), m.r);
      PlugUp(InRight(t.l, n, t.k, t.c, c), t1.r);
      PlugIsNode(lc, m.r);
      RootStable(nil, lc, m, m.r);
      At(c, t1);
      TakePlace(n, y, c, t1);
      At(c, Node(t.l, y, m.k, t.c, t1.r));
    }

    /** A node with two children: the least node of its right subtree takes its place and colour. */
    method Promote(n: Ref, y: Ref, ghost c: Context, ghost t: Tree, ghost lc: Context, ghost m: Tree)
        returns (x: Ref, ghost d: Context)
      requires Linked() && Rb(tree) && !IsRed(tree) && tree == Plug(c, t) && t.Node? && t.n == n && t.l.Node?
      requires t.r == Plug(lc, m) && m.Node? && m.l.Leaf? && m.n == y
      modifies this
      ensures TakenOut(x, d, m.r, m.c) && tree == Plug(c, Node(t.l, y, m.k, t.c, Plug(lc, m.r)))
      ensures Nodes(tree) == old(Nodes(tree)) - {n} && n != nil
      ensures Kept(Nodes(tree) + {nil}, old(mem), mem)
    {
      hide Links, Nodes, Once, Inorder, Plug, Rb, Bh, CtxRb, Short, TransplantStores, Append;
      PromotedRb(c, t, lc, m);
      WithinRight(nil, c, t, lc, m);
      At(c, t);
      At(Append(lc, InRight(t.l, n, t.k, t.c, c)), m);
      d := Append(lc, InRight(t.l, y, m.k, t.c, c));
      ParentAppend(lc, n, y, t, m.k, c);
      if mem[y].parent == n {
        PlugTop(lc, m.r);
        x := Hoist(n, y, c, t);
      } else {
        x := TakeOutAndPlace(n, y, c, t, lc, m);
      }
      hide Linked, RootOf;
      At(d, m.r);
      hide Kept;
    }

    static lemma ParentAppend(lc: Context, n: Ref, y: Ref, t: Tree, k: nat, c: Context)
      requires t.Node?
      ensures var d := Append(lc, InRight(t.l, y, k, t.c, c));
              !d.Top? && d.n == if lc.Top? then y else lc.n
    {
    }

    /** The three cases of RBTreeDeleteNode. */
    method TakeOut(n: Ref, ghost c: Context, ghost t: Tree)
        returns (x: Ref, lost: Color, ghost d: Context, ghost s: Tree)
      requires Valid() && tree == Plug(c, t) && t.Node? && t.n == n
      modifies this
      ensures TakenOut(x, d, s, lost) && n != nil && Sorted(Inorder(tree))
      ensures ItemRemoved(old(Inorder(tree)), Inorder(tree), |Before(c) + Inorder(t.l)|, (n, t.k))
      ensures Nodes(tree) == old(Nodes(tree)) - {n} && Kept(Nodes(tree) + {nil}, old(mem), mem)
    {
      hide Links, Nodes, Once, Inorder, Plug, Rb, Bh, CtxRb, Short, Sorted, Before, After, TransplantStores, Append,
        LeftSpine, ItemRemoved, Kept;
      At(c, t);
      Children(c, t);
      lost := mem[n].color;
      if mem[n].left == nil {
        x := mem[n].right;
        d, s := c, t.r;
        RemovedBySplice(c, t, s);
        SpliceOut(n, x, c, t, s);
      } else if mem[n].right == nil {
        x := mem[n].left;
        d, s := c, t.l;
        RemovedBySplice(c, t, s);
        SpliceOut(n, x, c, t, s);
      } else {
        PlugUp(InRight(t.l, n, t.k, t.c, c), t.r);
        var y; ghost var lc, m;
        y, lc, m := Minimum(mem[n].right, InRight(t.l, n, t.k, t.c, c), t.r);
        AtWithin(lc, InRight(t.l, n, t.k, t.c, c), m);
        lost := mem[y].color;
        RemovedByPromotion(c, t, lc, m);
        x, d := Promote(n, y, c, t, lc, m);
        s := m.r;
      }
    }

    /** The node that was taken out forgets its children. */
    method ClearLinks(n: Ref, ghost x: Ref, ghost d: Context, ghost s: Tree, ghost lost: Color)
      requires TakenOut(x, d, s, lost) && n !in Nodes(tree) && n != nil && n in mem
      modifies `mem
      ensures TakenOut(x, d, s, lost) && mem == old(mem)[n := old(mem[n]).(left := nil, right := nil)]
    {
      hide Links, Once, Inorder, Plug, Rb, Bh, CtxRb, Short;
      RootIn(nil, s);
      At(d, s);
      mem := mem[n := mem[n].(left := nil, right := nil)];
    }

    /** Memory outside the tree after taking node n out, clearing its links and mending the rest. */
    static lemma DeletedMemory(nil: Ref, a: Memory, a1: Memory, b: Memory, n: Ref, now: set<Ref>)
      requires n in a && n != nil && n !in now && Kept(now + {nil}, a, a1)
      requires var a2 := a1[n := a1[n].(left := nil, right := nil)]; b == a2 || Kept(now, a2, b)
      ensures n in b && b[n] == a[n].(left := nil, right := nil) && Kept(now + {n} + {nil}, a, b)
      ensures forall x :: x in b && x != nil && x !in now ==> x in a && b[x].key == a[x].key
    {
    }

    /** RBTreeDeleteNode: node n and no other is gone, wherever it was. */
    method DeleteNode(n: Ref) returns (ghost i: nat)
      requires Valid() && n in Nodes(tree)
      modifies this
      ensures Valid()
      ensures n in old(mem) && ItemRemoved(old(Inorder(tree)), Inorder(tree), i, (n, old(mem[n].key)))
      ensures Nodes(tree) == old(Nodes(tree)) - {n}
      ensures n in mem && mem[n] == old(mem[n]).(left := nil, right := nil)
      ensures Kept(old(Nodes(tree)) + {nil}, old(mem), mem)
      ensures forall x :: x in mem && x != nil ==> mem[x].key == old(mem[x].key)
    {
      hide Links, Nodes, Once, Inorder, Plug, Rb, Bh, CtxRb, Short, Sorted, Before, After, ItemRemoved, Kept;
      ghost var was, mem0 := tree, mem;
      ghost var c, t := Locate(tree, n);
      At(c, t);
      i := |Before(c) + Inorder(t.l)|;
      var x, lost;
      ghost var d, s;
      x, lost, d, s := TakeOut(n, c, t);
      ghost var mem1 := mem;
      assert n in mem by {
        KeptKeys(Nodes(tree) + {nil}, mem0, mem);
      }
      ClearLinks(n, x, d, s, lost);
      if lost == Black {
        DeleteFixup(x, d, s);
      }
      DeletedMemory(nil, mem0, mem1, mem, n, Nodes(tree));
      assert Nodes(was) == Nodes(tree) + {n};
      KeysStay(nil, was, mem0, tree, mem, i, (n, t.k));
    }

    // ---------------------------------------------------------------- search

    /** RBNodeSucceeder: right for a node without a right child; otherwise it returns the right child, which
        is the next node only when that child has no left child. */
    method Succeeder(n: Ref, ghost c: Context, ghost t: Tree) returns (y: Ref)
      requires Linked() && tree == Plug(c, t) && t.Node? && n == t.n
      ensures n in mem && (mem[n].right == nil ==> y == First(nil, Inorder(t.r) + After(c)))
      ensures mem[n].right != nil ==>
                mem[n].right in mem && (y == First(nil, Inorder(t.r) + After(c)) <==> mem[mem[n].right].left == nil)
    {
      hide Links, Nodes, Once, Inorder, Plug, After;
      At(c, t);
      Children(c, t);
      if n != nil && mem[n].right != nil {
        PlugUp(InRight(t.l, t.n, t.k, t.c, c), t.r);
        Children(InRight(t.l, t.n, t.k, t.c, c), t.r);
        OncePlug(InRight(t.l, t.n, t.k, t.c, c), t.r);
        LeftmostFirst(nil, t.r, After(c));
        return mem[n].right;
      }
      var tx := n;
      ghost var d, s := c, t;
      InorderLeaf(t.r, After(c));
      Side(d, s);
      while mem[tx].parent != nil && tx == mem[mem[tx].parent].right
        invariant tree == Plug(d, s) && s.Node? && tx == s.n && tx in mem && mem[tx].parent in mem
        invariant mem[tx].parent == ParentOf(d, nil) && (mem[tx].parent == nil <==> d.Top?)
        invariant !d.Top? ==> (tx == mem[mem[tx].parent].right <==> d.InRight?)
        invariant After(d) == After(c)
        decreases d
      {
        tx := mem[tx].parent;
        PlugUp(d, s);
        NextUp(nil, d);
        d, s := d.up, Fill(d, s);
        Side(d, s);
      }
      NextUp(nil, d);
      y := mem[tx].parent;
    }

    lemma Side(d: Context, s: Tree)
      requires Linked() && tree == Plug(d, s) && s.Node?
      ensures s.n in mem && mem[s.n].parent == ParentOf(d, nil) && mem[s.n].parent in mem
      ensures mem[s.n].parent == nil <==> d.Top?
      ensures !d.Top? ==> (s.n == mem[d.n].right <==> d.InRight?)
    {
      At(d, s);
      if !d.Top? {
        Sides(nil, d, s);
      }
    }

    static lemma InorderLeaf(t: Tree, rest: seq<Item>)
      requires t.Leaf?
      ensures Inorder(t) + rest == rest
    {
    }
  }

  /** A red-black tree with a node whose right child has a left child: RBNodeSucceeder answers with the right
      child, and the successor is the other one. */
  lemma SucceederExample(nil: Ref)
    requires nil == 0
    ensures var r := Node(Node(Leaf, 3, 20, Red, Leaf), 4, 30, Black, Leaf);
            var t := Node(Node(Leaf, 2, 5, Black, Leaf), 1, 10, Black, r);
            && Rb(t) && Sorted(Inorder(t)) && Once(t) && nil !in Nodes(t)
            && Links(nil, t, nil)[1].right == 4 && Links(nil, t, nil)[4].left == 3
            && First(nil, Inorder(t.r) + After(Top)) == 3
  {
    var r := Node(Node(Leaf, 3, 20, Red, Leaf), 4, 30, Black, Leaf);
    var t := Node(Node(Leaf, 2, 5, Black, Leaf), 1, 10, Black, r);
    assert Inorder(r) == [(3, 20), (4, 30)];
    assert Inorder(t) == [(2, 5), (1, 10), (3, 20), (4, 30)];
  }
}
