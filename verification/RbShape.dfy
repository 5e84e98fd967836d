/** The trees that the nodes of lib/krbfunc.c stand for, trees with a focus (a context, which is the path
    from the root, and the subtree below it), and the fields a tree asks its nodes to have.  The loops of
    that file move the focus; what each round does to the memory is proved to be what it does to the tree,
    and here are the facts about the trees alone. */
module RbShape {

  datatype Color = Red | Black

  /** A pointer to a struct rbnode. */
  type Ref = nat

  datatype Tree =
    | Leaf
    | Node(l: Tree, n: Ref, k: nat, c: Color, r: Tree)

  /** `InLeft(up, n, k, c, r)` is the hole to the left of node n. */
  datatype Context =
    | Top
    | InLeft(up: Context, n: Ref, k: nat, c: Color, r: Tree)
    | InRight(l: Tree, n: Ref, k: nat, c: Color, up: Context)

  type Item = (Ref, nat)

  ghost function Plug(c: Context, t: Tree): Tree
    decreases c
  {
    match c
    case Top => t
    case InLeft(up, n, k, col, r) => Plug(up, Node(t, n, k, col, r))
    case InRight(l, n, k, col, up) => Plug(up, Node(l, n, k, col, t))
  }

  ghost function Nodes(t: Tree): set<Ref> {
    match t
    case Leaf => {}
    case Node(l, n, _, _, r) => Nodes(l) + {n} + Nodes(r)
  }

  ghost function Around(c: Context): set<Ref> {
    match c
    case Top => {}
    case InLeft(up, n, _, _, r) => Around(up) + {n} + Nodes(r)
    case InRight(l, n, _, _, up) => Around(up) + {n} + Nodes(l)
  }

  ghost function Inorder(t: Tree): seq<Item> {
    match t
    case Leaf => []
    case Node(l, n, k, _, r) => Inorder(l) + [(n, k)] + Inorder(r)
  }

  ghost function Before(c: Context): seq<Item> {
    match c
    case Top => []
    case InLeft(up, _, _, _, _) => Before(up)
    case InRight(l, n, k, _, up) => Before(up) + Inorder(l) + [(n, k)]
  }

  ghost function After(c: Context): seq<Item> {
    match c
    case Top => []
    case InLeft(up, n, k, _, r) => [(n, k)] + Inorder(r) + After(up)
    case InRight(_, _, _, _, up) => After(up)
  }

  lemma Regroup(b: seq<Item>, l: seq<Item>, x: seq<Item>, r: seq<Item>, a: seq<Item>)
    ensures b + (l + x + r) + a == b + l + (x + r + a) == (b + l + x) + r + a
  {
  }

  lemma {:induction false} InorderPlug(c: Context, t: Tree)
    ensures Inorder(Plug(c, t)) == Before(c) + Inorder(t) + After(c)
    decreases c
  {
    match c
    case Top =>
    case InLeft(up, n, k, col, r) =>
      InorderPlug(up, Node(t, n, k, col, r));
      Regroup(Before(up), Inorder(t), [(n, k)], Inorder(r), After(up));
    case InRight(l, n, k, col, up) =>
      InorderPlug(up, Node(l, n, k, col, t));
      Regroup(Before(up), Inorder(l), [(n, k)], Inorder(t), After(up));
  }

  lemma {:induction false} NodesPlug(c: Context, t: Tree)
    ensures Nodes(Plug(c, t)) == Around(c) + Nodes(t)
    decreases c
  {
    match c
    case Top =>
    case InLeft(up, n, k, col, r) => NodesPlug(up, Node(t, n, k, col, r));
    case InRight(l, n, k, col, up) => NodesPlug(up, Node(l, n, k, col, t));
  }

  // ---------------------------------------------------------------- colours and black heights

  ghost predicate IsRed(t: Tree) {
    t.Node? && t.c.Red?
  }

  ghost function Bh(t: Tree): nat {
    match t
    case Leaf => 0
    case Node(l, _, _, c, _) => Bh(l) + if c.Black? then 1 else 0
  }

  /** Equal black heights and no red node with a red child. */
  ghost predicate Rb(t: Tree) {
    match t
    case Leaf => true
    case Node(l, _, _, c, r) =>
      Rb(l) && Rb(r) && Bh(l) == Bh(r) && (c.Red? ==> !IsRed(l) && !IsRed(r))
  }

  /** The subtree one level up. */
  ghost function Fill(c: Context, t: Tree): (u: Tree)
    requires !c.Top?
    ensures u.Node? && u.n == c.n && u.c == c.c
  {
    if c.InLeft? then Node(t, c.n, c.k, c.c, c.r) else Node(c.l, c.n, c.k, c.c, t)
  }

  lemma PlugUp(c: Context, t: Tree)
    requires !c.Top?
    ensures Plug(c, t) == Plug(c.up, Fill(c, t))
  {
  }

  ghost function Depth(c: Context): nat {
    if c.Top? then 0 else 1 + Depth(c.up)
  }

  ghost predicate ParentRed(c: Context) {
    !c.Top? && c.c.Red?
  }

  ghost function SiblingOf(c: Context): Tree
    requires !c.Top?
  {
    if c.InLeft? then c.r else c.l
  }

  /** The context is fine around a subtree of black height h, leaving aside whether the subtree is red
      under a red parent.  A context that is not empty has a black root. */
  ghost predicate CtxRb(c: Context, h: nat) {
    c.Top? ||
    (var s := SiblingOf(c);
     && Rb(s) && Bh(s) == h
     && (c.c.Red? ==> !IsRed(s) && !c.up.Top? && !ParentRed(c.up))
     && CtxRb(c.up, if c.c.Black? then h + 1 else h))
  }

  lemma {:induction false} RbPlug(c: Context, t: Tree)
    requires Rb(t) && CtxRb(c, Bh(t)) && !(IsRed(t) && ParentRed(c))
    requires c.Top? ==> !IsRed(t)
    ensures Rb(Plug(c, t)) && !IsRed(Plug(c, t))
    decreases c
  {
    match c
    case Top =>
    case InLeft(up, n, k, col, r) => RbPlug(up, Node(t, n, k, col, r));
    case InRight(l, n, k, col, up) => RbPlug(up, Node(l, n, k, col, t));
  }

  /** Opening a red-black tree at a subtree. */
  lemma {:induction false} RbOpen(c: Context, t: Tree)
    requires Rb(Plug(c, t)) && !IsRed(Plug(c, t))
    ensures Rb(t) && CtxRb(c, Bh(t)) && !(IsRed(t) && ParentRed(c)) && (c.Top? ==> !IsRed(t))
    decreases c
  {
    match c
    case Top =>
    case InLeft(up, n, k, col, r) => RbOpen(up, Node(t, n, k, col, r));
    case InRight(l, n, k, col, up) => RbOpen(up, Node(l, n, k, col, t));
  }

  ghost function Blacken(t: Tree): Tree {
    if t.Node? then t.(c := Black) else t
  }

  ghost function Redden(t: Tree): Tree {
    if t.Node? then t.(c := Red) else t
  }

  /** From the hole of c, filled with t, to its sibling. */
  ghost function Aside(c: Context, t: Tree): Context
    requires !c.Top?
  {
    if c.InLeft? then InRight(t, c.n, c.k, c.c, c.up) else InLeft(c.up, c.n, c.k, c.c, t)
  }

  lemma AsideFill(c: Context, t: Tree)
    requires !c.Top?
    ensures Fill(Aside(c, t), SiblingOf(c)) == Fill(c, t)
    ensures Aside(Aside(c, t), SiblingOf(c)) == c && SiblingOf(Aside(c, t)) == t
  {
  }

  /** Insertion, red uncle: with parent and uncle black and the grandparent red the heights are kept. */
  lemma UncleRedRb(c: Context, t: Tree)
    requires Rb(t) && IsRed(t) && CtxRb(c, Bh(t)) && !c.Top? && c.c.Red?
    requires !c.up.Top? ==> IsRed(SiblingOf(c.up))
    ensures !c.up.Top?
    ensures var p := Blacken(Fill(c, t));
            var g := Fill(Aside(c.up, p), Blacken(SiblingOf(c.up)));
            Rb(Redden(g)) && CtxRb(c.up.up, Bh(Redden(g)))
  {
  }

  /** Insertion, black uncle, red node between its parent and grandparent: after a rotation at the
      parent the old parent is the lower one. */
  lemma StraightenRb(c: Context, t: Tree)
    requires Rb(t) && IsRed(t) && CtxRb(c, Bh(t)) && !c.Top? && c.c.Red?
    ensures c.InRight? ==> var d := InLeft(c.up, t.n, t.k, Red, t.r); var s := Node(c.l, c.n, c.k, Red, t.l);
                           Rb(s) && IsRed(s) && CtxRb(d, Bh(s))
    ensures c.InLeft? ==> var d := InRight(t.l, t.n, t.k, Red, c.up); var s := Node(t.r, c.n, c.k, Red, c.r);
                          Rb(s) && IsRed(s) && CtxRb(d, Bh(s))
  {
  }

  /** Insertion, black uncle, in line: after recolouring and a rotation at the grandparent the parent is
      black and on top. */
  lemma LiftRb(c: Context, t: Tree)
    requires Rb(t) && IsRed(t) && CtxRb(c, Bh(t)) && !c.Top? && c.c.Red?
    ensures !c.up.Top? && c.up.c.Black?
    ensures c.InLeft? && c.up.InLeft? && !IsRed(c.up.r) ==>
              CtxRb(InLeft(c.up.up, c.n, c.k, Black, Node(c.r, c.up.n, c.up.k, Red, c.up.r)), Bh(t))
    ensures c.InRight? && c.up.InRight? && !IsRed(c.up.l) ==>
              CtxRb(InRight(Node(c.up.l, c.up.n, c.up.k, Red, c.l), c.n, c.k, Black, c.up.up), Bh(t))
  {
  }

  /** A red node under a black parent: with its root black the whole is a red-black tree. */
  lemma FinishRb(c: Context, t: Tree)
    requires Rb(t) && IsRed(t) && CtxRb(c, Bh(t)) && !ParentRed(c)
    ensures Plug(c, t).Node? && Rb(Plug(c, t).(c := Black)) && !IsRed(Plug(c, t).(c := Black))
  {
    if c.Top? {
      assert Plug(c, t) == t;
    } else {
      RbPlug(c, t);
      PlugIsNode(c, t);
    }
  }

  lemma {:induction false} PlugIsNode(c: Context, t: Tree)
    requires !c.Top?
    ensures Plug(c, t).Node?
    decreases c
  {
    if !c.up.Top? {
      PlugIsNode(c.up, Fill(c, t));
    }
  }

  // ---------------------------------------------------------------- the fixup of an insertion

  /** Around the hole no red node has a red parent, and the root is black. */
  ghost predicate Calm(c: Context) {
    c.Top? || ((c.c.Red? ==> !c.up.Top? && !ParentRed(c.up)) && Calm(c.up))
  }

  lemma {:induction false} CtxCalm(c: Context, h: nat)
    requires CtxRb(c, h)
    ensures Calm(c)
    decreases c
  {
    if !c.Top? {
      CtxCalm(c.up, if c.c.Black? then h + 1 else h);
    }
  }

  /** One level up from a red parent with a red uncle: both turn black and the grandparent red. */
  ghost function Recoloured(c: Context, t: Tree): (u: Tree)
    requires !c.Top? && !c.up.Top?
    ensures u.Node? && u.n == c.up.n && u.c.Red?
  {
    Redden(Fill(Aside(c.up, Blacken(Fill(c, t))), Blacken(SiblingOf(c.up))))
  }

  /** What one or two rotations make of the subtree of the grandparent. */
  ghost function Lifted(c: Context, t: Tree): Tree
    requires t.Node? && !c.Top? && !c.up.Top?
  {
    var g := c.up;
    if g.InLeft? && c.InLeft? then Node(t, c.n, c.k, Black, Node(c.r, g.n, g.k, Red, g.r))
    else if g.InLeft? then Node(Node(c.l, c.n, c.k, c.c, t.l), t.n, t.k, Black, Node(t.r, g.n, g.k, Red, g.r))
    else if c.InRight? then Node(Node(g.l, g.n, g.k, Red, c.l), c.n, c.k, Black, t)
    else Node(Node(g.l, g.n, g.k, Red, t.l), t.n, t.k, Black, Node(t.r, c.n, c.k, c.c, c.r))
  }

  /** The tree that RBTreeInsertFixup ends with when it starts at subtree t, whatever the colour of t. */
  ghost function Fixup(c: Context, t: Tree): Tree
    requires t.Node?
    decreases c
  {
    if !ParentRed(c) || c.up.Top? then Blacken(Plug(c, t))
    else if IsRed(SiblingOf(c.up)) then Fixup(c.up.up, Recoloured(c, t))
    else Blacken(Plug(c.up.up, Lifted(c, t)))
  }

  /** From a red subtree the fixup ends with a red-black tree. */
  lemma {:induction false} FixupRb(c: Context, t: Tree)
    requires Rb(t) && IsRed(t) && CtxRb(c, Bh(t))
    ensures Rb(Fixup(c, t)) && !IsRed(Fixup(c, t))
    decreases c
  {
    if !ParentRed(c) {
      FinishRb(c, t);
    } else {
      LiftRb(c, t);
      if IsRed(SiblingOf(c.up)) {
        UncleRedRb(c, t);
        FixupRb(c.up.up, Recoloured(c, t));
      } else {
        LiftedRb(c, t);
      }
    }
  }

  lemma LiftedRb(c: Context, t: Tree)
    requires Rb(t) && IsRed(t) && CtxRb(c, Bh(t)) && ParentRed(c) && !c.up.Top? && !IsRed(SiblingOf(c.up))
    ensures Rb(Blacken(Plug(c.up.up, Lifted(c, t)))) && !IsRed(Blacken(Plug(c.up.up, Lifted(c, t))))
  {
    var d, s := c, t;
    StraightenRb(c, t);
    if c.up.InLeft? && c.InRight? {
      d, s := InLeft(c.up, t.n, t.k, Red, t.r), Node(c.l, c.n, c.k, Red, t.l);
    } else if c.up.InRight? && c.InLeft? {
      d, s := InRight(t.l, t.n, t.k, Red, c.up), Node(t.r, c.n, c.k, Red, c.r);
    }
    LiftRb(d, s);
    var e := if d.InLeft? then InLeft(d.up.up, d.n, d.k, Black, Node(d.r, d.up.n, d.up.k, Red, d.up.r))
             else InRight(Node(d.up.l, d.up.n, d.up.k, Red, d.l), d.n, d.k, Black, d.up.up);
    PlugUp(e, s);
    FinishRb(e, s);
  }

  /** Painting the root mends nothing below it. */
  lemma {:induction false} BlackenedParts(c: Context, t: Tree)
    requires Rb(Blacken(Plug(c, t))) && t.Node?
    ensures Rb(t.l) && Rb(t.r) && (c.Top? || Rb(t))
    decreases c
  {
    if !c.Top? {
      PlugUp(c, t);
      hide Plug;
      BlackenedParts(c.up, Fill(c, t));
    } else {
      PlugTop(c, t);
    }
  }

  /** Nor does the fixup mend anything below the node it starts at. */
  lemma {:induction false} FixupParts(c: Context, t: Tree)
    requires t.Node? && Rb(Fixup(c, t))
    ensures Rb(t.l) && Rb(t.r)
    decreases c
  {
    hide Plug;
    if !ParentRed(c) || c.up.Top? {
      BlackenedParts(c, t);
    } else if IsRed(SiblingOf(c.up)) {
      FixupParts(c.up.up, Recoloured(c, t));
    } else {
      BlackenedParts(c.up.up, Lifted(c, t));
    }
  }

  // ---------------------------------------------------------------- rotations on trees

  ghost function RotateLeft(t: Tree): Tree
    requires t.Node? && t.r.Node?
  {
    var m := t.r;
    Node(Node(t.l, t.n, t.k, t.c, m.l), m.n, m.k, m.c, m.r)
  }

  ghost function RotateRight(t: Tree): Tree
    requires t.Node? && t.l.Node?
  {
    var m := t.l;
    Node(m.l, m.n, m.k, m.c, Node(m.r, t.n, t.k, t.c, t.r))
  }

  lemma RotateLeftKeeps(t: Tree)
    requires t.Node? && t.r.Node?
    ensures Inorder(RotateLeft(t)) == Inorder(t) && Nodes(RotateLeft(t)) == Nodes(t)
  {
    var m := t.r;
    Regroup(Inorder(t.l) + [(t.n, t.k)], Inorder(m.l), [(m.n, m.k)], Inorder(m.r), []);
    assert Inorder(t) == Inorder(t.l) + [(t.n, t.k)] + Inorder(m) + [];
  }

  lemma RotateRightKeeps(t: Tree)
    requires t.Node? && t.l.Node?
    ensures Inorder(RotateRight(t)) == Inorder(t) && Nodes(RotateRight(t)) == Nodes(t)
  {
    RotateLeftKeeps(RotateRight(t));
  }

  // ---------------------------------------------------------------- the fields a tree asks for

  /** struct rbnode. */
  datatype Fields = Fields(left: Ref, right: Ref, parent: Ref, key: nat, color: Color)

  ghost function RootOf(nil: Ref, t: Tree): Ref {
    if t.Leaf? then nil else t.n
  }

  /** The node above the hole; p stands above the whole tree. */
  ghost function ParentOf(c: Context, p: Ref): Ref {
    if c.Top? then p else c.n
  }

  /** What the fields of the nodes of t must be, under parent p. */
  ghost function Links(nil: Ref, t: Tree, p: Ref): (m: map<Ref, Fields>)
    ensures m.Keys == Nodes(t)
  {
    match t
    case Leaf => map[]
    case Node(l, n, k, c, r) =>
      Links(nil, l, n) + Links(nil, r, n) + map[n := Fields(RootOf(nil, l), RootOf(nil, r), p, k, c)]
  }

  /** The same for a context around a subtree with root x. */
  ghost function LinksAround(nil: Ref, c: Context, x: Ref, p: Ref): (m: map<Ref, Fields>)
    ensures m.Keys == Around(c)
  {
    match c
    case Top => map[]
    case InLeft(up, n, k, col, r) =>
      LinksAround(nil, up, n, p) + Links(nil, r, n)
      + map[n := Fields(x, RootOf(nil, r), ParentOf(up, p), k, col)]
    case InRight(l, n, k, col, up) =>
      LinksAround(nil, up, n, p) + Links(nil, l, n)
      + map[n := Fields(RootOf(nil, l), x, ParentOf(up, p), k, col)]
  }

  /** No node occurs twice. */
  ghost predicate Once(t: Tree) {
    match t
    case Leaf => true
    case Node(l, n, _, _, r) =>
      Once(l) && Once(r) && n !in Nodes(l) && n !in Nodes(r) && Nodes(l) !! Nodes(r)
  }

  ghost predicate OnceAround(c: Context) {
    match c
    case Top => true
    case InLeft(up, n, _, _, r) =>
      OnceAround(up) && Once(r) && n !in Around(up) && n !in Nodes(r) && Around(up) !! Nodes(r)
    case InRight(l, n, _, _, up) =>
      OnceAround(up) && Once(l) && n !in Around(up) && n !in Nodes(l) && Around(up) !! Nodes(l)
  }

  lemma {:induction false} OncePlug(c: Context, t: Tree)
    ensures Once(Plug(c, t)) <==> Once(t) && OnceAround(c) && Around(c) !! Nodes(t)
    decreases c
  {
    match c
    case Top =>
    case InLeft(up, n, k, col, r) => OncePlug(up, Node(t, n, k, col, r));
    case InRight(l, n, k, col, up) => OncePlug(up, Node(l, n, k, col, t));
  }

  lemma RegroupMaps(a: map<Ref, Fields>, t: map<Ref, Fields>, r: map<Ref, Fields>, s: map<Ref, Fields>)
    requires a.Keys !! t.Keys !! r.Keys !! s.Keys
    ensures a + r + s + t == a + (t + r + s) == a + (r + t + s)
  {
  }

  lemma {:induction false} LinksPlug(nil: Ref, c: Context, t: Tree, p: Ref)
    requires Once(Plug(c, t))
    ensures Links(nil, Plug(c, t), p) == LinksAround(nil, c, RootOf(nil, t), p) + Links(nil, t, ParentOf(c, p))
    decreases c
  {
    OncePlug(c, t);
    if !c.Top? {
      var s, n := SiblingOf(c), c.n;
      var u := if c.InLeft? then Node(t, n, c.k, c.c, s) else Node(s, n, c.k, c.c, t);
      LinksPlug(nil, c.up, u, p);
      RegroupMaps(LinksAround(nil, c.up, n, p), Links(nil, t, n), Links(nil, s, n),
                  map[n := Links(nil, u, ParentOf(c.up, p))[n]]);
    }
  }

  /** Another subtree in the hole changes one field of the node above it. */
  lemma HoleLinks(nil: Ref, c: Context, x: Ref, y: Ref, p: Ref)
    requires OnceAround(c)
    ensures var m, m' := LinksAround(nil, c, x, p), LinksAround(nil, c, y, p);
            && (forall n :: n in Around(c) && n != ParentOf(c, p) ==> m'[n] == m[n])
            && (c.InLeft? ==> m'[c.n] == m[c.n].(left := y) && m[c.n].left == x)
            && (c.InRight? ==> m'[c.n] == m[c.n].(right := y) && m[c.n].right == x)
  {
  }

  /** Another parent changes one field of the root. */
  lemma ParentLinks(nil: Ref, t: Tree, p: Ref, q: Ref)
    requires Once(t)
    ensures var m, m' := Links(nil, t, p), Links(nil, t, q);
            && (forall n :: n in Nodes(t) && n != RootOf(nil, t) ==> m'[n] == m[n])
            && (t.Node? ==> m'[t.n] == m[t.n].(parent := q) && m[t.n].parent == p)
  {
  }

  lemma PlugTop(c: Context, t: Tree)
    requires c.Top?
    ensures Plug(c, t) == t
  {
  }

  /** The root of the whole depends on the focus only when the context is empty. */
  lemma {:induction false} RootStable(nil: Ref, c: Context, t: Tree, u: Tree)
    requires !c.Top?
    ensures RootOf(nil, Plug(c, t)) == RootOf(nil, Plug(c, u)) && Plug(c, t).Node?
    decreases c
  {
    var t', u' := if c.InLeft? then Node(t, c.n, c.k, c.c, c.r) else Node(c.l, c.n, c.k, c.c, t),
                  if c.InLeft? then Node(u, c.n, c.k, c.c, c.r) else Node(c.l, c.n, c.k, c.c, u);
    if !c.up.Top? {
      RootStable(nil, c.up, t', u');
    }
  }

  /** One subtree in place of another: fields change in the subtree, and in one field of the node above. */
  lemma SwapLinks(nil: Ref, c: Context, t: Tree, u: Tree)
    requires Once(Plug(c, t)) && nil !in Nodes(Plug(c, t)) && Once(u) && Nodes(u) !! Nodes(Plug(c, t)) - Nodes(t)
    ensures Around(c) !! Nodes(t) && Nodes(Plug(c, t)) == Around(c) + Nodes(t)
    ensures Around(c) !! Nodes(u) && Nodes(Plug(c, u)) == Around(c) + Nodes(u) && Once(Plug(c, u)) && Once(t)
    ensures var A, B, h := Links(nil, Plug(c, t), nil), Links(nil, Plug(c, u), nil), ParentOf(c, nil);
            && A.Keys == Around(c) + Nodes(t) && B.Keys == Around(c) + Nodes(u)
            && (forall n :: n in Nodes(t) ==> A[n] == Links(nil, t, h)[n])
            && (forall n :: n in Nodes(u) ==> B[n] == Links(nil, u, h)[n])
            && (forall n :: n in Around(c) && n != h ==> B[n] == A[n])
            && (c.Top? <==> h == nil) && (!c.Top? ==> h in Around(c))
            && (c.InLeft? ==> A[h].left == RootOf(nil, t) && B[h] == A[h].(left := RootOf(nil, u)))
            && (c.InRight? ==> A[h].right == RootOf(nil, t) && B[h] == A[h].(right := RootOf(nil, u)))
            && (c.InRight? ==> A[h].left in Around(c) + {nil})
            && RootOf(nil, Plug(c, u)) == if c.Top? then RootOf(nil, u) else RootOf(nil, Plug(c, t))
  {
    hide Links, LinksAround, Plug, Once, OnceAround, Nodes, Around;
    OncePlug(c, t);
    NodesPlug(c, t);
    OncePlug(c, u);
    NodesPlug(c, u);
    LinksPlug(nil, c, t, nil);
    LinksPlug(nil, c, u, nil);
    HoleLinks(nil, c, RootOf(nil, t), RootOf(nil, u), nil);
    HoleParent(nil, c);
    if !c.Top? {
      RootStable(nil, c, t, u);
    } else {
      PlugTop(c, u);
    }
  }

  lemma HoleParent(nil: Ref, c: Context)
    requires nil !in Around(c)
    ensures (c.Top? <==> ParentOf(c, nil) == nil) && (!c.Top? ==> c.n in Around(c) && ParentOf(c, nil) == c.n)
    ensures forall x :: c.InRight? ==> LinksAround(nil, c, x, nil)[c.n].left in Around(c) + {nil}
  {
  }

  /** One level of a subtree's fields. */
  lemma LinksNode(nil: Ref, t: Tree, p: Ref)
    requires t.Node? && Once(t)
    ensures Nodes(t) == Nodes(t.l) + {t.n} + Nodes(t.r)
    ensures t.n !in Nodes(t.l) && t.n !in Nodes(t.r) && Nodes(t.l) !! Nodes(t.r) && Once(t.l) && Once(t.r)
    ensures Links(nil, t, p)[t.n] == Fields(RootOf(nil, t.l), RootOf(nil, t.r), p, t.k, t.c)
    ensures forall n :: n in Nodes(t.l) ==> Links(nil, t, p)[n] == Links(nil, t.l, t.n)[n]
    ensures forall n :: n in Nodes(t.r) ==> Links(nil, t, p)[n] == Links(nil, t.r, t.n)[n]
  {
  }

  lemma OnceNode(t: Tree)
    requires t.Node? && Once(t.l) && Once(t.r) && t.n !in Nodes(t.l) && t.n !in Nodes(t.r) && Nodes(t.l) !! Nodes(t.r)
    ensures Once(t) && Nodes(t) == Nodes(t.l) + {t.n} + Nodes(t.r)
  {
  }

  lemma LeafOnce()
    ensures Once(Leaf) && Nodes(Leaf) == {}
  {
  }

  lemma RootIn(nil: Ref, t: Tree)
    ensures if t.Leaf? then RootOf(nil, t) == nil else RootOf(nil, t) in Nodes(t)
  {
  }

  lemma OnceAfterRotate(t: Tree)
    requires Once(t) && t.Node?
    ensures t.r.Node? ==> Once(RotateLeft(t))
    ensures t.l.Node? ==> Once(RotateRight(t))
  {
  }

  /** The fields around the edge a rotation turns. */
  lemma RotateLeftFrom(nil: Ref, t: Tree, h: Ref)
    requires Once(t) && nil !in Nodes(t) && t.Node? && t.r.Node?
    ensures var A := Links(nil, t, h);
            var x, m, b := t.n, t.r.n, RootOf(nil, t.r.l);
            && x in A && m in A && x != m && (b in A || b == nil) && b != x && b != m
            && A[x].right == m && A[m].left == b && A[x].parent == h && A[m].parent == x
            && (b != nil ==> A[b].parent == m)
  {
    hide Links, Nodes, Once, Inorder, Plug;
    LinksNode(nil, t, h);
    LinksNode(nil, t.r, t.n);
    RootIn(nil, t.r.l);
    ParentLinks(nil, t.r.l, t.r.n, t.n);
  }

  /** The three subtrees around that edge keep their fields, but for the parent of the middle one. */
  lemma RotateLeftParts(nil: Ref, t: Tree, h: Ref)
    requires Once(t) && t.Node? && t.r.Node? && Once(RotateLeft(t))
    ensures var A, B := Links(nil, t, h), Links(nil, RotateLeft(t), h);
            && Nodes(t) == Nodes(RotateLeft(t)) == Nodes(t.l) + {t.n} + Nodes(t.r.l) + {t.r.n} + Nodes(t.r.r)
            && (forall n :: n in Nodes(t.l) ==> B[n] == A[n])
            && (forall n :: n in Nodes(t.r.r) ==> B[n] == A[n])
            && (forall n :: n in Nodes(t.r.l) ==> A[n] == Links(nil, t.r.l, t.r.n)[n]
                                                  && B[n] == Links(nil, t.r.l, t.n)[n])
  {
    hide Links, Nodes, Once, Inorder, Plug;
    LinksNode(nil, t, h);
    LinksNode(nil, t.r, t.n);
    LinksNode(nil, RotateLeft(t), h);
    LinksNode(nil, RotateLeft(t).l, t.r.n);
  }

  lemma RotateLeftWithin(nil: Ref, t: Tree, h: Ref)
    requires Once(t) && nil !in Nodes(t) && t.Node? && t.r.Node?
    ensures Once(RotateLeft(t)) && Nodes(RotateLeft(t)) == Nodes(t)
    ensures var A, B := Links(nil, t, h), Links(nil, RotateLeft(t), h);
            var x, m, b := t.n, t.r.n, RootOf(nil, t.r.l);
            && x in A && m in A && (b in A || b == nil)
            && B[x] == A[x].(right := b, parent := m) && B[m] == A[m].(left := x, parent := h)
            && (b != nil ==> B[b] == A[b].(parent := x))
            && (forall n :: n in A && n != x && n != m && n != b ==> B[n] == A[n])
  {
    hide Links, Nodes, Once, Inorder, Plug;
    OnceAfterRotate(t);
    RotateLeftParts(nil, t, h);
    RootIn(nil, t.r.l);
    assert Once(t.r.l) by {
      LinksNode(nil, t, h);
      LinksNode(nil, t.r, t.n);
    }
    ParentLinks(nil, t.r.l, t.r.n, t.n);
    RotateLeftEdge(nil, t, h);
  }

  /** The two nodes of that edge. */
  lemma RotateLeftEdge(nil: Ref, t: Tree, h: Ref)
    requires Once(t) && t.Node? && t.r.Node? && Once(RotateLeft(t)) && Nodes(RotateLeft(t)) == Nodes(t)
    ensures t.n in Nodes(t) && t.r.n in Nodes(t)
    ensures var A, B := Links(nil, t, h), Links(nil, RotateLeft(t), h);
            && B[t.n] == A[t.n].(right := RootOf(nil, t.r.l), parent := t.r.n)
            && B[t.r.n] == A[t.r.n].(left := t.n, parent := h)
  {
    hide Links, Nodes, Once, Inorder, Plug;
    LinksNode(nil, t, h);
    LinksNode(nil, t.r, t.n);
    LinksNode(nil, RotateLeft(t), h);
    LinksNode(nil, RotateLeft(t).l, t.r.n);
  }

  lemma RotateRightWithin(nil: Ref, t: Tree, h: Ref)
    requires Once(t) && nil !in Nodes(t) && t.Node? && t.l.Node?
    ensures Once(RotateRight(t)) && Nodes(RotateRight(t)) == Nodes(t)
    ensures var A, B := Links(nil, t, h), Links(nil, RotateRight(t), h);
            var x, m, b := t.n, t.l.n, RootOf(nil, t.l.r);
            && x in A && m in A && x != m && (b in A || b == nil) && b != x && b != m
            && A[x].left == m && A[m].right == b && A[x].parent == h
            && B[x] == A[x].(left := b, parent := m) && B[m] == A[m].(right := x, parent := h)
            && (b != nil ==> B[b] == A[b].(parent := x))
            && (forall n :: n in A && n != x && n != m && n != b ==> B[n] == A[n])
  {
    hide Links, Nodes, Once, Inorder;
    OnceAfterRotate(t);
    RotateRightKeeps(t);
    RotateLeftFrom(nil, RotateRight(t), h);
    RotateLeftWithin(nil, RotateRight(t), h);
  }

  /** What a rotation to the left at the root of t changes in the fields of the whole tree. */
  lemma RotateLeftLinks(nil: Ref, c: Context, t: Tree)
    requires Once(Plug(c, t)) && nil !in Nodes(Plug(c, t)) && t.Node? && t.r.Node?
    ensures var A, B := Links(nil, Plug(c, t), nil), Links(nil, Plug(c, RotateLeft(t)), nil);
            var x, m, b, h := t.n, t.r.n, RootOf(nil, t.r.l), ParentOf(c, nil);
            && Once(Plug(c, RotateLeft(t))) && A.Keys == B.Keys == Nodes(Plug(c, t)) == Nodes(Plug(c, RotateLeft(t)))
            && x in A && m in A && x != m && (b in A || b == nil) && b != x && b != m
            && (c.Top? <==> h == nil) && (h != nil ==> h in A && h != x && h != m && h != b)
            && A[x].right == m && A[m].left == b && A[x].parent == h
            && (c.InLeft? ==> A[h].left == x) && (c.InRight? ==> A[h].left != x)
            && B[x] == A[x].(right := b, parent := m) && B[m] == A[m].(left := x, parent := h)
            && (b != nil ==> B[b] == A[b].(parent := x))
            && (h != nil ==> B[h] == if c.InLeft? then A[h].(left := m) else A[h].(right := m))
            && (forall n :: n in A && n != x && n != m && n != b && n != h ==> B[n] == A[n])
            && RootOf(nil, Plug(c, RotateLeft(t))) == if c.Top? then m else RootOf(nil, Plug(c, t))
  {
    hide Plug, Links, Nodes, Once, Inorder;
    OncePlug(c, t);
    NodesPlug(c, t);
    NodesPlug(c, RotateLeft(t));
    RotateLeftFrom(nil, t, ParentOf(c, nil));
    RotateLeftWithin(nil, t, ParentOf(c, nil));
    SwapLinks(nil, c, t, RotateLeft(t));
  }

  /** What a rotation to the right at the root of t changes in the fields of the whole tree. */
  lemma RotateRightLinks(nil: Ref, c: Context, t: Tree)
    requires Once(Plug(c, t)) && nil !in Nodes(Plug(c, t)) && t.Node? && t.l.Node?
    ensures var A, B := Links(nil, Plug(c, t), nil), Links(nil, Plug(c, RotateRight(t)), nil);
            var x, m, b, h := t.n, t.l.n, RootOf(nil, t.l.r), ParentOf(c, nil);
            && Once(Plug(c, RotateRight(t))) && A.Keys == B.Keys == Nodes(Plug(c, t)) == Nodes(Plug(c, RotateRight(t)))
            && x in A && m in A && x != m && (b in A || b == nil) && b != x && b != m
            && (c.Top? <==> h == nil) && (h != nil ==> h in A && h != x && h != m && h != b)
            && A[x].left == m && A[m].right == b && A[x].parent == h
            && (c.InLeft? ==> A[h].left == x) && (c.InRight? ==> A[h].left != x)
            && B[x] == A[x].(left := b, parent := m) && B[m] == A[m].(right := x, parent := h)
            && (b != nil ==> B[b] == A[b].(parent := x))
            && (h != nil ==> B[h] == if c.InLeft? then A[h].(left := m) else A[h].(right := m))
            && (forall n :: n in A && n != x && n != m && n != b && n != h ==> B[n] == A[n])
            && RootOf(nil, Plug(c, RotateRight(t))) == if c.Top? then m else RootOf(nil, Plug(c, t))
  {
    hide Plug, Links, Nodes, Once, Inorder;
    OncePlug(c, t);
    NodesPlug(c, t);
    NodesPlug(c, RotateRight(t));
    RotateRightWithin(nil, t, ParentOf(c, nil));
    SwapLinks(nil, c, t, RotateRight(t));
  }

  lemma RotateInorder(c: Context, t: Tree)
    requires t.Node?
    ensures t.r.Node? ==> Inorder(Plug(c, RotateLeft(t))) == Inorder(Plug(c, t))
    ensures t.l.Node? ==> Inorder(Plug(c, RotateRight(t))) == Inorder(Plug(c, t))
  {
    InorderPlug(c, t);
    if t.r.Node? {
      RotateLeftKeeps(t);
      InorderPlug(c, RotateLeft(t));
    }
    if t.l.Node? {
      RotateRightKeeps(t);
      InorderPlug(c, RotateRight(t));
    }
  }

  /** The root of the whole is part of a context that is not empty. */
  lemma {:induction false} TopOfContext(nil: Ref, c: Context, t: Tree)
    requires !c.Top?
    ensures RootOf(nil, Plug(c, t)) in Around(c)
    decreases c
  {
    if !c.up.Top? {
      TopOfContext(nil, c.up, Fill(c, t));
    }
  }

  /** What the fields of the focus and of the node above it are. */
  lemma FocusLinks(nil: Ref, c: Context, t: Tree)
    requires Once(Plug(c, t)) && nil !in Nodes(Plug(c, t))
    ensures Around(c) + Nodes(t) == Nodes(Plug(c, t)) && Around(c) !! Nodes(t)
    ensures forall n :: n in Nodes(t) ==> Links(nil, Plug(c, t), nil)[n] == Links(nil, t, ParentOf(c, nil))[n]
    ensures t.Node? ==> t.n in Nodes(t) && Links(nil, t, ParentOf(c, nil))[t.n]
                        == Fields(RootOf(nil, t.l), RootOf(nil, t.r), ParentOf(c, nil), t.k, t.c)
    ensures !c.Top? ==> c.n in Around(c) && Links(nil, Plug(c, t), nil)[c.n]
                        == Fields(if c.InLeft? then RootOf(nil, t) else RootOf(nil, c.l),
                                  if c.InLeft? then RootOf(nil, c.r) else RootOf(nil, t),
                                  ParentOf(c.up, nil), c.k, c.c)
  {
    OncePlug(c, t);
    NodesPlug(c, t);
    LinksPlug(nil, c, t, nil);
  }

  lemma Sides(nil: Ref, c: Context, t: Tree)
    requires Once(Plug(c, t)) && nil !in Nodes(Plug(c, t)) && !c.Top?
    ensures t.Node? || SiblingOf(c).Node? ==> RootOf(nil, t) != RootOf(nil, SiblingOf(c))
  {
    OncePlug(c, t);
    NodesPlug(c, t);
  }

  /** A new colour at the root of t changes one field of one node. */
  lemma PaintLinks(nil: Ref, c: Context, t: Tree, col: Color)
    requires Once(Plug(c, t)) && nil !in Nodes(Plug(c, t)) && t.Node?
    ensures var A, B := Links(nil, Plug(c, t), nil), Links(nil, Plug(c, t.(c := col)), nil);
            && Once(Plug(c, t.(c := col))) && Nodes(Plug(c, t.(c := col))) == Nodes(Plug(c, t))
            && Inorder(Plug(c, t.(c := col))) == Inorder(Plug(c, t))
            && t.n in A && B == A[t.n := A[t.n].(color := col)]
            && RootOf(nil, Plug(c, t.(c := col))) == RootOf(nil, Plug(c, t))
  {
    hide Links, Plug, Nodes, Around, Inorder, Once;
    var u := t.(c := col);
    OncePlug(c, t);
    NodesPlug(c, t);
    NodesPlug(c, u);
    PaintWithin(nil, t, col, ParentOf(c, nil));
    SwapLinks(nil, c, t, u);
    PaintInorder(c, t, col);
    FocusLinks(nil, c, t);
    if !c.Top? {
      RootStable(nil, c, t, u);
    } else {
      PlugTop(c, t);
      PlugTop(c, u);
    }
    var A, B := Links(nil, Plug(c, t), nil), Links(nil, Plug(c, u), nil);
    forall n | n in A ensures B[n] == A[t.n := A[t.n].(color := col)][n] {
    }
  }

  lemma PaintInorder(c: Context, t: Tree, col: Color)
    requires t.Node?
    ensures Inorder(Plug(c, t.(c := col))) == Inorder(Plug(c, t))
  {
    InorderPlug(c, t);
    InorderPlug(c, t.(c := col));
  }

  lemma PaintWithin(nil: Ref, t: Tree, col: Color, h: Ref)
    requires t.Node? && Once(t)
    ensures var u := t.(c := col);
            Nodes(u) == Nodes(t) && Once(u)
            && Links(nil, u, h) == Links(nil, t, h)[t.n := Links(nil, t, h)[t.n].(color := col)]
  {
  }

  /** The path to a node of the tree. */
  lemma {:induction false} Locate(t: Tree, x: Ref) returns (c: Context, s: Tree)
    requires x in Nodes(t)
    ensures Plug(c, s) == t && s.Node? && s.n == x
  {
    if t.n == x {
      return Top, t;
    }
    if x in Nodes(t.l) {
      c, s := Locate(t.l, x);
      PlugAppend(c, InLeft(Top, t.n, t.k, t.c, t.r), s);
      c := Append(c, InLeft(Top, t.n, t.k, t.c, t.r));
    } else {
      c, s := Locate(t.r, x);
      PlugAppend(c, InRight(t.l, t.n, t.k, t.c, Top), s);
      c := Append(c, InRight(t.l, t.n, t.k, t.c, Top));
    }
  }

  /** Context `inner` inside context `outer`. */
  ghost function Append(inner: Context, outer: Context): Context {
    match inner
    case Top => outer
    case InLeft(up, n, k, c, r) => InLeft(Append(up, outer), n, k, c, r)
    case InRight(l, n, k, c, up) => InRight(l, n, k, c, Append(up, outer))
  }

  lemma {:induction false} PlugAppend(inner: Context, outer: Context, t: Tree)
    ensures Plug(Append(inner, outer), t) == Plug(outer, Plug(inner, t))
    decreases inner
  {
    match inner
    case Top =>
    case InLeft(up, n, k, c, r) => PlugAppend(up, outer, Node(t, n, k, c, r));
    case InRight(l, n, k, c, up) => PlugAppend(up, outer, Node(l, n, k, c, t));
  }

  // ---------------------------------------------------------------- deletion: colours

  /** The subtree s may lack one black node: its context expects one more, and s itself is a red-black tree
      once its root is black. */
  ghost predicate Short(c: Context, s: Tree) {
    Rb(Blacken(s)) && CtxRb(c, Bh(s) + 1)
  }

  lemma RbParts(t: Tree)
    requires Rb(t) && t.Node?
    ensures Rb(t.l) && Rb(t.r) && Bh(t.l) == Bh(t.r) && (t.c.Red? ==> !IsRed(t.l) && !IsRed(t.r))
    ensures Bh(t) == Bh(t.l) + if t.c.Black? then 1 else 0
  {
  }

  lemma ShortSibling(c: Context, s: Tree)
    requires Short(c, s) && !c.Top?
    ensures var w := SiblingOf(c);
            && w.Node? && Rb(w) && Bh(w) == Bh(s) + 1
            && (w.c.Red? ==> c.c.Black? && w.l.Node? && w.r.Node? && !IsRed(w.l) && !IsRed(w.r))
  {
  }

  lemma ShortTop(s: Tree)
    requires Rb(Blacken(s))
    ensures Short(Top, s)
  {
  }

  /** A shortage that reached a red node or the root is gone once that node is black. */
  lemma AtRest(c: Context, s: Tree)
    requires Short(c, s) && (c.Top? || IsRed(s))
    ensures Rb(Plug(c, Blacken(s))) && !IsRed(Plug(c, Blacken(s)))
  {
    if c.Top? {
      PlugTop(c, Blacken(s));
    } else {
      RbPlug(c, Blacken(s));
    }
  }

  /** Deletion, red sibling: after recolouring and a rotation at the parent the sibling is black. */
  lemma RedSibling(c: Context, s: Tree)
    requires Short(c, s) && !IsRed(s) && !c.Top? && IsRed(SiblingOf(c))
    ensures var w := SiblingOf(c);
            && (c.InLeft? ==> Short(InLeft(InLeft(c.up, w.n, w.k, Black, w.r), c.n, c.k, Red, w.l), s))
            && (c.InRight? ==> Short(InRight(w.r, c.n, c.k, Red, InRight(w.l, w.n, w.k, Black, c.up)), s))
  {
  }

  /** Deletion, black sibling with black children: the shortage moves up. */
  lemma BlackNephews(c: Context, s: Tree)
    requires Short(c, s) && !IsRed(s) && !c.Top? && !IsRed(SiblingOf(c))
    requires var w := SiblingOf(c); !IsRed(w.l) && !IsRed(w.r)
    ensures var w := SiblingOf(c);
            Short(c.up, Fill(Aside(c, s), Redden(w)))
  {
  }

  /** Deletion, black sibling, near nephew red and far nephew black: after a rotation at the sibling the far
      nephew is red. */
  lemma NearNephew(c: Context, s: Tree)
    requires Short(c, s) && !IsRed(s) && !c.Top? && !IsRed(SiblingOf(c))
    ensures c.InLeft? && IsRed(c.r.l) && !IsRed(c.r.r) ==>
              var w := c.r; var m := w.l;
              Short(InLeft(c.up, c.n, c.k, c.c, Node(m.l, m.n, m.k, Black, Node(m.r, w.n, w.k, Red, w.r))), s)
    ensures c.InRight? && IsRed(c.l.r) && !IsRed(c.l.l) ==>
              var w := c.l; var m := w.r;
              Short(InRight(Node(Node(w.l, w.n, w.k, Red, m.l), m.n, m.k, Black, m.r), c.n, c.k, c.c, c.up), s)
  {
    var w := SiblingOf(c);
    RbParts(w);
    if c.InLeft? && w.l.Node? {
      RbParts(w.l);
      assert IsRed(w.l) && !IsRed(w.r) ==> Rb(Node(w.l.r, w.n, w.k, Red, w.r));
    }
    if c.InRight? && w.r.Node? {
      RbParts(w.r);
      assert IsRed(w.r) && !IsRed(w.l) ==> Rb(Node(w.l, w.n, w.k, Red, w.r.l));
    }
  }

  /** The subtree that the last rotation of the deletion leaves on top, with `top` as the sibling's colour. */
  ghost function Settled(c: Context, s: Tree, top: Color): Tree
    requires !c.Top? && SiblingOf(c).Node?
  {
    var w := SiblingOf(c);
    if c.InLeft? then Node(Node(s, c.n, c.k, Black, w.l), w.n, w.k, top, Blacken(w.r))
    else Node(Blacken(w.l), w.n, w.k, top, Node(w.r, c.n, c.k, Black, s))
  }

  ghost predicate FarNephewRed(c: Context, s: Tree) {
    && Short(c, s) && !IsRed(s) && !c.Top? && !IsRed(SiblingOf(c)) && SiblingOf(c).Node?
    && IsRed(if c.InLeft? then SiblingOf(c).r else SiblingOf(c).l)
  }

  /** Deletion, far nephew red: with the parent's colour on top the whole is a red-black tree. */
  lemma FarNephew(c: Context, s: Tree)
    requires FarNephewRed(c, s)
    ensures var t := Plug(c.up, Settled(c, s, c.c)); t.Node? && Rb(Blacken(t))
  {
    var g := Settled(c, s, c.c);
    var w := SiblingOf(c);
    RbParts(w);
    RbParts(if c.InLeft? then w.r else w.l);
    assert Rb(if c.InLeft? then g.l else g.r);
    if c.up.Top? {
      PlugTop(c.up, g);
    } else {
      PlugIsNode(c.up, g);
      RbPlug(c.up, g);
    }
  }

  /** As written, the left branch puts RED on top instead of the parent's colour (lib/krbfunc.c:187).  That
      is right exactly when the parent is red or is the root. */
  lemma FarNephewAsWritten(c: Context, s: Tree)
    requires FarNephewRed(c, s)
    ensures Rb(Blacken(Plug(c.up, Settled(c, s, Red)))) <==> c.c.Red? || c.up.Top?
  {
    FarNephew(c, s);
    var g := Settled(c, s, Red);
    var w := SiblingOf(c);
    RbParts(w);
    RbParts(if c.InLeft? then w.r else w.l);
    assert Bh(if c.InLeft? then g.l else g.r) == Bh(s) + 1;
    if c.c.Black? {
      if c.up.Top? {
        PlugTop(c.up, g);
        PlugTop(c.up, Settled(c, s, Black));
      } else {
        var t := Plug(c.up, g);
        PlugIsNode(c.up, g);
        assert Bh(Settled(c, s, Black)) == Bh(g) + 1;
        BlackTop(c.up, g, Settled(c, s, Black));
        if Rb(t) {
          RbOpen(c.up, g);
        }
      }
    }
  }

  /** A black parent that is not the root: a sibling 7 with far child 8 below node 5, whose parent 9 has
      another subtree of black height 2. */
  lemma FarNephewExample()
    ensures var r := Node(Node(Leaf, 10, 10, Black, Leaf), 11, 11, Black, Node(Leaf, 12, 12, Black, Leaf));
            var c := InLeft(InLeft(Top, 9, 9, Black, r), 5, 5, Black,
                            Node(Leaf, 7, 7, Black, Node(Leaf, 8, 8, Red, Leaf)));
            FarNephewRed(c, Leaf) && !Rb(Blacken(Plug(c.up, Settled(c, Leaf, Red))))
  {
    var r := Node(Node(Leaf, 10, 10, Black, Leaf), 11, 11, Black, Node(Leaf, 12, 12, Black, Leaf));
    var w := Node(Leaf, 7, 7, Black, Node(Leaf, 8, 8, Red, Leaf));
    var c := InLeft(InLeft(Top, 9, 9, Black, r), 5, 5, Black, w);
    assert Rb(r.l) && Rb(r.r) && Bh(r.l) == 1 && Bh(r.r) == 1 && Rb(r) && Bh(r) == 2;
    assert Rb(w.r) && Rb(w) && Bh(w) == 1;
    assert CtxRb(c.up, 2);
    FarNephewAsWritten(c, Leaf);
  }

  /** A context that is not empty has a black root. */
  lemma {:induction false} BlackTop(c: Context, t: Tree, u: Tree)
    requires !c.Top? && CtxRb(c, Bh(u))
    ensures !IsRed(Plug(c, t)) && Blacken(Plug(c, t)) == Plug(c, t)
    decreases c
  {
    if !c.up.Top? {
      BlackTop(c.up, Fill(c, t), Fill(c, u));
    } else {
      assert Plug(c, t) == Fill(c, t);
    }
  }

  // ---------------------------------------------------------------- deletion: structure

  /** A node with one child at most gives its place to that child. */
  lemma SpliceLinks(nil: Ref, c: Context, t: Tree, s: Tree)
    requires Once(Plug(c, t)) && nil !in Nodes(Plug(c, t)) && t.Node?
    requires (t.l.Leaf? && s == t.r) || (t.r.Leaf? && s == t.l)
    ensures var A, B, h, m := Links(nil, Plug(c, t), nil), Links(nil, Plug(c, s), nil), ParentOf(c, nil),
            RootOf(nil, s);
            && Once(Plug(c, s)) && Nodes(Plug(c, s)) == Nodes(Plug(c, t)) - {t.n} && t.n in A
            && A[t.n].parent == h && (c.Top? <==> h == nil) && (!c.Top? ==> h in A && h != t.n && h != m)
            && (c.InLeft? ==> A[h].left == t.n) && (c.InRight? ==> A[h].left != t.n)
            && (m == nil || (m in A && m != t.n && B[m] == A[m].(parent := h)))
            && (!c.Top? ==> B[h] == if c.InLeft? then A[h].(left := m) else A[h].(right := m))
            && (forall x :: x in B && x != h && x != m ==> B[x] == A[x])
            && RootOf(nil, Plug(c, s)) == if c.Top? then m else RootOf(nil, Plug(c, t))
  {
    hide Links, Plug, Once, Nodes, Around, Inorder;
    OncePlug(c, t);
    NodesPlug(c, t);
    LinksNode(nil, t, ParentOf(c, nil));
    SwapLinks(nil, c, t, s);
    ParentLinks(nil, s, t.n, ParentOf(c, nil));
    RootIn(nil, s);
    RootIn(nil, t);
    LeafOnce();
    assert if t.l.Leaf? then t.l == Leaf else t.r == Leaf;
  }

  /** A node outside the tree takes the place and the colour of a node in it. */
  lemma RenameLinks(nil: Ref, c: Context, t: Tree, y: Ref, ky: nat)
    requires Once(Plug(c, t)) && nil !in Nodes(Plug(c, t)) && t.Node? && t.l.Node? && t.r.Node?
    requires y !in Nodes(Plug(c, t)) && y != nil
    ensures var u := Node(t.l, y, ky, t.c, t.r);
            var A, B, h := Links(nil, Plug(c, t), nil), Links(nil, Plug(c, u), nil), ParentOf(c, nil);
            && Once(Plug(c, u)) && Nodes(Plug(c, u)) == Nodes(Plug(c, t)) - {t.n} + {y} && nil !in Nodes(Plug(c, u))
            && t.n in A && A[t.n] == Fields(t.l.n, t.r.n, h, t.k, t.c)
            && (c.Top? <==> h == nil) && (!c.Top? ==> h in A && h !in {t.n, t.l.n, t.r.n})
            && (c.InLeft? ==> A[h].left == t.n) && (c.InRight? ==> A[h].left != t.n)
            && t.l.n in A && t.r.n in A && t.l.n != t.r.n && t.l.n != t.n && t.r.n != t.n
            && B[y] == Fields(t.l.n, t.r.n, h, ky, t.c)
            && B[t.l.n] == A[t.l.n].(parent := y) && B[t.r.n] == A[t.r.n].(parent := y)
            && (!c.Top? ==> B[h] == if c.InLeft? then A[h].(left := y) else A[h].(right := y))
            && (forall x :: x in B && x !in {h, y, t.l.n, t.r.n} ==> B[x] == A[x])
            && RootOf(nil, Plug(c, u)) == if c.Top? then y else RootOf(nil, Plug(c, t))
  {
    hide Links, Plug, Once, Nodes, Around, Inorder;
    var u := Node(t.l, y, ky, t.c, t.r);
    OncePlug(c, t);
    NodesPlug(c, t);
    LinksNode(nil, t, ParentOf(c, nil));
    OnceNode(u);
    LinksNode(nil, u, ParentOf(c, nil));
    SwapLinks(nil, c, t, u);
    ParentLinks(nil, t.l, t.n, y);
    ParentLinks(nil, t.r, t.n, y);
    RootIn(nil, t.l);
    RootIn(nil, t.r);
  }

  /** The subtree in which the right child, which has no left child, takes the place and the colour of its
      parent. */
  ghost function Hoisted(t: Tree): Tree
    requires t.Node? && t.r.Node?
  {
    Node(t.l, t.r.n, t.r.k, t.c, t.r.r)
  }

  lemma HoistOnce(nil: Ref, c: Context, t: Tree)
    requires Once(Plug(c, t)) && nil !in Nodes(Plug(c, t)) && t.Node? && t.l.Node? && t.r.Node? && t.r.l.Leaf?
    ensures Once(t) && Once(t.r) && Once(t.l) && Once(t.r.r)
    ensures Once(Hoisted(t)) && Nodes(Hoisted(t)) == Nodes(t) - {t.n}
    ensures Around(c) !! Nodes(t) && Nodes(Plug(c, t)) == Around(c) + Nodes(t) && t.r.n != t.n && t.n in Nodes(t)
    ensures Nodes(t) == Nodes(t.l) + {t.n, t.r.n} + Nodes(t.r.r) && Nodes(t.l) !! {t.n, t.r.n} !! Nodes(t.r.r)
    ensures Nodes(t.l) !! Nodes(t.r.r) && t.l.n in Nodes(t.l)
    ensures if t.r.r.Leaf? then RootOf(nil, t.r.r) == nil else RootOf(nil, t.r.r) in Nodes(t.r.r)
  {
    hide Links, Plug, Once, Nodes, Around, Inorder;
    OncePlug(c, t);
    NodesPlug(c, t);
    LinksNode(nil, t, nil);
    LinksNode(nil, t.r, t.n);
    LeafOnce();
    assert t.r.l == Leaf;
    OnceNode(Hoisted(t));
    RootIn(nil, t.l);
    RootIn(nil, t.r.r);
  }

  lemma HoistFrom(nil: Ref, c: Context, t: Tree)
    requires Once(Plug(c, t)) && nil !in Nodes(Plug(c, t)) && t.Node? && t.l.Node? && t.r.Node? && t.r.l.Leaf?
    ensures var y := t.r.n; var A, h := Links(nil, Plug(c, t), nil), ParentOf(c, nil);
            && t.n in A && A[t.n] == Fields(t.l.n, y, h, t.k, t.c) && y in A && y != t.n
            && A[y] == Fields(nil, RootOf(nil, t.r.r), t.n, t.r.k, t.r.c)
            && (c.Top? <==> h == nil) && (!c.Top? ==> h in A && h !in {t.n, t.l.n, y})
            && (c.InLeft? ==> A[h].left == t.n) && (c.InRight? ==> A[h].left != t.n)
            && t.l.n in A && t.l.n != t.n && t.l.n != y
            && (RootOf(nil, t.r.r) != nil ==> RootOf(nil, t.r.r) in A && A[RootOf(nil, t.r.r)].parent == y
                                              && RootOf(nil, t.r.r) !in {t.n, y, t.l.n, h})
  {
    hide Links, Plug, Once, Nodes, Around, Inorder;
    HoistOnce(nil, c, t);
    LinksNode(nil, t, ParentOf(c, nil));
    LinksNode(nil, t.r, t.n);
    SwapLinks(nil, c, t, t);
    ParentLinks(nil, t.r.r, t.r.n, t.r.n);
  }

  lemma HoistLinks(nil: Ref, c: Context, t: Tree)
    requires Once(Plug(c, t)) && nil !in Nodes(Plug(c, t)) && t.Node? && t.l.Node? && t.r.Node? && t.r.l.Leaf?
    ensures var y := t.r.n; var u := Hoisted(t);
            var A, B, h := Links(nil, Plug(c, t), nil), Links(nil, Plug(c, u), nil), ParentOf(c, nil);
            && Once(Plug(c, u)) && Nodes(Plug(c, u)) == Nodes(Plug(c, t)) - {t.n}
            && y in A && y in B && t.l.n in A && t.l.n in B && (!c.Top? ==> h in A && h in B)
            && B[y] == Fields(t.l.n, RootOf(nil, t.r.r), h, t.r.k, t.c)
            && B[t.l.n] == A[t.l.n].(parent := y)
            && (!c.Top? ==> B[h] == if c.InLeft? then A[h].(left := y) else A[h].(right := y))
            && (forall x :: x in B && x !in {h, y, t.l.n} ==> B[x] == A[x])
            && RootOf(nil, Plug(c, u)) == if c.Top? then y else RootOf(nil, Plug(c, t))
  {
    hide Links, Plug, Once, Nodes, Around, Inorder;
    HoistOnce(nil, c, t);
    LinksNode(nil, t, ParentOf(c, nil));
    LinksNode(nil, t.r, t.n);
    LinksNode(nil, Hoisted(t), ParentOf(c, nil));
    SwapLinks(nil, c, t, Hoisted(t));
    ParentLinks(nil, t.l, t.n, t.r.n);
  }

  /** A path that turns left only. */
  ghost predicate LeftSpine(c: Context) {
    c.Top? || (c.InLeft? && LeftSpine(c.up))
  }

  lemma {:induction false} LeftSpineBefore(c: Context)
    requires LeftSpine(c)
    ensures Before(c) == []
  {
    if !c.Top? {
      LeftSpineBefore(c.up);
    }
  }

  /** Renaming a node above a hole keeps the colours around the hole. */
  lemma {:induction false} RenameRb(lc: Context, b: Context, d: Context, h: nat)
    requires b.InRight? && d.InRight? && b.l == d.l && b.c == d.c && b.up == d.up
    requires CtxRb(Append(lc, b), h)
    ensures CtxRb(Append(lc, d), h) && (ParentRed(Append(lc, d)) <==> ParentRed(Append(lc, b)))
    decreases lc
  {
    if !lc.Top? {
      RenameRb(lc.up, b, d, if lc.c.Black? then h + 1 else h);
    }
  }

  lemma LeafRb()
    ensures Rb(Leaf) && Bh(Leaf) == 0
  {
  }

  lemma BlackenRb(t: Tree)
    requires Rb(t)
    ensures Rb(Blacken(t))
  {
  }

  /** The colours after node y, with at most a right subtree s, was taken out of its place below context b. */
  lemma TakenOutRb(b: Context, d: Context, t: Tree, s: Tree)
    requires Rb(Plug(b, t)) && !IsRed(Plug(b, t)) && t.Node? && ((t.l.Leaf? && s == t.r) || (t.r.Leaf? && s == t.l))
    requires forall h: nat :: CtxRb(b, h) ==> CtxRb(d, h)
    requires (ParentRed(d) <==> ParentRed(b)) && (d.Top? <==> b.Top?)
    ensures if t.c.Black? then Short(d, s) else Rb(Plug(d, s)) && !IsRed(Plug(d, s))
  {
    hide Rb, CtxRb, Plug;
    RbOpen(b, t);
    RbParts(t);
    LeafRb();
    if t.c.Red? {
      RbPlug(d, s);
    } else {
      BlackenRb(s);
    }
  }

  /** The colours after the least node m.n of the right subtree took the place and the colour of t.n. */
  lemma PromotedRb(c: Context, t: Tree, lc: Context, m: Tree)
    requires Rb(Plug(c, t)) && !IsRed(Plug(c, t)) && t.Node? && t.r == Plug(lc, m) && m.Node? && m.l.Leaf?
    ensures var d := Append(lc, InRight(t.l, m.n, m.k, t.c, c));
            && Plug(d, m.r) == Plug(c, Node(t.l, m.n, m.k, t.c, Plug(lc, m.r)))
            && if m.c.Black? then Short(d, m.r) else Rb(Plug(d, m.r)) && !IsRed(Plug(d, m.r))
  {
    var b, d := InRight(t.l, t.n, t.k, t.c, c), InRight(t.l, m.n, m.k, t.c, c);
    PlugAppend(lc, b, m);
    PlugAppend(lc, d, m.r);
    PlugUp(b, t.r);
    PlugUp(d, Plug(lc, m.r));
    hide Rb, CtxRb, Plug, Append;
    assert t == Fill(b, t.r);
    assert Plug(Append(lc, b), m) == Plug(c, t);
    forall h: nat | CtxRb(Append(lc, b), h) ensures CtxRb(Append(lc, d), h) {
      RenameRb(lc, b, d, h);
    }
    RenameTop(lc, b, d);
    TakenOutRb(Append(lc, b), Append(lc, d), m, m.r);
  }

  /** The parent of the least node of the right subtree is t.n only when that node is the right child. */
  lemma WithinRight(nil: Ref, c: Context, t: Tree, lc: Context, m: Tree)
    requires Once(Plug(c, t)) && t.Node? && t.r == Plug(lc, m) && m.Node?
    ensures var b := Append(lc, InRight(t.l, t.n, t.k, t.c, c));
            && Plug(b, m) == Plug(c, t) && !b.Top? && (lc.Top? <==> b.n == t.n) && (!lc.Top? ==> b.n == lc.n)
    ensures t.n in Nodes(Plug(c, t)) && t.n != m.n && (lc.Top? ==> t.r == m)
  {
    OncePlug(c, t);
    NodesPlug(c, t);
    NodesPlug(lc, m);
    PlugAppend(lc, InRight(t.l, t.n, t.k, t.c, c), m);
  }

  lemma RenameTop(lc: Context, b: Context, d: Context)
    requires b.InRight? && d.InRight? && b.c == d.c
    ensures !Append(lc, b).Top? && !Append(lc, d).Top? && Append(lc, b).c == Append(lc, d).c
  {
  }

  /** Item i is the one of node x, and `after` is the list without it. */
  ghost predicate ItemRemoved(before: seq<Item>, after: seq<Item>, i: nat, x: Item) {
    i < |before| && before[i] == x && after == before[..i] + before[i + 1..]
  }

  lemma RemovedItems(before: seq<Item>, after: seq<Item>, i: nat, x: Item)
    requires ItemRemoved(before, after, i, x)
    ensures forall y :: y in after ==> y in before
  {
  }

  lemma RemovedAt(before: seq<Item>, after: seq<Item>, a: seq<Item>, b: seq<Item>, x: Item)
    requires before == a + [x] + b && after == a + b
    ensures ItemRemoved(before, after, |a|, x)
    ensures Sorted(before) ==> Sorted(after)
  {
    assert before[..|a|] == a && before[|a| + 1..] == b;
    assert forall i :: 0 <= i < |a| ==> after[i] == before[i];
    assert forall i :: |a| <= i < |after| ==> after[i] == before[i + 1];
  }

  lemma InorderNode(t: Tree)
    requires t.Node?
    ensures Inorder(t) == Inorder(t.l) + [(t.n, t.k)] + Inorder(t.r)
    ensures t.l.Leaf? ==> Inorder(t.l) == []
    ensures t.r.Leaf? ==> Inorder(t.r) == []
  {
  }

  lemma Splice(b: seq<Item>, l: seq<Item>, x: seq<Item>, r: seq<Item>, a: seq<Item>)
    ensures b + (l + x + r) + a == b + l + x + (r + a)
    ensures b + l + a == b + l + ([] + a) && b + r + a == b + [] + (r + a)
  {
  }

  /** The items when node t.n with at most one child gives way to that child. */
  lemma SpliceItems(c: Context, t: Tree, s: Tree)
    requires t.Node? && ((t.l.Leaf? && s == t.r) || (t.r.Leaf? && s == t.l))
    ensures Inorder(Plug(c, t)) == Before(c) + Inorder(t.l) + [(t.n, t.k)] + (Inorder(t.r) + After(c))
    ensures Inorder(Plug(c, s)) == Before(c) + Inorder(t.l) + (Inorder(t.r) + After(c))
  {
    hide Inorder, Plug, Before, After;
    InorderPlug(c, t);
    InorderPlug(c, s);
    InorderNode(t);
    Splice(Before(c), Inorder(t.l), [(t.n, t.k)], Inorder(t.r), After(c));
  }

  lemma Promote(b: seq<Item>, l: seq<Item>, x: seq<Item>, y: seq<Item>, p: seq<Item>, w: seq<Item>, a: seq<Item>)
    ensures b + (l + x + ([] + ([] + y + p) + w)) + a == b + l + x + (([] + ([] + y + p) + w) + a)
    ensures b + (l + y + ([] + p + w)) + a == b + l + (([] + ([] + y + p) + w) + a)
  {
  }

  /** The items when the least node of t.r takes the place of t.n. */
  lemma PromoteItems(c: Context, t: Tree, lc: Context, m: Tree)
    requires t.Node? && m.Node? && m.l.Leaf? && LeftSpine(lc) && t.r == Plug(lc, m)
    ensures Inorder(Plug(c, t)) == Before(c) + Inorder(t.l) + [(t.n, t.k)] + (Inorder(t.r) + After(c))
    ensures Inorder(Plug(c, Node(t.l, m.n, m.k, t.c, Plug(lc, m.r))))
            == Before(c) + Inorder(t.l) + (Inorder(t.r) + After(c))
  {
    hide Inorder, Plug, Before, After;
    var u := Node(t.l, m.n, m.k, t.c, Plug(lc, m.r));
    InorderPlug(c, t);
    InorderPlug(c, u);
    InorderPlug(lc, m);
    InorderPlug(lc, m.r);
    InorderNode(t);
    InorderNode(u);
    InorderNode(m);
    LeftSpineBefore(lc);
    Promote(Before(c), Inorder(t.l), [(t.n, t.k)], [(m.n, m.k)], Inorder(m.r), After(lc), After(c));
  }

  lemma RemovedBySplice(c: Context, t: Tree, s: Tree)
    requires t.Node? && ((t.l.Leaf? && s == t.r) || (t.r.Leaf? && s == t.l))
    ensures ItemRemoved(Inorder(Plug(c, t)), Inorder(Plug(c, s)), |Before(c) + Inorder(t.l)|, (t.n, t.k))
    ensures Sorted(Inorder(Plug(c, t))) ==> Sorted(Inorder(Plug(c, s)))
  {
    hide Inorder, Plug, Before, After, Sorted;
    SpliceItems(c, t, s);
    RemovedAt(Inorder(Plug(c, t)), Inorder(Plug(c, s)), Before(c) + Inorder(t.l), Inorder(t.r) + After(c), (t.n, t.k));
  }

  lemma RemovedByPromotion(c: Context, t: Tree, lc: Context, m: Tree)
    requires t.Node? && m.Node? && m.l.Leaf? && LeftSpine(lc) && t.r == Plug(lc, m)
    ensures var u := Plug(c, Node(t.l, m.n, m.k, t.c, Plug(lc, m.r)));
            && ItemRemoved(Inorder(Plug(c, t)), Inorder(u), |Before(c) + Inorder(t.l)|, (t.n, t.k))
            && (Sorted(Inorder(Plug(c, t))) ==> Sorted(Inorder(u)))
  {
    hide Inorder, Plug, Before, After, Sorted;
    PromoteItems(c, t, lc, m);
    var u := Plug(c, Node(t.l, m.n, m.k, t.c, Plug(lc, m.r)));
    RemovedAt(Inorder(Plug(c, t)), Inorder(u), Before(c) + Inorder(t.l), Inorder(t.r) + After(c), (t.n, t.k));
  }

  // ---------------------------------------------------------------- order

  ghost predicate Sorted(s: seq<Item>) {
    forall i, j :: 0 <= i < j < |s| ==> s[i].1 <= s[j].1
  }

  ghost predicate AllAtMost(s: seq<Item>, k: nat) {
    forall i :: 0 <= i < |s| ==> s[i].1 <= k
  }

  ghost predicate AllAbove(s: seq<Item>, k: nat) {
    forall i :: 0 <= i < |s| ==> s[i].1 > k
  }

  /** Insertion into a sorted list behind the equal keys. */
  ghost function InsertItem(s: seq<Item>, x: Item): seq<Item> {
    if s == [] || x.1 < s[0].1 then [x] + s else [s[0]] + InsertItem(s[1..], x)
  }

  lemma {:induction false} InsertSplit(a: seq<Item>, b: seq<Item>, x: Item)
    requires AllAtMost(a, x.1) && AllAbove(b, x.1)
    ensures InsertItem(a + b, x) == a + [x] + b
  {
    if a == [] {
      assert a + b == b;
    } else {
      InsertSplit(a[1..], b, x);
      assert (a + b)[1..] == a[1..] + b;
      assert a + [x] + b == [a[0]] + (a[1..] + [x] + b);
    }
  }

  lemma SortedAround(a: seq<Item>, b: seq<Item>, x: Item)
    requires Sorted(a + b) && AllAtMost(a, x.1) && AllAbove(b, x.1)
    ensures Sorted(a + [x] + b)
  {
    var s, t := a + b, a + [x] + b;
    assert forall i :: 0 <= i < |a| ==> t[i] == s[i];
    assert forall i :: |a| < i < |t| ==> t[i] == s[i - 1] && t[i] == b[i - |a| - 1];
  }

  lemma TopOrder(k: nat)
    ensures AllAtMost(Before(Top), k) && AllAbove(After(Top), k)
  {
  }

  lemma DescendStep(b: seq<Item>, l: seq<Item>, x: Item, r: seq<Item>, a: seq<Item>, k: nat)
    requires Sorted(b + (l + [x] + r) + a) && AllAtMost(b, k) && AllAbove(a, k)
    ensures k < x.1 ==> AllAbove([x] + r + a, k)
    ensures k >= x.1 ==> AllAtMost(b + l + [x], k)
  {
    var s := b + (l + [x] + r) + a;
    var p := |b| + |l|;
    assert s[p] == x;
    assert forall i :: 0 <= i < |r| ==> s[p + 1 + i] == r[i];
    assert forall i :: 0 <= i < |l| ==> s[|b| + i] == l[i];
  }

  /** One step of the descent for key k. */
  lemma DescendOrder(c: Context, t: Tree, k: nat)
    requires t.Node? && Sorted(Before(c) + Inorder(t) + After(c))
    requires AllAtMost(Before(c), k) && AllAbove(After(c), k)
    ensures k < t.k ==> AllAbove(After(InLeft(c, t.n, t.k, t.c, t.r)), k)
    ensures k >= t.k ==> AllAtMost(Before(InRight(t.l, t.n, t.k, t.c, c)), k)
  {
    hide Sorted, AllAtMost, AllAbove;
    DescendStep(Before(c), Inorder(t.l), (t.n, t.k), Inorder(t.r), After(c), k);
  }

  /** A leaf node in an empty place of a red-black tree: the items, and the colours the fixup starts from. */
  lemma Attached(c: Context, n: Ref, k: nat, col: Color)
    requires Rb(Plug(c, Leaf)) && !IsRed(Plug(c, Leaf)) && Sorted(Inorder(Plug(c, Leaf)))
    requires AllAtMost(Before(c), k) && AllAbove(After(c), k)
    ensures var t := Node(Leaf, n, k, col, Leaf);
            && Calm(c) && (col.Red? ==> Rb(t) && IsRed(t) && CtxRb(c, Bh(t)))
            && Inorder(Plug(c, t)) == InsertItem(Inorder(Plug(c, Leaf)), (n, k))
            && Sorted(Inorder(Plug(c, t)))
  {
    var t := Node(Leaf, n, k, col, Leaf);
    RbOpen(c, Leaf);
    CtxCalm(c, 0);
    InorderPlug(c, Leaf);
    InorderPlug(c, t);
    assert Inorder(t) == [(n, k)];
    assert Before(c) + Inorder(Leaf) + After(c) == Before(c) + After(c);
    InsertSplit(Before(c), After(c), (n, k));
    SortedAround(Before(c), After(c), (n, k));
  }

  lemma {:induction false} InsertedItems(s: seq<Item>, x: Item)
    ensures forall y :: y in InsertItem(s, x) <==> y == x || y in s
  {
    if s != [] && x.1 >= s[0].1 {
      InsertedItems(s[1..], x);
      assert s == [s[0]] + s[1..];
      assert InsertItem(s, x) == [s[0]] + InsertItem(s[1..], x);
    }
  }

  lemma ItemIn(t: Tree, x: Item)
    requires t.Node?
    ensures x in Inorder(t) <==> x in Inorder(t.l) || x == (t.n, t.k) || x in Inorder(t.r)
  {
  }

  /** The items are the nodes with their keys. */
  lemma {:induction false} ItemsAre(nil: Ref, t: Tree, p: Ref)
    requires Once(t)
    ensures forall x :: x in Inorder(t) ==> x.0 in Nodes(t) && Links(nil, t, p)[x.0].key == x.1
    ensures forall n :: n in Nodes(t) ==> (n, Links(nil, t, p)[n].key) in Inorder(t)
  {
    if t.Node? {
      hide Links, Nodes, Inorder, Once;
      LinksNode(nil, t, p);
      ItemsAre(nil, t.l, t.n);
      ItemsAre(nil, t.r, t.n);
      forall x | x in Inorder(t) ensures x.0 in Nodes(t) && Links(nil, t, p)[x.0].key == x.1 {
        ItemIn(t, x);
        if x in Inorder(t.l) {
          assert x.0 in Nodes(t.l);
        } else if x in Inorder(t.r) {
          assert x.0 in Nodes(t.r);
        }
      }
      forall n | n in Nodes(t) ensures (n, Links(nil, t, p)[n].key) in Inorder(t) {
        var x := (n, Links(nil, t, p)[n].key);
        ItemIn(t, x);
        if n in Nodes(t.l) {
          assert x == (n, Links(nil, t.l, t.n)[n].key);
        } else if n in Nodes(t.r) {
          assert x == (n, Links(nil, t.r, t.n)[n].key);
        }
      }
    }
  }

  ghost function First(nil: Ref, s: seq<Item>): Ref {
    if s == [] then nil else s[0].0
  }

  /** The root comes first exactly when it has no left child. */
  lemma LeftmostFirst(nil: Ref, t: Tree, rest: seq<Item>)
    requires t.Node? && Once(t)
    ensures First(nil, Inorder(t) + rest) == t.n <==> t.l.Leaf?
  {
    ItemsAre(nil, t.l, t.n);
    InorderNode(t);
    if t.l.Node? {
      InorderNode(t.l);
      assert (Inorder(t) + rest)[0] == Inorder(t.l)[0] && Inorder(t.l)[0] in Inorder(t.l);
    }
  }

  lemma NextUp(nil: Ref, d: Context)
    ensures d.InRight? ==> After(d) == After(d.up)
    ensures !d.InRight? ==> First(nil, After(d)) == ParentOf(d, nil)
  {
  }

  /** Hanging a fresh node into an empty place. */
  lemma AttachLinks(nil: Ref, c: Context, n: Ref, k: nat, col: Color)
    requires Once(Plug(c, Leaf)) && nil !in Nodes(Plug(c, Leaf)) && n !in Nodes(Plug(c, Leaf)) && n != nil
    ensures var u := Plug(c, Node(Leaf, n, k, col, Leaf)); var h := ParentOf(c, nil);
            var A, B := Links(nil, Plug(c, Leaf), nil), Links(nil, u, nil);
            && Once(u) && Nodes(u) == Nodes(Plug(c, Leaf)) + {n} && nil !in Nodes(u)
            && (c.Top? <==> h == nil) && (!c.Top? ==> h in A)
            && B[n] == Fields(nil, nil, h, k, col)
            && (forall x :: x in A && x != h ==> B[x] == A[x])
            && (!c.Top? ==> B[h] == if c.InLeft? then A[h].(left := n) else A[h].(right := n))
            && RootOf(nil, u) == if c.Top? then n else RootOf(nil, Plug(c, Leaf))
  {
    hide Links, Plug, Once, Nodes, Around, Inorder;
    var t := Node(Leaf, n, k, col, Leaf);
    LeafOnce();
    OnceNode(t);
    LinksNode(nil, t, ParentOf(c, nil));
    SwapLinks(nil, c, Leaf, t);
  }
}
