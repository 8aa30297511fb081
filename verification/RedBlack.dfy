/**
 * Red-black trees as values, seen through a zipper.
 *
 * A `Ctx` is a tree with one hole; `Plug(c, t)` fills the hole. The two repair loops of the
 * intrusive tree walk upwards from a node, so each is described here as a function of the
 * context above the node and the subtree below it. The pointer code in `BinarySearchTree` is
 * proved to compute exactly these functions; what they achieve is proved here.
 */
module RedBlack {
  import opened Words

  datatype Color = Red | Black

  /** A tree node's identity (its slot) together with the key of the value stored in it. */
  datatype Elem = Elem(id: nat, key: int)

  datatype Tree = Leaf | Node(left: Tree, e: Elem, color: Color, right: Tree)

  /** A tree with a hole, from the hole outwards: the hole is the left (or right) child of `e`. */
  datatype Ctx =
    | Top
    | InLeft(up: Ctx, e: Elem, color: Color, right: Tree)
    | InRight(left: Tree, e: Elem, color: Color, up: Ctx)

  function Plug(c: Ctx, t: Tree): Tree
    decreases c
  {
    match c
    case Top => t
    case InLeft(up, e, k, r) => Plug(up, Node(t, e, k, r))
    case InRight(l, e, k, up) => Plug(up, Node(l, e, k, t))
  }

  function Inorder(t: Tree): seq<Elem> {
    match t
    case Leaf => []
    case Node(l, e, _, r) => Inorder(l) + [e] + Inorder(r)
  }

  /** The elements in order before, and after, the hole of a context. */
  function Before(c: Ctx): seq<Elem> {
    match c
    case Top => []
    case InLeft(up, _, _, _) => Before(up)
    case InRight(l, e, _, up) => Before(up) + Inorder(l) + [e]
  }

  function After(c: Ctx): seq<Elem> {
    match c
    case Top => []
    case InLeft(up, e, _, r) => [e] + Inorder(r) + After(up)
    case InRight(_, _, _, up) => After(up)
  }

  lemma {:induction false} PlugInorder(c: Ctx, t: Tree)
    ensures Inorder(Plug(c, t)) == Before(c) + Inorder(t) + After(c)
    decreases c
  {
    match c
    case Top =>
    case InLeft(up, e, k, r) => PlugInorder(up, Node(t, e, k, r));
    case InRight(l, e, k, up) => PlugInorder(up, Node(l, e, k, t));
  }

  // ---------------------------------------------------------------- invariants

  function ColorOf(t: Tree): Color {
    if t.Leaf? then Black else t.color
  }

  function CtxColor(c: Ctx): Color {
    if c.Top? then Black else c.color
  }

  function Blacken(t: Tree): Tree {
    if t.Leaf? then Leaf else t.(color := Black)
  }

  function Redden(t: Tree): Tree {
    if t.Leaf? then Leaf else t.(color := Red)
  }

  function Weight(k: Color): nat {
    if k == Black then 1 else 0
  }

  /** Black nodes on the leftmost path; in a balanced tree, on every path. */
  function BlackHeight(t: Tree): nat {
    if t.Leaf? then 0 else BlackHeight(t.left) + Weight(t.color)
  }

  predicate Balanced(t: Tree) {
    t.Node? ==> Balanced(t.left) && Balanced(t.right) && BlackHeight(t.left) == BlackHeight(t.right)
  }

  /** No red node has a red child. */
  predicate RedOk(t: Tree) {
    t.Node? ==>
      && RedOk(t.left) && RedOk(t.right)
      && (t.color == Red ==> ColorOf(t.left) == Black && ColorOf(t.right) == Black)
  }

  predicate RB(t: Tree) {
    Balanced(t) && RedOk(t) && ColorOf(t) == Black
  }

  /** The context is balanced once its hole holds a tree of black height `h`. */
  predicate CtxBalanced(c: Ctx, h: nat) {
    match c
    case Top => true
    case InLeft(up, _, k, r) => Balanced(r) && BlackHeight(r) == h && CtxBalanced(up, h + Weight(k))
    case InRight(l, _, k, up) => Balanced(l) && BlackHeight(l) == h && CtxBalanced(up, h + Weight(k))
  }

  predicate CtxRedOk(c: Ctx) {
    match c
    case Top => true
    case InLeft(up, _, k, s) =>
      RedOk(s) && CtxRedOk(up) && (k == Red ==> ColorOf(s) == Black && CtxColor(up) == Black)
    case InRight(s, _, k, up) =>
      RedOk(s) && CtxRedOk(up) && (k == Red ==> ColorOf(s) == Black && CtxColor(up) == Black)
  }

  /** The outermost node of the context, the root of the plugged tree, is black. */
  predicate RootBlack(c: Ctx) {
    c.Top? || (if c.up.Top? then c.color == Black else RootBlack(c.up))
  }

  lemma {:induction false} PlugBalanced(c: Ctx, t: Tree)
    ensures Balanced(Plug(c, t)) <==> Balanced(t) && CtxBalanced(c, BlackHeight(t))
    decreases c
  {
    match c
    case Top =>
    case InLeft(up, e, k, r) => PlugBalanced(up, Node(t, e, k, r));
    case InRight(l, e, k, up) => PlugBalanced(up, Node(l, e, k, t));
  }

  lemma {:induction false} PlugRedOk(c: Ctx, t: Tree)
    ensures RedOk(Plug(c, t)) <==>
            RedOk(t) && CtxRedOk(c) && (ColorOf(t) == Red ==> CtxColor(c) == Black)
    decreases c
  {
    match c
    case Top =>
    case InLeft(up, e, k, r) => PlugRedOk(up, Node(t, e, k, r));
    case InRight(l, e, k, up) => PlugRedOk(up, Node(l, e, k, t));
  }

  lemma {:induction false} PlugRootBlack(c: Ctx, t: Tree)
    requires c != Top
    ensures Plug(c, t).Node?
    ensures ColorOf(Plug(c, t)) == Black <==> RootBlack(c)
    decreases c
  {
    var t' := if c.InLeft? then Node(t, c.e, c.color, c.right) else Node(c.left, c.e, c.color, t);
    if c.up != Top {
      PlugRootBlack(c.up, t');
    }
  }

  lemma BlackenKeeps(t: Tree)
    ensures Inorder(Blacken(t)) == Inorder(t)
    ensures Balanced(t) ==> Balanced(Blacken(t))
    ensures RedOk(t) ==> RedOk(Blacken(t))
  {
  }

  // ---------------------------------------------------------------- moving and rotating

  function Depth(c: Ctx): nat {
    if c.Top? then 0 else 1 + Depth(c.up)
  }

  function Sibling(c: Ctx): Tree
    requires c != Top
  {
    if c.InLeft? then c.right else c.left
  }

  /** The tree below the hole's parent once the hole holds `t`. */
  function Join(c: Ctx, t: Tree): Tree
    requires c != Top
  {
    if c.InLeft? then Node(t, c.e, c.color, c.right) else Node(c.left, c.e, c.color, t)
  }

  lemma PlugSameInorder(c: Ctx, t: Tree, t': Tree)
    requires Inorder(t) == Inorder(t')
    ensures Inorder(Plug(c, t)) == Inorder(Plug(c, t'))
  {
    PlugInorder(c, t);
    PlugInorder(c, t');
  }

  /** The two shapes a rotation exchanges hold the same elements in the same order. */
  lemma RotateInorder(a: Tree, x: Elem, b: Tree, y: Elem, d: Tree, k1: Color, k2: Color, k3: Color, k4: Color)
    ensures Inorder(Node(a, x, k1, Node(b, y, k2, d))) == Inorder(Node(Node(a, x, k3, b), y, k4, d))
  {
    calc {
      Inorder(Node(a, x, k1, Node(b, y, k2, d)));
      Inorder(a) + [x] + (Inorder(b) + [y] + Inorder(d));
      (Inorder(a) + [x] + Inorder(b)) + [y] + Inorder(d);
      Inorder(Node(Node(a, x, k3, b), y, k4, d));
    }
  }

  /** Plugging a subtree with a black root, of the right height, into a sound context. */
  lemma PlugSound(c: Ctx, t: Tree)
    requires Balanced(t) && CtxBalanced(c, BlackHeight(t))
    requires RedOk(t) && CtxRedOk(c) && RootBlack(c)
    requires ColorOf(t) == Red ==> CtxColor(c) == Black
    ensures RB(Blacken(Plug(c, t)))
    ensures c != Top ==> RB(Plug(c, t))
  {
    PlugBalanced(c, t);
    PlugRedOk(c, t);
    if c != Top { PlugRootBlack(c, t); }
  }

  // ---------------------------------------------------------------- insertion repair

  /** The parent is red, and, not being the root, has a parent. */
  predicate RedParent(c: Ctx) {
    c != Top && c.color == Red && c.up != Top
  }

  /** Red uncle: parent and uncle turn black, and the now red grandparent takes over. */
  function PushUp(c: Ctx, t: Tree): Tree
    requires RedParent(c)
  {
    var p := Blacken(Join(c, t));
    var u := Blacken(Sibling(c.up));
    if c.up.InLeft? then Node(p, c.up.e, Red, u) else Node(u, c.up.e, Red, p)
  }

  /** Black uncle: one rotation at the grandparent, after one at the parent if `t` is an inner child. */
  function RotateUp(c: Ctx, t: Tree): Tree
    requires RedParent(c) && t.Node?
  {
    var g := c.up.e;
    var u := Sibling(c.up);
    if c.up.InLeft? then
      if c.InLeft? then Node(t, c.e, Black, Node(c.right, g, Red, u))
      else Node(Node(c.left, c.e, Red, t.left), t.e, Black, Node(t.right, g, Red, u))
    else
      if c.InRight? then Node(Node(u, g, Red, c.left), c.e, Black, t)
      else Node(Node(u, g, Red, t.left), t.e, Black, Node(t.right, c.e, Red, c.right))
  }

  /** One round of the repair: what stands in the grandparent's place afterwards. */
  function InsertRound(c: Ctx, t: Tree): Tree
    requires RedParent(c) && t.Node?
  {
    if ColorOf(Sibling(c.up)) == Red then PushUp(c, t) else RotateUp(c, t)
  }

  /**
   * The insertion repair from the node at the root of `t` upwards, without the final blackening
   * of the root.
   */
  function InsertFix(c: Ctx, t: Tree): Tree
    requires t.Node?
    decreases c
  {
    if !RedParent(c) then Plug(c, t)
    else if ColorOf(Sibling(c.up)) == Red then InsertFix(c.up.up, PushUp(c, t))
    else Plug(c.up.up, RotateUp(c, t))
  }

  /**
   * What may be wrong at the head of the insertion loop: the red node `t` may have a red parent,
   * or may be the root. Everything else is a red-black tree.
   */
  predicate InsertReady(c: Ctx, t: Tree) {
    && t.Node? && t.color == Red
    && RedOk(t) && CtxRedOk(c) && RootBlack(c)
    && Balanced(t) && CtxBalanced(c, BlackHeight(t))
  }

  lemma PushUpReady(c: Ctx, t: Tree)
    requires InsertReady(c, t) && RedParent(c) && ColorOf(Sibling(c.up)) == Red
    ensures InsertReady(c.up.up, PushUp(c, t))
  {
    assert CtxRedOk(c.up) && RootBlack(c.up) && CtxBalanced(c.up, BlackHeight(t)) && c.up.color == Black;
    BlackenKeeps(Sibling(c.up));
    var p := Join(c, t);
    assert RedOk(Blacken(p)) && Balanced(p) && Balanced(Blacken(p));
  }

  lemma RotateUpReady(c: Ctx, t: Tree)
    requires InsertReady(c, t) && RedParent(c) && ColorOf(Sibling(c.up)) == Black
    ensures var u := RotateUp(c, t);
            && Balanced(u) && RedOk(u) && u.color == Black
            && CtxBalanced(c.up.up, BlackHeight(u)) && CtxRedOk(c.up.up) && RootBlack(c.up.up)
  {
    assert CtxRedOk(c.up) && RootBlack(c.up) && CtxBalanced(c.up, BlackHeight(t)) && c.up.color == Black;
    var u := RotateUp(c, t);
    assert Balanced(u.left) && Balanced(u.right) && RedOk(u.left) && RedOk(u.right);
  }

  lemma PushUpInorder(c: Ctx, t: Tree)
    requires RedParent(c)
    ensures Inorder(Plug(c.up.up, PushUp(c, t))) == Inorder(Plug(c, t))
  {
    BlackenKeeps(Join(c, t));
    BlackenKeeps(Sibling(c.up));
    PlugSameInorder(c.up.up, PushUp(c, t), Join(c.up, Join(c, t)));
  }

  lemma RotateUpInorder(c: Ctx, t: Tree)
    requires RedParent(c) && t.Node?
    ensures Inorder(Plug(c.up.up, RotateUp(c, t))) == Inorder(Plug(c, t))
  {
    var g, u := c.up.e, Sibling(c.up);
    if c.up.InLeft? {
      if c.InLeft? {
        RotateInorder(t, c.e, c.right, g, u, Black, Red, c.color, c.up.color);
      } else {
        RotateInorder(c.left, c.e, t.left, t.e, t.right, c.color, t.color, Red, Black);
        RotateInorder(Node(c.left, c.e, Red, t.left), t.e, t.right, g, u, Black, Red, Black, c.up.color);
      }
    } else {
      if c.InRight? {
        RotateInorder(u, g, c.left, c.e, t, c.up.color, c.color, Red, Black);
      } else {
        RotateInorder(t.left, t.e, t.right, c.e, c.right, Black, Red, t.color, c.color);
        RotateInorder(u, g, t.left, t.e, Node(t.right, c.e, Red, c.right), c.up.color, Black, Red, Black);
      }
    }
    PlugSameInorder(c.up.up, RotateUp(c, t), Join(c.up, Join(c, t)));
  }

  /** A round climbs two levels, keeps the only possible defects, and leaves the outcome the same. */
  lemma InsertRoundStep(c: Ctx, t: Tree)
    requires InsertReady(c, t) && CtxColor(c) == Red
    ensures RedParent(c) && Depth(c) == Depth(c.up.up) + 2
    ensures var u := ColorOf(Sibling(c.up));
            && (u == Red ==> InsertReady(c.up.up, InsertRound(c, t))
                             && InsertFix(c.up.up, InsertRound(c, t)) == InsertFix(c, t))
            && (u == Black ==> Plug(c.up.up, InsertRound(c, t)) == InsertFix(c, t))
  {
    assert Depth(c) == 1 + Depth(c.up);
    if ColorOf(Sibling(c.up)) == Red { PushUpReady(c, t); }
  }

  lemma {:induction false} InsertFixSound(c: Ctx, t: Tree)
    requires InsertReady(c, t)
    ensures RB(Blacken(InsertFix(c, t)))
    ensures Inorder(InsertFix(c, t)) == Inorder(Plug(c, t))
    decreases c
  {
    if !RedParent(c) {
      PlugSound(c, t);
    } else if ColorOf(Sibling(c.up)) == Red {
      PushUpReady(c, t);
      PushUpInorder(c, t);
      InsertFixSound(c.up.up, PushUp(c, t));
    } else {
      RotateUpReady(c, t);
      RotateUpInorder(c, t);
      PlugSound(c.up.up, RotateUp(c, t));
    }
  }

  /** Filling a hole of a red-black tree with a fresh red node, then repairing. */
  function Insert(c: Ctx, e: Elem): Tree {
    Blacken(InsertFix(c, Node(Leaf, e, Red, Leaf)))
  }

  lemma InsertSound(c: Ctx, e: Elem)
    requires RB(Plug(c, Leaf))
    ensures InsertReady(c, Node(Leaf, e, Red, Leaf))
    ensures RB(Insert(c, e))
    ensures Inorder(Plug(c, Leaf)) == Before(c) + After(c)
    ensures Inorder(Insert(c, e)) == Before(c) + [e] + After(c)
  {
    var n := Node(Leaf, e, Red, Leaf);
    UnplugSound(c, Leaf);
    InsertFixSound(c, n);
    HoleInorder(c, e);
    BlackenKeeps(InsertFix(c, n));
  }

  lemma HoleInorder(c: Ctx, e: Elem)
    ensures Inorder(Plug(c, Leaf)) == Before(c) + After(c)
    ensures Inorder(Plug(c, Node(Leaf, e, Red, Leaf))) == Before(c) + [e] + After(c)
  {
    PlugInorder(c, Leaf);
    PlugInorder(c, Node(Leaf, e, Red, Leaf));
    assert Inorder(Node(Leaf, e, Red, Leaf)) == [e];
  }

  // ---------------------------------------------------------------- deletion repair

  /** A red sibling is rotated above the parent, which turns red: the hole sinks one level. */
  function LiftSibling(c: Ctx): Ctx {
    match c
    case InLeft(up, p, _, Node(sl, s, Red, sr)) => InLeft(InLeft(up, s, Black, sr), p, Red, sl)
    case InRight(Node(sl, s, Red, sr), p, _, up) => InRight(sr, p, Red, InRight(sl, s, Black, up))
    case _ => c
  }

  predicate NephewRed(c: Ctx)
    requires c != Top
  {
    var s := Sibling(c);
    s.Node? && (ColorOf(s.left) == Red || ColorOf(s.right) == Red)
  }

  /** Both nephews black: the sibling turns red and the defect moves to the parent. */
  function Recolored(c: Ctx, t: Tree): Tree
    requires c != Top
  {
    match c
    case InLeft(_, p, k, s) => Node(t, p, k, Redden(s))
    case InRight(s, p, k, _) => Node(Redden(s), p, k, t)
  }

  /** A red nephew pays for the missing black by one rotation, or by two. */
  function Repaired(c: Ctx, t: Tree): Tree
    requires c != Top && NephewRed(c)
  {
    match c
    case InLeft(_, p, k, s) =>
      if ColorOf(s.right) == Black then
        var w := s.left;
        Node(Node(t, p, Black, w.left), w.e, k, Node(w.right, s.e, Black, s.right))
      else
        Node(Node(t, p, Black, s.left), s.e, k, Blacken(s.right))
    case InRight(s, p, k, _) =>
      if ColorOf(s.left) == Black then
        var w := s.right;
        Node(Node(s.left, s.e, Black, w.left), w.e, k, Node(w.right, p, Black, t))
      else
        Node(Blacken(s.left), s.e, k, Node(s.right, p, Black, t))
  }

  /** The loop measure: a red node ends the loop, whatever its depth. */
  function DeleteRank(c: Ctx, t: Tree): nat {
    if ColorOf(t) == Red then 0 else Depth(c) + 1
  }

  /** The rest of a round once the sibling is black: where the walk stands afterwards. */
  function DeleteSettle(d: Ctx, t: Tree): (Ctx, Tree)
    requires d != Top
  {
    if NephewRed(d) then (Top, Plug(d.up, Repaired(d, t))) else (d.up, Recolored(d, t))
  }

  function DeleteRound(c: Ctx, t: Tree): (Ctx, Tree)
    requires c != Top
  {
    DeleteSettle(LiftSibling(c), t)
  }

  function DeleteFix(c: Ctx, t: Tree): Tree
    decreases DeleteRank(c, t)
  {
    if c.Top? || ColorOf(t) == Red then
      Plug(c, Blacken(t))
    else
      var d := LiftSibling(c);
      if NephewRed(d) then
        Blacken(Plug(d.up, Repaired(d, t)))
      else
        DeleteFix(d.up, Recolored(d, t))
  }

  /** At the head of the deletion loop, paths through `t` are one black short; nothing else is wrong. */
  predicate DeleteReady(c: Ctx, t: Tree) {
    && RedOk(Blacken(t)) && CtxRedOk(c) && RootBlack(c)
    && Balanced(t) && CtxBalanced(c, BlackHeight(t) + 1)
  }

  lemma LiftReady(c: Ctx, t: Tree)
    requires DeleteReady(c, t) && c != Top && ColorOf(t) == Black
    ensures var d := LiftSibling(c);
            && d != Top && DeleteReady(d, t)
            && Sibling(d).Node? && Sibling(d).color == Black
            && (d != c ==> d.color == Red)
  {
    assert Sibling(c).Node?;
  }

  lemma LiftInorder(c: Ctx, t: Tree)
    ensures Inorder(Plug(LiftSibling(c), t)) == Inorder(Plug(c, t))
  {
    match c
    case InLeft(up, p, k, Node(sl, s, Red, sr)) =>
      RotateInorder(t, p, sl, s, sr, k, Red, Red, Black);
      PlugSameInorder(up, Node(Node(t, p, Red, sl), s, Black, sr), Join(c, t));
    case InRight(Node(sl, s, Red, sr), p, k, up) =>
      RotateInorder(sl, s, sr, p, t, Black, Red, Red, k);
      PlugSameInorder(up, Node(sl, s, Black, Node(sr, p, Red, t)), Join(c, t));
    case _ =>
  }

  lemma RecoloredReady(d: Ctx, t: Tree)
    requires d != Top && DeleteReady(d, t) && ColorOf(t) == Black
    requires Sibling(d).Node? && Sibling(d).color == Black && !NephewRed(d)
    ensures DeleteReady(d.up, Recolored(d, t))
  {
    var s := Redden(Sibling(d));
    assert RedOk(s) && Balanced(s);
  }

  lemma RecoloredInorder(d: Ctx, t: Tree)
    requires d != Top
    ensures Inorder(Plug(d.up, Recolored(d, t))) == Inorder(Plug(d, t))
  {
    assert Inorder(Redden(Sibling(d))) == Inorder(Sibling(d));
    PlugSameInorder(d.up, Recolored(d, t), Join(d, t));
  }

  lemma RepairedReady(d: Ctx, t: Tree)
    requires d != Top && DeleteReady(d, t) && ColorOf(t) == Black
    requires Sibling(d).Node? && Sibling(d).color == Black && NephewRed(d)
    ensures var u := Repaired(d, t);
            && Balanced(u) && CtxBalanced(d.up, BlackHeight(u))
            && RedOk(u) && u.color == d.color
            && CtxRedOk(d.up) && RootBlack(d.up)
  {
    var s := Sibling(d);
    var u := Repaired(d, t);
    assert Balanced(s.left) && Balanced(s.right) && RedOk(s.left) && RedOk(s.right);
    BlackenKeeps(s.left);
    BlackenKeeps(s.right);
    assert Balanced(u.left) && RedOk(u.left);
    assert Balanced(u.right) && RedOk(u.right);
  }

  lemma RepairedInorder(d: Ctx, t: Tree)
    requires d != Top && NephewRed(d)
    ensures Inorder(Plug(d.up, Repaired(d, t))) == Inorder(Plug(d, t))
  {
    var u := Repaired(d, t);
    var s := Sibling(d);
    BlackenKeeps(s.left);
    BlackenKeeps(s.right);
    if d.InLeft? {
      if ColorOf(s.right) == Black {
        var w := s.left;
        RotateInorder(w.left, w.e, w.right, s.e, s.right, d.color, Black, w.color, s.color);
        RotateInorder(t, d.e, w.left, w.e, Node(w.right, s.e, Black, s.right), d.color, d.color, Black, d.color);
      } else {
        RotateInorder(t, d.e, s.left, s.e, s.right, d.color, s.color, Black, d.color);
      }
    } else {
      if ColorOf(s.left) == Black {
        var w := s.right;
        RotateInorder(s.left, s.e, w.left, w.e, w.right, s.color, w.color, Black, d.color);
        RotateInorder(Node(s.left, s.e, Black, w.left), w.e, w.right, d.e, t, d.color, Black, d.color, d.color);
      } else {
        RotateInorder(s.left, s.e, s.right, d.e, t, d.color, Black, s.color, d.color);
      }
    }
    PlugSameInorder(d.up, u, Join(d, t));
  }

  /** A round keeps the one defect, lowers the rank, and leaves the outcome the same. */
  lemma DeleteRoundStep(c: Ctx, t: Tree)
    requires DeleteReady(c, t) && c != Top && ColorOf(t) == Black
    ensures var (c', t') := DeleteRound(c, t);
            && t'.Node? && DeleteReady(c', t') && DeleteRank(c', t') < DeleteRank(c, t)
            && DeleteFix(c', t') == DeleteFix(c, t)
  {
    var d := LiftSibling(c);
    LiftReady(c, t);
    if NephewRed(d) {
      var u := Repaired(d, t);
      RepairedReady(d, t);
      PlugSound(d.up, u);
      PlugBalanced(d.up, u);
      if d.up != Top { PlugRootBlack(d.up, u); }
    } else {
      RecoloredReady(d, t);
    }
  }

  lemma {:induction false} DeleteFixSound(c: Ctx, t: Tree)
    requires DeleteReady(c, t)
    ensures RB(DeleteFix(c, t))
    ensures Inorder(DeleteFix(c, t)) == Inorder(Plug(c, t))
    decreases DeleteRank(c, t)
  {
    if c.Top? || ColorOf(t) == Red {
      PlugSound(c, Blacken(t));
      PlugInorder(c, t);
      PlugInorder(c, Blacken(t));
      BlackenKeeps(t);
    } else {
      var d := LiftSibling(c);
      LiftReady(c, t);
      LiftInorder(c, t);
      if NephewRed(d) {
        var u := Repaired(d, t);
        RepairedReady(d, t);
        RepairedInorder(d, t);
        PlugSound(d.up, u);
        BlackenKeeps(Plug(d.up, u));
      } else {
        RecoloredReady(d, t);
        RecoloredInorder(d, t);
        DeleteFixSound(d.up, Recolored(d, t));
      }
    }
  }

  // ---------------------------------------------------------------- deletion

  /** The node with no left child reached by going left from the root of `t`. */
  function MinNode(t: Tree): (m: Tree)
    requires t.Node?
    ensures m.Node? && m.left.Leaf?
  {
    if t.left.Leaf? then t else MinNode(t.left)
  }

  function MaxNode(t: Tree): (m: Tree)
    requires t.Node?
    ensures m.Node? && m.right.Leaf?
  {
    if t.right.Leaf? then t else MaxNode(t.right)
  }

  /** The context of the `MinNode`, when `t` itself sits in `base`. */
  function SpineCtx(base: Ctx, t: Tree): Ctx
    requires t.Node?
    decreases t
  {
    if t.left.Leaf? then base else SpineCtx(InLeft(base, t.e, t.color, t.right), t.left)
  }

  function RemoveMin(t: Tree): Tree
    requires t.Node?
  {
    if t.left.Leaf? then t.right else Node(RemoveMin(t.left), t.e, t.color, t.right)
  }

  lemma {:induction false} SpinePlug(base: Ctx, t: Tree)
    requires t.Node?
    ensures Plug(SpineCtx(base, t), MinNode(t)) == Plug(base, t)
    ensures Plug(SpineCtx(base, t), MinNode(t).right) == Plug(base, RemoveMin(t))
    decreases t
  {
    if t.left.Node? { SpinePlug(InLeft(base, t.e, t.color, t.right), t.left); }
  }

  lemma {:induction false} MinInorder(t: Tree)
    requires t.Node?
    ensures Inorder(t) == [MinNode(t).e] + Inorder(RemoveMin(t))
  {
    if t.left.Node? { MinInorder(t.left); }
  }

  lemma {:induction false} MaxInorder(t: Tree)
    requires t.Node?
    ensures Inorder(t) != [] && Inorder(t)[|Inorder(t)| - 1] == MaxNode(t).e
  {
    if t.right.Node? { MaxInorder(t.right); }
  }

  /** The focus at which the repair after removing the root of `t` starts, and whether it is needed. */
  function DeleteFocus(c: Ctx, t: Tree): (f: (Ctx, Tree, Color))
    requires t.Node?
  {
    if t.left.Leaf? then (c, t.right, t.color)
    else if t.right.Leaf? then (c, t.left, t.color)
    else
      var y := MinNode(t.right);
      (SpineCtx(InRight(t.left, y.e, t.color, c), t.right), y.right, y.color)
  }

  /** Removing the root of `t`, with its successor moved into its place if it has two children. */
  function Delete(c: Ctx, t: Tree): Tree
    requires t.Node?
  {
    var (c', t', k) := DeleteFocus(c, t);
    if k == Black then DeleteFix(c', t') else Plug(c', t')
  }

  lemma {:induction false} SpineSound(base: Ctx, t: Tree)
    requires t.Node? && Balanced(t) && RedOk(t) && CtxRedOk(base) && RootBlack(base)
    requires CtxBalanced(base, BlackHeight(t))
    requires t.color == Red ==> CtxColor(base) == Black
    requires t.color == Red ==> base != Top
    ensures var y := MinNode(t); var c := SpineCtx(base, t);
            && Balanced(y) && RedOk(y) && CtxRedOk(c) && RootBlack(c)
            && CtxBalanced(c, BlackHeight(y))
            && (y.color == Red ==> CtxColor(c) == Black && c != Top)
    decreases t
  {
    if t.left.Node? { SpineSound(InLeft(base, t.e, t.color, t.right), t.left); }
  }

  /** A context of a red-black tree is sound for a hole of the height of its present filling. */
  lemma UnplugSound(c: Ctx, t: Tree)
    requires RB(Plug(c, t))
    ensures Balanced(t) && RedOk(t) && (ColorOf(t) == Red ==> c != Top && CtxColor(c) == Black)
    ensures CtxBalanced(c, BlackHeight(t)) && CtxRedOk(c) && RootBlack(c)
  {
    PlugBalanced(c, t);
    PlugRedOk(c, t);
    if c != Top { PlugRootBlack(c, t); }
  }

  /** Unlinking a node that has at most one child. */
  lemma SpliceReady(c: Ctx, t: Tree, s: Tree)
    requires t.Node? && ((t.left.Leaf? && s == t.right) || (t.right.Leaf? && s == t.left))
    requires Balanced(t) && RedOk(t) && (t.color == Red ==> c != Top && CtxColor(c) == Black)
    requires CtxBalanced(c, BlackHeight(t)) && CtxRedOk(c) && RootBlack(c)
    ensures t.color == Black ==> DeleteReady(c, s)
    ensures t.color == Red ==> RB(Plug(c, s))
  {
    BlackenKeeps(s);
    if t.color == Red { PlugSound(c, s); }
  }

  /** Unlinking leaves a red-black tree, or one whose only defect the deletion repair handles. */
  lemma DeleteFocusReady(c: Ctx, t: Tree)
    requires t.Node? && RB(Plug(c, t))
    ensures var (c', t', k) := DeleteFocus(c, t);
            && (k == Black ==> DeleteReady(c', t'))
            && (k == Red ==> RB(Plug(c', t')))
  {
    UnplugSound(c, t);
    if t.left.Leaf? {
      SpliceReady(c, t, t.right);
    } else if t.right.Leaf? {
      SpliceReady(c, t, t.left);
    } else {
      var y := MinNode(t.right);
      var base := InRight(t.left, y.e, t.color, c);
      SpineSound(base, t.right);
      SpliceReady(SpineCtx(base, t.right), y, y.right);
    }
  }

  /** Before any repair, the tree is `c` around the node's two subtrees, put together. */
  function Unlinked(t: Tree): Tree
    requires t.Node?
  {
    if t.left.Leaf? then t.right
    else if t.right.Leaf? then t.left
    else Node(t.left, MinNode(t.right).e, t.color, RemoveMin(t.right))
  }

  lemma DeleteFocusPlug(c: Ctx, t: Tree)
    requires t.Node?
    ensures var (c', t', k) := DeleteFocus(c, t);
            Plug(c', t') == Plug(c, Unlinked(t))
    ensures Inorder(Unlinked(t)) == Inorder(t.left) + Inorder(t.right)
  {
    if t.left.Node? && t.right.Node? {
      var y := MinNode(t.right);
      SpinePlug(InRight(t.left, y.e, t.color, c), t.right);
      MinInorder(t.right);
    }
  }

  lemma DeleteSound(c: Ctx, t: Tree)
    requires t.Node? && RB(Plug(c, t))
    ensures RB(Delete(c, t))
    ensures Inorder(Plug(c, t)) == (Before(c) + Inorder(t.left)) + [t.e] + (Inorder(t.right) + After(c))
    ensures Inorder(Delete(c, t)) == (Before(c) + Inorder(t.left)) + (Inorder(t.right) + After(c))
  {
    DeleteInorder(c, t);
    DeleteFocusReady(c, t);
    DeleteFocusPlug(c, t);
    var (c', t', k) := DeleteFocus(c, t);
    if k == Black { DeleteFixSound(c', t'); }
  }

  lemma DeleteInorder(c: Ctx, t: Tree)
    requires t.Node?
    ensures Inorder(Plug(c, t)) == (Before(c) + Inorder(t.left)) + [t.e] + (Inorder(t.right) + After(c))
    ensures Inorder(Plug(c, Unlinked(t))) == (Before(c) + Inorder(t.left)) + (Inorder(t.right) + After(c))
  {
    DeleteFocusPlug(c, t);
    PlugInorder(c, t);
    PlugInorder(c, Unlinked(t));
    Regroup(Before(c), Inorder(t.left), [t.e], Inorder(t.right), After(c));
  }

  lemma Regroup(a: seq<Elem>, l: seq<Elem>, m: seq<Elem>, r: seq<Elem>, b: seq<Elem>)
    ensures a + (l + m + r) + b == (a + l) + m + (r + b)
    ensures a + (l + r) + b == (a + l) + (r + b)
  {
  }

  // ---------------------------------------------------------------- height

  function Size(t: Tree): nat {
    if t.Leaf? then 0 else Size(t.left) + 1 + Size(t.right)
  }

  function Height(t: Tree): nat {
    if t.Leaf? then 0
    else 1 + if Height(t.left) > Height(t.right) then Height(t.left) else Height(t.right)
  }

  lemma {:induction false} SizeAtLeast(t: Tree)
    requires Balanced(t)
    ensures Pow2(BlackHeight(t)) <= Size(t) + 1
  {
    if t.Node? {
      SizeAtLeast(t.left);
      SizeAtLeast(t.right);
    }
  }

  lemma {:induction false} HeightAtMost(t: Tree)
    requires Balanced(t) && RedOk(t)
    ensures Height(t) <= 2 * BlackHeight(t) + 1 - Weight(ColorOf(t))
  {
    if t.Node? {
      HeightAtMost(t.left);
      HeightAtMost(t.right);
    }
  }

  /** A red-black tree of n nodes has height at most 2 log2(n + 1). */
  lemma HeightBound(t: Tree)
    requires RB(t)
    ensures Pow2(Height(t)) <= (Size(t) + 1) * (Size(t) + 1)
  {
    var h := BlackHeight(t);
    HeightAtMost(t);
    SizeAtLeast(t);
    Pow2Divides(Height(t), 2 * h);
    Pow2Split(h, 2 * h);
    SquareMonotone(Pow2(h), Size(t) + 1);
  }

  lemma SquareMonotone(m: nat, n: nat)
    requires m <= n
    ensures m * m <= n * n
  {
    assert n * n - m * m == (n - m) * (n + m);
  }

  lemma {:induction false} SizeInorder(t: Tree)
    ensures |Inorder(t)| == Size(t)
  {
    if t.Node? {
      SizeInorder(t.left);
      SizeInorder(t.right);
    }
  }
}
