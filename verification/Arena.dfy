/**
 * The memory the intrusive tree lives in, and what it means for it to hold a given tree.
 *
 * Pointers are indices into an arena of cells: 0 is NULL, 1 is the nil sentinel, and the node
 * slots start at 2. All predicates here are about a snapshot of the arena.
 */
module Arena {
  import opened RedBlack

  const NULL: nat := 0
  const NIL: nat := 1
  const FIRST: nat := 2

  /** The stored object: the comparator sees the key, the rest is copied byte for byte. */
  datatype Value = Value(key: int, bytes: seq<bv8>)

  datatype Cell = Cell(parent: nat, color: Color, left: nat, right: nat, list: nat, value: Value)

  function Ptr(t: Tree): nat {
    if t.Leaf? then NIL else t.e.id
  }

  /** The parent pointer that belongs at the root of whatever fills the hole. */
  function Above(c: Ctx): nat {
    if c.Top? then NIL else c.e.id
  }

  /** The root pointer when `hole` is the pointer in the hole. */
  function RootPtr(c: Ctx, hole: nat): nat {
    if c.Top? then hole else RootPtr(c.up, c.e.id)
  }

  function Ids(t: Tree): set<nat> {
    if t.Leaf? then {} else Ids(t.left) + {t.e.id} + Ids(t.right)
  }

  function CtxIds(c: Ctx): set<nat> {
    if c.Top? then {} else Ids(Sibling(c)) + {c.e.id} + CtxIds(c.up)
  }

  /** No slot occurs twice. */
  predicate Distinct(t: Tree) {
    t.Node? ==>
      && Distinct(t.left) && Distinct(t.right)
      && t.e.id !in Ids(t.left) && t.e.id !in Ids(t.right) && Ids(t.left) !! Ids(t.right)
  }

  predicate DistinctCtx(c: Ctx) {
    c != Top ==>
      && Distinct(Sibling(c)) && DistinctCtx(c.up)
      && c.e.id !in Ids(Sibling(c)) && c.e.id !in CtxIds(c.up) && Ids(Sibling(c)) !! CtxIds(c.up)
  }

  /** The cell of node `e` has these links and this colour. */
  predicate Holds(m: seq<Cell>, e: Elem, k: Color, left: nat, right: nat, parent: nat) {
    && FIRST <= e.id < |m| && m[e.id].value.key == e.key && m[e.id].color == k
    && m[e.id].left == left && m[e.id].right == right && m[e.id].parent == parent
  }

  /** The arena holds `t`, hanging below `parent`: child links, parent links, colours and keys. */
  predicate Rep(m: seq<Cell>, t: Tree, parent: nat)
    decreases t
  {
    t.Node? ==>
      && Holds(m, t.e, t.color, Ptr(t.left), Ptr(t.right), parent)
      && Rep(m, t.left, t.e.id) && Rep(m, t.right, t.e.id)
  }

  /** The arena holds the context `c` with the pointer `hole` in its hole. */
  predicate RepCtx(m: seq<Cell>, c: Ctx, hole: nat) {
    match c
    case Top => true
    case InLeft(up, e, k, r) =>
      Holds(m, e, k, hole, Ptr(r), Above(up)) && Rep(m, r, e.id) && RepCtx(m, up, e.id)
    case InRight(l, e, k, up) =>
      Holds(m, e, k, Ptr(l), hole, Above(up)) && Rep(m, l, e.id) && RepCtx(m, up, e.id)
  }

  predicate Separate(c: Ctx, t: Tree) {
    Distinct(t) && DistinctCtx(c) && Ids(t) !! CtxIds(c)
  }

  /** The arena holds `Plug(c, t)`, and the walk stands at the root of `t`. */
  predicate Focus(m: seq<Cell>, root: nat, c: Ctx, t: Tree) {
    && Rep(m, t, Above(c)) && RepCtx(m, c, Ptr(t))
    && root == RootPtr(c, Ptr(t)) && Separate(c, t)
  }

  /** Outside `s` nothing changed, and no list link or value changed anywhere. */
  predicate Kept(m: seq<Cell>, m': seq<Cell>, s: set<nat>) {
    && |m'| == |m|
    && (forall i :: 0 <= i < |m| && i !in s ==> m'[i] == m[i])
    && (forall i :: 0 <= i < |m| ==> m'[i].list == m[i].list && m'[i].value == m[i].value)
  }

  /** The values in the slots. */
  function Loads(m: seq<Cell>): (vs: seq<Value>)
    ensures |vs| == |m| && forall i :: 0 <= i < |m| ==> vs[i] == m[i].value
  {
    seq(|m|, i requires 0 <= i < |m| => m[i].value)
  }

  lemma KeptLoads(m: seq<Cell>, m': seq<Cell>, s: set<nat>)
    requires Kept(m, m', s)
    ensures Loads(m') == Loads(m)
  {
  }

  lemma SameValue(m: seq<Cell>, m': seq<Cell>, p: nat)
    requires Loads(m') == Loads(m) && p < |m|
    ensures p < |m'| && m'[p].value == m[p].value
  {
    assert Loads(m')[p] == Loads(m)[p];
  }

  lemma NewLoad(m: seq<Cell>, p: nat, cell: Cell)
    requires p < |m|
    ensures Loads(m[p := cell]) == Loads(m)[p := cell.value]
  {
  }

  /** Where one value has been written, any slot holds that or what it held. */
  lemma LoadAt(m: seq<Cell>, m': seq<Cell>, p: nat, v: Value, q: nat)
    requires p < |m| && q < |m'| && Loads(m') == Loads(m)[p := v]
    ensures |m'| == |m| && m'[q].value == if q == p then v else m[q].value
  {
    assert m'[q].value == Loads(m')[q];
  }

  lemma SameLoad(m: seq<Cell>, p: nat, cell: Cell)
    requires p < |m| && cell.value == m[p].value
    ensures Loads(m[p := cell]) == Loads(m)
  {
  }

  /** On the cells of `s`, everything a tree is made of is the same. */
  predicate AgreeOn(m: seq<Cell>, m': seq<Cell>, s: set<nat>) {
    && |m'| == |m|
    && forall i :: 0 <= i < |m| && i in s ==>
         && m'[i].parent == m[i].parent && m'[i].color == m[i].color
         && m'[i].left == m[i].left && m'[i].right == m[i].right
         && m'[i].value.key == m[i].value.key
  }

  // ---------------------------------------------------------------- frames

  lemma {:induction false} RepFrame(m: seq<Cell>, m': seq<Cell>, t: Tree, parent: nat)
    requires Rep(m, t, parent) && AgreeOn(m, m', Ids(t))
    ensures Rep(m', t, parent)
    decreases t
  {
    if t.Node? {
      RepFrame(m, m', t.left, t.e.id);
      RepFrame(m, m', t.right, t.e.id);
    }
  }

  lemma {:induction false} CtxFrame(m: seq<Cell>, m': seq<Cell>, c: Ctx, hole: nat)
    requires RepCtx(m, c, hole) && AgreeOn(m, m', CtxIds(c))
    ensures RepCtx(m', c, hole)
    decreases c
  {
    if c != Top {
      RepFrame(m, m', Sibling(c), c.e.id);
      CtxFrame(m, m', c.up, c.e.id);
    }
  }

  lemma {:induction false} IdsInArena(m: seq<Cell>, t: Tree, parent: nat)
    requires Rep(m, t, parent)
    ensures forall i :: i in Ids(t) ==> FIRST <= i < |m|
    decreases t
  {
    if t.Node? {
      IdsInArena(m, t.left, t.e.id);
      IdsInArena(m, t.right, t.e.id);
    }
  }

  lemma {:induction false} CtxIdsInArena(m: seq<Cell>, c: Ctx, hole: nat)
    requires RepCtx(m, c, hole)
    ensures forall i :: i in CtxIds(c) ==> FIRST <= i < |m|
    decreases c
  {
    if c != Top {
      IdsInArena(m, Sibling(c), c.e.id);
      CtxIdsInArena(m, c.up, c.e.id);
    }
  }

  /** A subtree moved below another parent, with only its root's parent link rewritten. */
  lemma RepReparent(m: seq<Cell>, m': seq<Cell>, t: Tree, parent: nat, parent': nat)
    requires Rep(m, t, parent) && Distinct(t)
    requires t.Node? ==> AgreeOn(m, m', Ids(t) - {t.e.id})
    requires t.Node? ==> Holds(m', t.e, t.color, Ptr(t.left), Ptr(t.right), parent')
    ensures Rep(m', t, parent')
  {
    if t.Node? {
      RepFrame(m, m', t.left, t.e.id);
      RepFrame(m, m', t.right, t.e.id);
    }
  }

  /** The innermost node of the context has `hole` on the side of the hole. */
  predicate Holding(m: seq<Cell>, c: Ctx, hole: nat)
    requires c != Top
  {
    if c.InLeft? then Holds(m, c.e, c.color, hole, Ptr(c.right), Above(c.up))
    else Holds(m, c.e, c.color, Ptr(c.left), hole, Above(c.up))
  }

  /** The hole filled with another pointer: one link of the hole's parent rewritten. */
  lemma CtxRehole(m: seq<Cell>, m': seq<Cell>, c: Ctx, hole: nat, hole': nat)
    requires RepCtx(m, c, hole) && DistinctCtx(c)
    requires c != Top ==> AgreeOn(m, m', CtxIds(c) - {c.e.id}) && Holding(m', c, hole')
    ensures RepCtx(m', c, hole')
  {
    if c != Top {
      RepFrame(m, m', Sibling(c), c.e.id);
      CtxFrame(m, m', c.up, c.e.id);
    }
  }

  // ---------------------------------------------------------------- moving the focus

  lemma FocusUp(m: seq<Cell>, root: nat, c: Ctx, t: Tree)
    requires c != Top
    ensures Focus(m, root, c, t) <==> Focus(m, root, c.up, Join(c, t))
    ensures CtxIds(c) + Ids(t) == CtxIds(c.up) + Ids(Join(c, t))
  {
  }

  lemma FocusDown(m: seq<Cell>, root: nat, c: Ctx, t: Tree)
    requires t.Node?
    ensures Focus(m, root, c, t) <==> Focus(m, root, InLeft(c, t.e, t.color, t.right), t.left)
    ensures Focus(m, root, c, t) <==> Focus(m, root, InRight(t.left, t.e, t.color, c), t.right)
  {
    FocusUp(m, root, InLeft(c, t.e, t.color, t.right), t.left);
    FocusUp(m, root, InRight(t.left, t.e, t.color, c), t.right);
  }

  lemma {:induction false} FocusTop(m: seq<Cell>, root: nat, c: Ctx, t: Tree)
    ensures Focus(m, root, c, t) <==> Focus(m, root, Top, Plug(c, t))
    ensures Ids(Plug(c, t)) == CtxIds(c) + Ids(t)
    decreases c
  {
    if c != Top {
      FocusUp(m, root, c, t);
      FocusTop(m, root, c.up, Join(c, t));
    }
  }

  /** The outermost pointer is the focus itself exactly at the top. */
  lemma {:induction false} RootInCtx(c: Ctx, hole: nat)
    requires c != Top
    ensures RootPtr(c, hole) in CtxIds(c)
    decreases c
  {
    if c.up != Top { RootInCtx(c.up, c.e.id); }
  }

  /**
   * The arena holds `Plug(c, t)`, made of the cells `s`, with the walk at the root of `t`; since the
   * snapshot `m0`, only cells of `s` have changed, and in them only links and colours.
   */
  predicate At(m: seq<Cell>, root: nat, c: Ctx, t: Tree, m0: seq<Cell>, s: set<nat>) {
    Focus(m, root, c, t) && s == CtxIds(c) + Ids(t) && Kept(m0, m, s)
  }

  lemma AtUp(m: seq<Cell>, root: nat, c: Ctx, t: Tree, m0: seq<Cell>, s: set<nat>)
    requires c != Top
    ensures At(m, root, c, t, m0, s) <==> At(m, root, c.up, Join(c, t), m0, s)
  {
    FocusUp(m, root, c, t);
  }

  lemma AtTop(m: seq<Cell>, root: nat, c: Ctx, t: Tree, m0: seq<Cell>, s: set<nat>)
    ensures At(m, root, c, t, m0, s) <==> At(m, root, Top, Plug(c, t), m0, s)
  {
    FocusTop(m, root, c, t);
  }

  /** The walk never writes the sentinel. */
  lemma AtNil(m: seq<Cell>, root: nat, c: Ctx, t: Tree, m0: seq<Cell>, s: set<nat>)
    requires At(m, root, c, t, m0, s) && NIL < |m|
    ensures NIL < |m0| && m[NIL] == m0[NIL]
  {
    IdsInArena(m, t, Above(c));
    CtxIdsInArena(m, c, Ptr(t));
  }

  // ---------------------------------------------------------------- local rewrites

  lemma Recolor(m: seq<Cell>, m': seq<Cell>, root: nat, c: Ctx, t: Tree, k: Color, m0: seq<Cell>, s: set<nat>)
    requires At(m, root, c, t, m0, s) && t.Node?
    requires m' == m[t.e.id := m[t.e.id].(color := k)]
    ensures At(m', root, c, t.(color := k), m0, s)
  {
    RepFrame(m, m', t.left, t.e.id);
    RepFrame(m, m', t.right, t.e.id);
    CtxFrame(m, m', c, t.e.id);
  }

  function RotatedLeft(t: Tree): Tree
    requires t.Node? && t.right.Node?
  {
    Node(Node(t.left, t.e, t.color, t.right.left), t.right.e, t.right.color, t.right.right)
  }

  function RotatedRight(t: Tree): Tree
    requires t.Node? && t.left.Node?
  {
    Node(t.left.left, t.left.e, t.left.color, Node(t.left.right, t.e, t.color, t.right))
  }

  /** One link of the hole's parent now names `hole`; with no parent, there is nothing to link. */
  predicate Relinked(m: seq<Cell>, m': seq<Cell>, c: Ctx, hole: nat)
    requires |m| == |m'| && (c != Top ==> c.e.id < |m|)
  {
    && (c.InLeft? ==> m'[c.e.id] == m[c.e.id].(left := hole))
    && (c.InRight? ==> m'[c.e.id] == m[c.e.id].(right := hole))
  }

  /** The cells a rotation that puts `y` above `x` and moves `b` from `y` to `x` does not write. */
  predicate Untouched(m: seq<Cell>, m': seq<Cell>, c: Ctx, x: nat, y: nat, b: nat)
    requires |m| == |m'|
  {
    forall i :: 0 <= i < |m| && i != x && i != y && (b == NIL || i != b) && (c.Top? || i != Above(c))
      ==> m'[i] == m[i]
  }

  /** The three parts of a rotation's effect that do not depend on its direction. */
  predicate RotationCells(m: seq<Cell>, m': seq<Cell>, c: Ctx, x: nat, y: nat, b: nat)
    requires |m| == |m'| && (c != Top ==> c.e.id < |m|)
  {
    && Relinked(m, m', c, y)
    && (b != NIL ==> b < |m| && m'[b] == m[b].(parent := x))
    && Untouched(m, m', c, x, y, b)
  }

  lemma UntouchedAgree(m: seq<Cell>, m': seq<Cell>, c: Ctx, x: nat, y: nat, b: nat, s: set<nat>)
    requires |m| == |m'| && Untouched(m, m', c, x, y, b)
    requires x !in s && y !in s && (b == NIL || b !in s) && (c.Top? || Above(c) !in s)
    ensures AgreeOn(m, m', s)
  {
  }

  lemma RotateLeftSeparate(c: Ctx, t: Tree)
    requires Separate(c, t) && t.Node? && t.right.Node?
    ensures Separate(c, RotatedLeft(t)) && Ids(RotatedLeft(t)) == Ids(t)
    ensures Distinct(t.right) && Separate(c, t.right) && t.e.id !in Ids(t.right) && Ids(t.left) !! Ids(t.right)
  {
    assert Distinct(t.right);
    assert Ids(RotatedLeft(t)) == Ids(t);
  }

  lemma RotateLeftFocus(m: seq<Cell>, m': seq<Cell>, root: nat, root': nat, c: Ctx, t: Tree)
    requires Focus(m, root, c, t) && t.Node? && t.right.Node? && |m| == |m'|
    requires Rep(m, t.right, t.e.id)
    requires RotationCells(m, m', c, t.e.id, t.right.e.id, Ptr(t.right.left))
    requires m'[t.e.id] == m[t.e.id].(right := Ptr(t.right.left), parent := t.right.e.id)
    requires m'[t.right.e.id] == m[t.right.e.id].(left := t.e.id, parent := Above(c))
    requires root' == if c.Top? then t.right.e.id else root
    ensures Focus(m', root', c, RotatedLeft(t))
  {
    var r := t.right;
    var b := r.left;
    RotateLeftSeparate(c, t);
    UntouchedAgree(m, m', c, t.e.id, r.e.id, Ptr(b), Ids(t.left));
    RepFrame(m, m', t.left, t.e.id);
    UntouchedAgree(m, m', c, t.e.id, r.e.id, Ptr(b), Ids(r.right));
    RepFrame(m, m', r.right, r.e.id);
    if b.Node? { UntouchedAgree(m, m', c, t.e.id, r.e.id, Ptr(b), Ids(b) - {b.e.id}); }
    RepReparent(m, m', b, r.e.id, t.e.id);
    if c != Top { UntouchedAgree(m, m', c, t.e.id, r.e.id, Ptr(b), CtxIds(c) - {c.e.id}); }
    CtxRehole(m, m', c, t.e.id, r.e.id);
  }

  lemma RotateRightSeparate(c: Ctx, t: Tree)
    requires Separate(c, t) && t.Node? && t.left.Node?
    ensures Separate(c, RotatedRight(t)) && Ids(RotatedRight(t)) == Ids(t)
    ensures Distinct(t.left) && Separate(c, t.left) && t.e.id !in Ids(t.left) && Ids(t.right) !! Ids(t.left)
  {
    assert Distinct(t.left);
    assert Ids(RotatedRight(t)) == Ids(t);
  }

  lemma RotateRightFocus(m: seq<Cell>, m': seq<Cell>, root: nat, root': nat, c: Ctx, t: Tree)
    requires Focus(m, root, c, t) && t.Node? && t.left.Node? && |m| == |m'|
    requires Rep(m, t.left, t.e.id)
    requires RotationCells(m, m', c, t.e.id, t.left.e.id, Ptr(t.left.right))
    requires m'[t.e.id] == m[t.e.id].(left := Ptr(t.left.right), parent := t.left.e.id)
    requires m'[t.left.e.id] == m[t.left.e.id].(right := t.e.id, parent := Above(c))
    requires root' == if c.Top? then t.left.e.id else root
    ensures Focus(m', root', c, RotatedRight(t))
  {
    var l := t.left;
    var b := l.right;
    RotateRightSeparate(c, t);
    UntouchedAgree(m, m', c, t.e.id, l.e.id, Ptr(b), Ids(t.right));
    RepFrame(m, m', t.right, t.e.id);
    UntouchedAgree(m, m', c, t.e.id, l.e.id, Ptr(b), Ids(l.left));
    RepFrame(m, m', l.left, l.e.id);
    if b.Node? { UntouchedAgree(m, m', c, t.e.id, l.e.id, Ptr(b), Ids(b) - {b.e.id}); }
    RepReparent(m, m', b, l.e.id, t.e.id);
    if c != Top { UntouchedAgree(m, m', c, t.e.id, l.e.id, Ptr(b), CtxIds(c) - {c.e.id}); }
    CtxRehole(m, m', c, t.e.id, l.e.id);
  }

  /** The cells a rotation at the root of `t` visits are in the arena and pairwise different. */
  lemma RotateLeftCells(m: seq<Cell>, root: nat, c: Ctx, t: Tree)
    requires Focus(m, root, c, t) && t.Node? && t.right.Node?
    ensures var x, y, b := t.e.id, t.right.e.id, Ptr(t.right.left);
            && Rep(m, t.right, x) && FIRST <= x < |m| && FIRST <= y < |m| && x != y
            && m[x].right == y && m[x].parent == Above(c) && m[y].left == b
            && (b != NIL ==> FIRST <= b < |m| && b != x && b != y && b != Above(c))
            && (c != Top ==> FIRST <= c.e.id < |m| && c.e.id != x && c.e.id != y
                             && (m[c.e.id].left == x <==> c.InLeft?))
            && {x, y} <= Ids(t) && (b != NIL ==> b in Ids(t))
  {
    var r := t.right;
    assert Rep(m, r, t.e.id) && Distinct(r) && Ids(r) <= Ids(t);
    if r.left.Node? { assert r.left.e.id in Ids(r.left) && Ids(r.left) <= Ids(r); }
    IdsInArena(m, t, Above(c));
    if c != Top { IdsInArena(m, Sibling(c), c.e.id); }
  }

  /** The cells a rotation at the root of `t` visits are in the arena and pairwise different. */
  lemma RotateRightCells(m: seq<Cell>, root: nat, c: Ctx, t: Tree)
    requires Focus(m, root, c, t) && t.Node? && t.left.Node?
    ensures var x, y, b := t.e.id, t.left.e.id, Ptr(t.left.right);
            && Rep(m, t.left, x) && FIRST <= x < |m| && FIRST <= y < |m| && x != y
            && m[x].left == y && m[x].parent == Above(c) && m[y].right == b
            && (b != NIL ==> FIRST <= b < |m| && b != x && b != y && b != Above(c))
            && (c != Top ==> FIRST <= c.e.id < |m| && c.e.id != x && c.e.id != y
                             && (m[c.e.id].left == x <==> c.InLeft?))
            && {x, y} <= Ids(t) && (b != NIL ==> b in Ids(t))
  {
    var r := t.left;
    assert Rep(m, r, t.e.id) && Distinct(r) && Ids(r) <= Ids(t);
    if r.right.Node? { assert r.right.e.id in Ids(r.right) && Ids(r.right) <= Ids(r); }
    IdsInArena(m, t, Above(c));
    if c != Top { IdsInArena(m, Sibling(c), c.e.id); }
  }

  lemma RotationKept(m: seq<Cell>, m': seq<Cell>, c: Ctx, t: Tree, x: nat, y: nat, b: nat)
    requires |m| == |m'| && (c != Top ==> c.e.id < |m|)
    requires {x, y} <= Ids(t) && (b != NIL ==> b in Ids(t))
    requires RotationCells(m, m', c, x, y, b)
    requires x < |m| && m'[x].value == m[x].value && m'[x].list == m[x].list
    requires y < |m| && m'[y].value == m[y].value && m'[y].list == m[y].list
    ensures Kept(m, m', CtxIds(c) + Ids(t))
  {
  }

  /** A left rotation at the root of `t`, from the cells it writes to the tree it leaves. */
  lemma RotateLeftDone(m: seq<Cell>, m': seq<Cell>, root: nat, root': nat, c: Ctx, t: Tree, m0: seq<Cell>, s: set<nat>)
    requires At(m, root, c, t, m0, s) && t.Node? && t.right.Node? && |m| == |m'|
    requires Rep(m, t.right, t.e.id)
    requires RotationCells(m, m', c, t.e.id, t.right.e.id, Ptr(t.right.left))
    requires m'[t.e.id] == m[t.e.id].(right := Ptr(t.right.left), parent := t.right.e.id)
    requires m'[t.right.e.id] == m[t.right.e.id].(left := t.e.id, parent := Above(c))
    requires root' == if c.Top? then t.right.e.id else root
    ensures At(m', root', c, RotatedLeft(t), m0, s)
  {
    RotateLeftCells(m, root, c, t);
    RotateLeftFocus(m, m', root, root', c, t);
    RotateLeftSeparate(c, t);
    RotationKept(m, m', c, t, t.e.id, t.right.e.id, Ptr(t.right.left));
    KeptTrans(m0, m, m', s);
  }

  /** A right rotation at the root of `t`, from the cells it writes to the tree it leaves. */
  lemma RotateRightDone(m: seq<Cell>, m': seq<Cell>, root: nat, root': nat, c: Ctx, t: Tree, m0: seq<Cell>, s: set<nat>)
    requires At(m, root, c, t, m0, s) && t.Node? && t.left.Node? && |m| == |m'|
    requires Rep(m, t.left, t.e.id)
    requires RotationCells(m, m', c, t.e.id, t.left.e.id, Ptr(t.left.right))
    requires m'[t.e.id] == m[t.e.id].(left := Ptr(t.left.right), parent := t.left.e.id)
    requires m'[t.left.e.id] == m[t.left.e.id].(right := t.e.id, parent := Above(c))
    requires root' == if c.Top? then t.left.e.id else root
    ensures At(m', root', c, RotatedRight(t), m0, s)
  {
    RotateRightCells(m, root, c, t);
    RotateRightFocus(m, m', root, root', c, t);
    RotateRightSeparate(c, t);
    RotationKept(m, m', c, t, t.e.id, t.left.e.id, Ptr(t.left.right));
    KeptTrans(m0, m, m', s);
  }

  lemma KeptTrans(m0: seq<Cell>, m1: seq<Cell>, m2: seq<Cell>, s: set<nat>)
    requires Kept(m0, m1, s) && Kept(m1, m2, s)
    ensures Kept(m0, m2, s)
  {
  }

  /** The colour test at the insertion loop's head asks for the colour above the hole. */
  lemma ParentColor(m: seq<Cell>, root: nat, c: Ctx, t: Tree, m0: seq<Cell>, s: set<nat>)
    requires At(m, root, c, t, m0, s) && t.Node? && NIL < |m| == |m0| && m0[NIL].color == Black
    ensures t.e.id < |m| && m[t.e.id].parent == Above(c) < |m| && m[Above(c)].color == CtxColor(c)
  {
    AtNil(m, root, c, t, m0, s);
  }

  /** With a red parent the grandparent is a node; its links name the parent and the uncle. */
  lemma GrandparentExists(m: seq<Cell>, root: nat, c: Ctx, t: Tree, m0: seq<Cell>, s: set<nat>)
    requires At(m, root, c, t, m0, s) && NIL < |m| == |m0| && m0[NIL].color == Black
    requires InsertReady(c, t) && CtxColor(c) == Red
    ensures RedParent(c) && t.e.id < |m| && m[t.e.id].parent == c.e.id
    ensures var g, u := c.up.e.id, Sibling(c.up);
            && c.e.id < |m| && m[c.e.id].parent == g && g < |m|
            && (m[g].left == c.e.id <==> c.up.InLeft?)
            && (if c.up.InLeft? then m[g].right else m[g].left) == Ptr(u) < |m|
            && m[Ptr(u)].color == ColorOf(u)
  {
    AtNil(m, root, c, t, m0, s);
    assert RepCtx(m, c.up, c.e.id) && DistinctCtx(c.up);
    assert Rep(m, Sibling(c.up), c.up.e.id);
  }

  /** The colour read through a child link is the colour of that subtree, nil counting as black. */
  lemma ChildColors(m: seq<Cell>, root: nat, c: Ctx, t: Tree, m0: seq<Cell>, s: set<nat>)
    requires At(m, root, c, t, m0, s) && t.Node? && NIL < |m| == |m0| && m0[NIL].color == Black
    ensures t.e.id < |m| && m[t.e.id].left < |m| && m[t.e.id].right < |m|
    ensures m[m[t.e.id].left].color == ColorOf(t.left) && m[m[t.e.id].right].color == ColorOf(t.right)
  {
    AtNil(m, root, c, t, m0, s);
    assert Rep(m, t.left, t.e.id) && Rep(m, t.right, t.e.id);
  }

  /** From a node below the root, its parent's links name it and its sibling. */
  lemma SiblingCells(m: seq<Cell>, root: nat, c: Ctx, t: Tree, m0: seq<Cell>, s: set<nat>)
    requires At(m, root, c, t, m0, s) && c != Top && Sibling(c).Node?
    ensures c.e.id < |m| && (m[c.e.id].left == Ptr(t) <==> c.InLeft?)
    ensures (if c.InLeft? then m[c.e.id].right else m[c.e.id].left) == Sibling(c).e.id < |m|
    ensures m[Sibling(c).e.id].color == Sibling(c).color
  {
    assert Rep(m, Sibling(c), c.e.id);
  }

  /** The cell the walk stands at: its parent link and colour, and whether it is the root. */
  predicate AtCell(m: seq<Cell>, root: nat, c: Ctx, t: Tree) {
    && Ptr(t) < |m| && m[Ptr(t)].parent == Above(c) && m[Ptr(t)].color == ColorOf(t)
    && (Ptr(t) == root <==> c.Top?)
  }

  lemma WalkCell(m: seq<Cell>, root: nat, c: Ctx, t: Tree, m0: seq<Cell>, s: set<nat>)
    requires At(m, root, c, t, m0, s) && NIL < |m| == |m0| && m0[NIL].color == Black
    requires t.Leaf? ==> m0[NIL].parent == Above(c)
    ensures AtCell(m, root, c, t)
  {
    AtNil(m, root, c, t, m0, s);
    if c != Top {
      RootInCtx(c, Ptr(t));
      CtxIdsInArena(m, c, Ptr(t));
    }
  }

  lemma BlackenCell(m: seq<Cell>, m': seq<Cell>, root: nat, c: Ctx, t: Tree, m0: seq<Cell>, s: set<nat>)
    requires At(m, root, c, t, m0, s) && AtCell(m, root, c, t)
    requires m' == m[Ptr(t) := m[Ptr(t)].(color := Black)]
    ensures At(m', root, c, Blacken(t), m0, s)
  {
    if t.Node? {
      Recolor(m, m', root, c, t, Black, m0, s);
    } else {
      assert m' == m;
    }
  }

  // ---------------------------------------------------------------- unlinking a node

  /** One subtree put in the place of another: one link down, one link up. */
  predicate Moved(m: seq<Cell>, m': seq<Cell>, c: Ctx, new_: nat) {
    && |m'| == |m| && new_ < |m| && (c != Top ==> c.e.id < |m|)
    && m'[new_] == m[new_].(parent := Above(c)) && Relinked(m, m', c, new_)
    && forall i :: 0 <= i < |m| && i != new_ && (c.Top? || i != c.e.id) ==> m'[i] == m[i]
  }

  lemma MovedCtx(m: seq<Cell>, m': seq<Cell>, c: Ctx, hole: nat, new_: nat)
    requires RepCtx(m, c, hole) && DistinctCtx(c) && new_ !in CtxIds(c) && Moved(m, m', c, new_)
    ensures RepCtx(m', c, new_)
  {
    CtxRehole(m, m', c, hole, new_);
  }

  /** A node with at most one child is replaced by that child (or by nil). */
  lemma SpliceFocus(m: seq<Cell>, m': seq<Cell>, root: nat, root': nat, c: Ctx, t: Tree, sub: Tree)
    requires Focus(m, root, c, t) && t.Node? && (sub == t.left || sub == t.right)
    requires Moved(m, m', c, Ptr(sub)) && root' == if c.Top? then Ptr(sub) else root
    ensures Focus(m', root', c, sub)
  {
    IdsInArena(m, t, Above(c));
    CtxIdsInArena(m, c, t.e.id);
    MovedCtx(m, m', c, t.e.id, Ptr(sub));
    RepReparent(m, m', sub, t.e.id, Above(c));
  }

  /** Standing at the smallest node of `t`, or at the hole it leaves. */
  lemma SpineFocus(m: seq<Cell>, root: nat, base: Ctx, t: Tree)
    requires t.Node?
    ensures Focus(m, root, base, t) <==> Focus(m, root, SpineCtx(base, t), MinNode(t))
    ensures Focus(m, root, base, RemoveMin(t)) <==> Focus(m, root, SpineCtx(base, t), MinNode(t).right)
  {
    var c := SpineCtx(base, t);
    SpinePlug(base, t);
    FocusTop(m, root, base, t);
    FocusTop(m, root, base, RemoveMin(t));
    FocusTop(m, root, c, MinNode(t));
    FocusTop(m, root, c, MinNode(t).right);
  }

  /** Another node takes the place, the colour and the two subtrees of the node `z`. */
  lemma ReplaceFocus(m: seq<Cell>, m': seq<Cell>, root: nat, root': nat, c: Ctx, z: nat, t: Tree, pl: nat, pr: nat)
    requires t.Node? && Separate(c, t) && |m'| == |m|
    requires RepCtx(m, c, z) && Rep(m, t.left, pl) && Rep(m, t.right, pr)
    requires root == RootPtr(c, z) && root' == if c.Top? then t.e.id else root
    requires Holds(m', t.e, t.color, Ptr(t.left), Ptr(t.right), Above(c)) && Relinked(m, m', c, t.e.id)
    requires t.left.Node? ==> m'[t.left.e.id] == m[t.left.e.id].(parent := t.e.id)
    requires t.right.Node? ==> m'[t.right.e.id] == m[t.right.e.id].(parent := t.e.id)
    requires forall i :: 0 <= i < |m| && i !in {t.e.id, Ptr(t.left), Ptr(t.right), Above(c)} - {NIL} ==> m'[i] == m[i]
    ensures Focus(m', root', c, t)
  {
    RepReparent(m, m', t.left, pl, t.e.id);
    RepReparent(m, m', t.right, pr, t.e.id);
    CtxRehole(m, m', c, z, t.e.id);
  }

  /** What the tree must look like just before `y` takes the place of the node `z`. */
  predicate Vacating(m: seq<Cell>, root: nat, c: Ctx, z: nat, t: Tree) {
    && t.Node? && t.left.Node? && Separate(c, t) && z !in Ids(t) && z !in CtxIds(c)
    && FIRST <= t.e.id < |m| && FIRST <= z < |m| && root == RootPtr(c, z)
    && RepCtx(m, c, z) && Rep(m, t.left, z) && Rep(m, t.right, t.e.id)
    && m[z].left == t.left.e.id && m[z].color == t.color && m[z].parent == Above(c)
    && m[t.e.id].right == Ptr(t.right) && m[t.e.id].value.key == t.e.key
  }

  lemma VacatingCells(m: seq<Cell>, root: nat, c: Ctx, z: nat, t: Tree)
    requires Vacating(m, root, c, z, t)
    ensures FIRST <= t.left.e.id < |m| && t.left.e.id != t.e.id
    ensures (t.right.Node? ==> t.right.e.id !in {t.e.id, t.left.e.id} && FIRST <= t.right.e.id < |m|)
    ensures c != Top ==> FIRST <= c.e.id < |m| && c.e.id !in {t.e.id, t.left.e.id, z, Ptr(t.right)}
    ensures c != Top ==> (m[c.e.id].left == z <==> c.InLeft?)
  {
    assert Rep(m, t.left, z) && Rep(m, t.right, t.e.id);
    if t.right.Node? { assert t.right.e.id in Ids(t.right); }
    assert t.left.e.id in Ids(t.left);
  }

  /** The four cells rewritten when `y` takes the place of `z`, and the tree they leave. */
  lemma VacatedFocus(m: seq<Cell>, m': seq<Cell>, root: nat, root': nat, c: Ctx, z: nat, t: Tree)
    requires Vacating(m, root, c, z, t) && |m'| == |m| && (c != Top ==> c.e.id < |m|) && t.left.e.id < |m|
    requires m'[t.e.id] == m[t.e.id].(parent := Above(c), left := t.left.e.id, color := t.color)
    requires m'[t.left.e.id] == m[t.left.e.id].(parent := t.e.id)
    requires Relinked(m, m', c, t.e.id) && root' == if c.Top? then t.e.id else root
    requires forall i :: 0 <= i < |m| && i != t.e.id && i != t.left.e.id && (c.Top? || i != c.e.id) ==> m'[i] == m[i]
    ensures Focus(m', root', c, t) && Kept(m, m', CtxIds(c) + Ids(t))
  {
    VacatingCells(m, root, c, z, t);
    assert t.left.e.id in Ids(t.left);
    assert Rep(m, t.right, t.e.id);
    ReplaceFocus(m, m', root, root', c, z, t, z, t.e.id);
  }

  lemma {:induction false} RemoveMinDistinct(t: Tree)
    requires t.Node? && Distinct(t)
    ensures Distinct(RemoveMin(t)) && MinNode(t).e.id in Ids(t)
    ensures Ids(RemoveMin(t)) == Ids(t) - {MinNode(t).e.id}
    ensures Ptr(MinNode(t).right) in Ids(t) + {NIL}
  {
    if t.left.Node? { RemoveMinDistinct(t.left); }
  }

  lemma UnlinkedSeparate(c: Ctx, t: Tree)
    requires t.Node? && t.left.Node? && t.right.Node? && Separate(c, t)
    ensures Separate(c, Unlinked(t)) && Ids(Unlinked(t)) == Ids(t) - {t.e.id}
  {
    RemoveMinDistinct(t.right);
  }

  /** Where a non-empty spine ends does not depend on what it hangs from. */
  lemma {:induction false} SpineEnd(base: Ctx, base': Ctx, t: Tree)
    requires t.Node? && t.left.Node?
    ensures SpineCtx(base, t).InLeft? && SpineCtx(base, t).e.id in Ids(t)
    ensures Above(SpineCtx(base, t)) == Above(SpineCtx(base', t))
    decreases t
  {
    if t.left.left.Node? {
      SpineEnd(InLeft(base, t.e, t.color, t.right), InLeft(base', t.e, t.color, t.right), t.left);
    } else {
      assert SpineCtx(base, t) == SpineCtx(InLeft(base, t.e, t.color, t.right), t.left) == InLeft(base, t.e, t.color, t.right);
      assert SpineCtx(base', t) == SpineCtx(InLeft(base', t.e, t.color, t.right), t.left) == InLeft(base', t.e, t.color, t.right);
    }
  }

  /** The successor sits next to the deleted node: only its right child's parent link is set anew. */
  lemma NearVacating(m: seq<Cell>, m': seq<Cell>, root: nat, c: Ctx, t: Tree)
    requires Focus(m, root, c, t) && t.Node? && t.left.Node? && t.right.Node? && t.right.left.Leaf? && NIL < |m|
    requires Ptr(t.right.right) < |m| && m' == m[Ptr(t.right.right) := m[Ptr(t.right.right)].(parent := t.right.e.id)]
    ensures Vacating(m', root, c, t.e.id, Unlinked(t))
  {
    var r := t.right;
    UnlinkedSeparate(c, t);
    assert Rep(m, r, t.e.id) && Distinct(r) && Rep(m, r.right, r.e.id);
    IdsInArena(m, t, Above(c));
    CtxIdsInArena(m, c, t.e.id);
    if r.right.Node? { assert m' == m; }
    RepFrame(m, m', t.left, t.e.id);
    RepFrame(m, m', r.right, r.e.id);
    CtxFrame(m, m', c, t.e.id);
  }

  /** The successor sits deeper: once unlinked there, it is given the deleted node's right subtree. */
  lemma DeepVacating(m: seq<Cell>, m': seq<Cell>, root: nat, c: Ctx, t: Tree)
    requires t.Node? && t.left.Node? && t.right.Node? && t.right.left.Node?
    requires Separate(c, t) && Focus(m, root, c, t.(right := RemoveMin(t.right)))
    requires var y := MinNode(t.right).e;
             FIRST <= y.id < |m| && m[y.id].value.key == y.key && t.right.e.id < |m|
    requires var y := MinNode(t.right).e.id;
             m' == m[y := m[y].(right := t.right.e.id)][t.right.e.id := m[t.right.e.id].(parent := y)]
    ensures Vacating(m', root, c, t.e.id, Unlinked(t))
  {
    UnlinkedSeparate(c, t);
    DeepReps(m, m', root, c, t);
    assert RemoveMin(t.right).e.id in Ids(RemoveMin(t.right));
  }

  lemma DeepReps(m: seq<Cell>, m': seq<Cell>, root: nat, c: Ctx, t: Tree)
    requires t.Node? && t.left.Node? && t.right.Node? && t.right.left.Node?
    requires Separate(c, t) && Focus(m, root, c, t.(right := RemoveMin(t.right)))
    requires var y := MinNode(t.right).e.id;
             && FIRST <= y < |m| && t.right.e.id < |m|
             && m' == m[y := m[y].(right := t.right.e.id)][t.right.e.id := m[t.right.e.id].(parent := y)]
    ensures var y, r := MinNode(t.right).e.id, RemoveMin(t.right);
            && y !in Ids(r) && y != t.e.id && t.e.id != t.right.e.id && y != t.right.e.id
            && RepCtx(m', c, t.e.id) && Rep(m', t.left, t.e.id) && Rep(m', r, y)
  {
    var y := MinNode(t.right).e.id;
    var r := RemoveMin(t.right);
    UnlinkedSeparate(c, t);
    assert y !in Ids(t.left) && y !in Ids(r) && y !in CtxIds(c) && y != t.e.id;
    assert r.e.id in Ids(r);
    assert Rep(m, t.left, t.e.id) && Rep(m, r, t.e.id);
    RepFrame(m, m', t.left, t.e.id);
    RepReparent(m, m', r, t.e.id, y);
    CtxFrame(m, m', c, t.e.id);
  }

  /** The smallest node is the root exactly when the root has no left child. */
  lemma MinAtRoot(t: Tree)
    requires t.Node? && Distinct(t)
    ensures MinNode(t).e.id == t.e.id <==> t.left.Leaf?
  {
    if t.left.Node? { RemoveMinDistinct(t.left); }
  }

  /** The links around a successor that is not the deleted node's own child. */
  lemma SuccessorCells(m: seq<Cell>, root: nat, c: Ctx, t: Tree)
    requires Focus(m, root, c, t) && t.Node? && t.right.Node? && t.right.left.Node? && NIL < |m|
    ensures var my, cy := MinNode(t.right), SpineCtx(InRight(t.left, t.e, t.color, c), t.right);
            && Focus(m, root, cy, my) && cy.InLeft?
            && {my.e.id, cy.e.id} <= Ids(t.right) && Ptr(my.right) in Ids(t.right) + {NIL}
            && FIRST <= my.e.id < |m| && FIRST <= cy.e.id < |m| && Ptr(my.right) < |m|
            && my.e.id !in {cy.e.id, Ptr(my.right)} && cy.e.id != Ptr(my.right)
            && m[cy.e.id].left == my.e.id
            && Holds(m, my.e, my.color, NIL, Ptr(my.right), cy.e.id)
  {
    var base, my := InRight(t.left, t.e, t.color, c), MinNode(t.right);
    FocusDown(m, root, c, t);
    SpineFocus(m, root, base, t.right);
    SpineEnd(base, base, t.right);
    RemoveMinDistinct(t.right);
    assert Rep(m, my.right, my.e.id);
  }

  /** With the successor unlinked, the arena holds the tree without it. */
  lemma ExtractedFocus(m: seq<Cell>, m': seq<Cell>, root: nat, c: Ctx, t: Tree)
    requires Focus(m, root, c, t) && t.Node? && t.right.Node? && t.right.left.Node? && NIL < |m|
    requires var my, cy := MinNode(t.right), SpineCtx(InRight(t.left, t.e, t.color, c), t.right);
             Moved(m, m', cy, Ptr(my.right))
    ensures Focus(m', root, c, t.(right := RemoveMin(t.right)))
    ensures var y := MinNode(t.right).e; FIRST <= y.id < |m'| && m'[y.id] == m[y.id]
    ensures Kept(m, m', Ids(t.right) + {NIL}) && m'[NIL] == m[NIL].(parent := m'[NIL].parent)
  {
    var base, my := InRight(t.left, t.e, t.color, c), MinNode(t.right);
    var cy := SpineCtx(base, t.right);
    SuccessorCells(m, root, c, t);
    SpliceFocus(m, m', root, root, cy, my, my.right);
    SpineFocus(m', root, base, t.right);
    FocusUp(m', root, base, RemoveMin(t.right));
  }

  lemma KeptWiden(m: seq<Cell>, m': seq<Cell>, s: set<nat>, s': set<nat>)
    requires Kept(m, m', s) && s <= s'
    ensures Kept(m, m', s')
  {
  }

  lemma RightChildCell(m: seq<Cell>, root: nat, c: Ctx, t: Tree)
    requires Focus(m, root, c, t) && t.Node? && t.right.Node?
    ensures t.e.id < |m| && m[t.e.id].right == t.right.e.id && FIRST <= t.right.e.id < |m|
    ensures t.e.id != t.right.e.id
  {
    assert Rep(m, t.right, t.e.id) && t.right.e.id in Ids(t.right);
  }

  lemma ExtractedKept(m: seq<Cell>, m1: seq<Cell>, m': seq<Cell>, c: Ctx, t: Tree, s: set<nat>)
    requires t.Node? && t.right.Node? && Distinct(t) && s == CtxIds(c) + Ids(t) && t.e.id !in CtxIds(c)
    requires Kept(m, m1, Ids(t.right) + {NIL})
    requires var y, r := MinNode(t.right).e.id, t.right.e.id;
             y < |m1| && r < |m1| && m' == m1[y := m1[y].(right := r)][r := m1[r].(parent := y)]
    ensures Kept(m, m', s - {t.e.id} + {NIL})
  {
    RemoveMinDistinct(t.right);
    assert t.right.e.id in Ids(t.right);
    assert Ids(t.right) <= s - {t.e.id};
    KeptWiden(m, m1, Ids(t.right) + {NIL}, s - {t.e.id} + {NIL});
    assert Kept(m1, m', s - {t.e.id} + {NIL});
    KeptTrans(m, m1, m', s - {t.e.id} + {NIL});
  }

  lemma NearCells(m: seq<Cell>, root: nat, c: Ctx, t: Tree)
    requires Focus(m, root, c, t) && t.Node? && t.right.Node? && NIL < |m|
    ensures var y, b := t.right.e.id, Ptr(t.right.right);
            y < |m| && m[y].right == b < |m| && b in Ids(t) - {t.e.id} + {NIL}
  {
    var r := t.right;
    assert Rep(m, r, t.e.id) && Rep(m, r.right, r.e.id) && Distinct(r);
    if r.right.Node? { assert r.right.e.id in Ids(r.right) && Ids(r.right) <= Ids(r) && Ids(r) <= Ids(t); }
  }

  lemma {:induction false} MinCell(m: seq<Cell>, t: Tree, parent: nat)
    requires Rep(m, t, parent) && t.Node?
    ensures var y := MinNode(t);
            y.e.id < |m| && m[y.e.id].color == y.color && m[y.e.id].right == Ptr(y.right)
    decreases t
  {
    if t.left.Node? { MinCell(m, t.left, t.e.id); }
  }

  /** The hole's parent is in the arena, and its left link names the hole exactly for a left hole. */
  lemma CtxCells(m: seq<Cell>, root: nat, c: Ctx, t: Tree)
    requires Focus(m, root, c, t) && NIL < |m|
    ensures c != Top ==> FIRST <= c.e.id < |m| && c.e.id in CtxIds(c) && c.e.id !in Ids(t)
    ensures t.Node? && c != Top ==> (m[c.e.id].left == t.e.id <==> c.InLeft?)
  {
    if c != Top { assert Rep(m, Sibling(c), c.e.id); }
  }

  lemma ChildCells(m: seq<Cell>, root: nat, c: Ctx, t: Tree)
    requires Focus(m, root, c, t) && t.Node?
    ensures t.e.id < |m|
    ensures m[t.e.id].left == NIL <==> t.left.Leaf?
    ensures m[t.e.id].right == NIL <==> t.right.Leaf?
  {
    assert Rep(m, t.left, t.e.id) && Rep(m, t.right, t.e.id);
  }

  lemma OuterCells(m: seq<Cell>, root: nat, c: Ctx, t: Tree, sub: Tree)
    requires Focus(m, root, c, t) && t.Node? && (sub == t.left || sub == t.right) && NIL < |m|
    ensures FIRST <= t.e.id < |m| && m[t.e.id].parent == Above(c)
    ensures m[t.e.id].left == NIL <==> t.left.Leaf?
    ensures m[t.e.id].right == NIL <==> t.right.Leaf?
    ensures Ptr(sub) < |m| && Ptr(sub) in Ids(t) - {t.e.id} + {NIL}
    ensures c != Top ==> FIRST <= c.e.id < |m| && c.e.id in CtxIds(c) && c.e.id !in {t.e.id, Ptr(sub)}
    ensures c != Top ==> (m[c.e.id].left == t.e.id <==> c.InLeft?)
  {
    CtxCells(m, root, c, t);
    ChildCells(m, root, c, t);
    assert Rep(m, sub, t.e.id);
    if sub.Node? { assert sub.e.id in Ids(sub) && Ids(sub) <= Ids(t); }
  }

  /** After unlinking, the walk can stand where the repair starts. */
  lemma DeleteRefocus(m: seq<Cell>, root: nat, c: Ctx, t: Tree, s: set<nat>)
    requires t.Node? && Separate(c, t) && s == CtxIds(c) + Ids(t) && Focus(m, root, c, Unlinked(t))
    ensures var (c', t', k) := DeleteFocus(c, t);
            Focus(m, root, c', t') && s - {t.e.id} == CtxIds(c') + Ids(t')
  {
    var (c', t', k) := DeleteFocus(c, t);
    DeleteFocusPlug(c, t);
    FocusTop(m, root, c, Unlinked(t));
    FocusTop(m, root, c', t');
    if t.left.Node? && t.right.Node? { UnlinkedSeparate(c, t); }
    assert Ids(Unlinked(t)) == Ids(t) - {t.e.id};
  }

  /** The cells written to link a fresh red node into the hole. */
  lemma LinkFocus(m: seq<Cell>, m': seq<Cell>, root: nat, root': nat, c: Ctx, e: Elem)
    requires Focus(m, root, c, Leaf) && |m'| == |m| && FIRST <= e.id < |m| && e.id !in CtxIds(c)
    requires Holds(m', e, Red, NIL, NIL, Above(c)) && Relinked(m, m', c, e.id)
    requires m'[e.id].list == m[e.id].list && m'[e.id].value == m[e.id].value
    requires forall i :: 0 <= i < |m| && i != e.id && (c.Top? || i != c.e.id) ==> m'[i] == m[i]
    requires root' == if c.Top? then e.id else root
    ensures At(m', root', c, Node(Leaf, e, Red, Leaf), m, CtxIds(c) + {e.id})
  {
    CtxRehole(m, m', c, NIL, e.id);
  }
}
