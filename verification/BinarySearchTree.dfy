/**
 * The intrusive red-black tree: pointers in an arena, updated in place.
 */
module BinarySearchTree {
  import opened Words
  import opened RedBlack
  import opened Search
  import opened Arena
  import opened Cache
  import opened Slots
  import opened Store
  import opened Remembered
  import MM = Multimap

  class Bst {
    const mem: array<Cell>
    const cmp: Comparator
    var root: nat
    var smallest: nat
    var largest: nat
    var previous: nat
    var freeList: nat
    var freeCount: nat

    ghost var tree: Tree
    ghost var free: seq<nat>
    ghost var chains: Chains
    ghost var owner: seq<Owner>

    ghost predicate Valid()
      reads mem, this`root, this`smallest, this`largest, this`freeList, this`freeCount, this`tree, this`free, this`chains, this`owner
    {
      StoreOk(mem[..], root, smallest, largest, freeList, tree, free, chains, owner) && freeCount == |free|
    }

    /** The multimap the tree stands for. */
    ghost function Model(): (s: MM.State)
      requires Valid()
      reads mem, this`root, this`smallest, this`largest, this`freeList, this`freeCount, this`tree, this`free, this`chains, this`owner
      ensures MM.Wf(s)
    {
      View(mem[..], free, chains)
    }

    /** An empty tree over the given arena, all its node slots on the free list. */
    constructor (m: array<Cell>, comparator: Comparator)
      requires FIRST <= m.Length
      modifies m
      ensures mem == m && cmp == comparator && previous == NIL && Valid() && Model() == MM.State(map[], m.Length - FIRST)
    {
      mem, cmp := m, comparator;
      root, smallest, largest, previous := NIL, NIL, NIL, NIL;
      freeList, freeCount := NULL, m.Length - FIRST;
      new;
      Init(m.Length - FIRST, Leaf, map[]);
    }

    method Init(n: nat, ghost none: Tree, ghost empty: Chains)
      requires mem.Length == n + FIRST && root == smallest == largest == NIL && freeCount == n
      requires none == Leaf && empty == map[]
      modifies mem, this`freeList, this`tree, this`free, this`chains, this`owner
      ensures Valid() && Model() == MM.State(map[], n)
    {
      LinkMemory(n);
      mem[NIL] := mem[NIL].(left := NIL, right := NIL, parent := NIL, color := Black);
      ghost var free' := SlotRange(n);
      ghost var owner' := EmptyStore(mem[..], freeList, n, none, empty, free');
      Commit(none, free', empty, owner');
    }

    /** Threads the free list through the slots, from the first to the last. */
    method LinkMemory(n: nat)
      requires mem.Length == n + FIRST
      modifies mem, this`freeList
      ensures FreeChain(mem[..], freeList, SlotRange(n))
    {
      var list: nat := NULL;
      for i := 0 to n
        invariant FreeChain(mem[..], list, SlotRange(i))
      {
        ghost var m := mem[..];
        mem[FIRST + i] := mem[FIRST + i].(parent := list, color := Red);
        FreePush(m, mem[..], list, SlotRange(i), FIRST + i);
        list := FIRST + i;
        assert SlotRange(i) + [FIRST + i] == SlotRange(i + 1);
      }
      freeList := list;
    }

    // -------------------------------------------------------------- single writes

    method SetParent(p: nat, parent: nat)
      requires p < mem.Length
      modifies mem
      ensures mem[..] == old(mem[..])[p := old(mem[p]).(parent := parent)]
    {
      mem[p] := mem[p].(parent := parent);
    }

    method SetColor(p: nat, k: Color)
      requires p < mem.Length
      modifies mem
      ensures mem[..] == old(mem[..])[p := old(mem[p]).(color := k)]
    {
      mem[p] := mem[p].(color := k);
    }

    /** Colouring the node under the walk. */
    method Paint(p: nat, k: Color, ghost c: Ctx, ghost t: Tree, ghost m0: seq<Cell>, ghost s: set<nat>)
      requires At(mem[..], root, c, t, m0, s) && t.Node? && p == t.e.id
      modifies mem
      ensures At(mem[..], root, c, t.(color := k), m0, s)
    {
      SetColor(p, k);
      Recolor(old(mem[..]), mem[..], root, c, t, k, m0, s);
    }

    // -------------------------------------------------------------- rotations

    method RotateLeft(x: nat, ghost c: Ctx, ghost t: Tree, ghost m0: seq<Cell>, ghost s: set<nat>)
      requires At(mem[..], root, c, t, m0, s) && t.Node? && t.right.Node? && x == t.e.id
      modifies mem, this`root
      ensures At(mem[..], root, c, RotatedLeft(t), m0, s)
    {
      RotateLeftCells(mem[..], root, c, t);
      var y := mem[x].right;
      var xParent := mem[x].parent;

      mem[x] := mem[x].(right := mem[y].left);
      if mem[y].left != NIL {
        mem[mem[y].left] := mem[mem[y].left].(parent := x);
      }

      mem[y] := mem[y].(parent := xParent);
      if xParent == NIL {
        root := y;
      } else if x == mem[xParent].left {
        mem[xParent] := mem[xParent].(left := y);
      } else {
        mem[xParent] := mem[xParent].(right := y);
      }

      mem[y] := mem[y].(left := x);
      mem[x] := mem[x].(parent := y);

      RotateLeftDone(old(mem[..]), mem[..], old(root), root, c, t, m0, s);
    }

    method RotateRight(x: nat, ghost c: Ctx, ghost t: Tree, ghost m0: seq<Cell>, ghost s: set<nat>)
      requires At(mem[..], root, c, t, m0, s) && t.Node? && t.left.Node? && x == t.e.id
      modifies mem, this`root
      ensures At(mem[..], root, c, RotatedRight(t), m0, s)
    {
      RotateRightCells(mem[..], root, c, t);
      var y := mem[x].left;
      var xParent := mem[x].parent;

      mem[x] := mem[x].(left := mem[y].right);
      if mem[y].right != NIL {
        mem[mem[y].right] := mem[mem[y].right].(parent := x);
      }

      mem[y] := mem[y].(parent := xParent);
      if xParent == NIL {
        root := y;
      } else if x == mem[xParent].left {
        mem[xParent] := mem[xParent].(left := y);
      } else {
        mem[xParent] := mem[xParent].(right := y);
      }

      mem[y] := mem[y].(right := x);
      mem[x] := mem[x].(parent := y);

      RotateRightDone(old(mem[..]), mem[..], old(root), root, c, t, m0, s);
    }

    // -------------------------------------------------------------- insertion repair

    /** Red uncle: three recolourings, after which the grandparent is the node to look at. */
    method RecolorUncle(parent: nat, uncle: nat, grandparent: nat, ghost c: Ctx, ghost t: Tree, ghost m0: seq<Cell>, ghost s: set<nat>)
      requires At(mem[..], root, c, t, m0, s)
      requires RedParent(c) && ColorOf(Sibling(c.up)) == Red
      requires parent == c.e.id && uncle == Ptr(Sibling(c.up)) && grandparent == c.up.e.id
      modifies mem
      ensures At(mem[..], root, c.up.up, PushUp(c, t), m0, s)
    {
      AtUp(mem[..], root, c, t, m0, s);
      ghost var p := Join(c, t);
      Paint(parent, Black, c.up, p, m0, s);
      p := Blacken(p);

      // stand at the uncle
      ghost var g := Join(c.up, p);
      AtUp(mem[..], root, c.up, p, m0, s);
      ghost var u := Sibling(c.up);
      ghost var cu := if c.up.InLeft? then InRight(p, g.e, g.color, c.up.up) else InLeft(c.up.up, g.e, g.color, p);
      AtUp(mem[..], root, cu, u, m0, s);
      Paint(uncle, Black, cu, u, m0, s);
      u := Blacken(u);

      g := Join(cu, u);
      AtUp(mem[..], root, cu, u, m0, s);
      Paint(grandparent, Red, c.up.up, g, m0, s);
    }

    /** Black uncle, parent a left child: straighten an inner node, then rotate the grandparent down. */
    method StraightenLeft(start: nat, grandparent: nat, ghost c: Ctx, ghost t: Tree, ghost m0: seq<Cell>, ghost s: set<nat>)
      requires At(mem[..], root, c, t, m0, s) && t.Node? && start == t.e.id
      requires RedParent(c) && c.up.InLeft? && grandparent == c.up.e.id
      modifies mem, this`root
      ensures At(mem[..], root, c.up.up, RotateUp(c, t), m0, s)
    {
      var node := start;
      var parent := mem[node].parent;
      AtUp(mem[..], root, c, t, m0, s);
      ghost var p := Join(c, t);
      if node == mem[parent].right {
        node := parent;
        RotateLeft(parent, c.up, p, m0, s);
        p := RotatedLeft(p);
        assert Rep(mem[..], p.left, p.e.id);
        parent := mem[node].parent;
      }

      Paint(parent, Black, c.up, p, m0, s);
      p := Blacken(p);
      AtUp(mem[..], root, c.up, p, m0, s);
      ghost var g := Join(c.up, p);
      Paint(grandparent, Red, c.up.up, g, m0, s);
      g := Redden(g);
      RotateRight(grandparent, c.up.up, g, m0, s);
    }

    /** Black uncle, parent a right child: straighten an inner node, then rotate the grandparent down. */
    method StraightenRight(start: nat, grandparent: nat, ghost c: Ctx, ghost t: Tree, ghost m0: seq<Cell>, ghost s: set<nat>)
      requires At(mem[..], root, c, t, m0, s) && t.Node? && start == t.e.id
      requires RedParent(c) && c.up.InRight? && grandparent == c.up.e.id
      modifies mem, this`root
      ensures At(mem[..], root, c.up.up, RotateUp(c, t), m0, s)
    {
      var node := start;
      var parent := mem[node].parent;
      AtUp(mem[..], root, c, t, m0, s);
      ghost var p := Join(c, t);
      if node == mem[parent].left {
        node := parent;
        RotateRight(parent, c.up, p, m0, s);
        p := RotatedRight(p);
        assert Rep(mem[..], p.right, p.e.id);
        parent := mem[node].parent;
      }

      Paint(parent, Black, c.up, p, m0, s);
      p := Blacken(p);
      AtUp(mem[..], root, c.up, p, m0, s);
      ghost var g := Join(c.up, p);
      Paint(grandparent, Red, c.up.up, g, m0, s);
      g := Redden(g);
      RotateLeft(grandparent, c.up.up, g, m0, s);
    }

    /** One round of the insertion repair; `fixed` says that it ended in rotations. */
    method InsertRepairRound(node: nat, ghost c: Ctx, ghost t: Tree, ghost m0: seq<Cell>, ghost s: set<nat>)
      returns (next: nat, fixed: bool)
      requires FIRST <= mem.Length == |m0| && m0[NIL].color == Black
      requires At(mem[..], root, c, t, m0, s) && InsertReady(c, t) && CtxColor(c) == Red && node == t.e.id
      modifies mem, this`root
      ensures RedParent(c) && At(mem[..], root, c.up.up, InsertRound(c, t), m0, s)
      ensures fixed == (ColorOf(Sibling(c.up)) == Black) && next == c.up.e.id
    {
      GrandparentExists(mem[..], root, c, t, m0, s);
      var parent := mem[node].parent;
      var grandparent := mem[parent].parent;
      if parent == mem[grandparent].left {
        var uncle := mem[grandparent].right;
        fixed := mem[uncle].color == Black;
        if !fixed {
          RecolorUncle(parent, uncle, grandparent, c, t, m0, s);
        } else {
          StraightenLeft(node, grandparent, c, t, m0, s);
        }
      } else {
        var uncle := mem[grandparent].left;
        fixed := mem[uncle].color == Black;
        if !fixed {
          RecolorUncle(parent, uncle, grandparent, c, t, m0, s);
        } else {
          StraightenRight(node, grandparent, c, t, m0, s);
        }
      }
      next := grandparent;
    }

    /** The insertion loop: at its head nothing is wrong but a red node below a red parent, or a red root. */
    method InsertLoop(start: nat, ghost c0: Ctx, ghost t0: Tree, ghost m0: seq<Cell>, ghost s: set<nat>)
      requires FIRST <= mem.Length == |m0| && m0[NIL].color == Black
      requires At(mem[..], root, c0, t0, m0, s) && InsertReady(c0, t0) && start == t0.e.id
      modifies mem, this`root
      ensures At(mem[..], root, Top, InsertFix(c0, t0), m0, s)
    {
      var node := start;
      ghost var c, t := c0, t0;
      ParentColor(mem[..], root, c, t, m0, s);
      while mem[mem[node].parent].color == Red
        invariant At(mem[..], root, c, t, m0, s) && InsertReady(c, t) && node == t.e.id
        invariant mem[node].parent == Above(c) < mem.Length && mem[Above(c)].color == CtxColor(c)
        invariant InsertFix(c, t) == InsertFix(c0, t0)
        decreases Depth(c)
      {
        var fixed;
        InsertRoundStep(c, t);
        node, fixed := InsertRepairRound(node, c, t, m0, s);
        c, t := c.up.up, InsertRound(c, t);
        if fixed {
          AtTop(mem[..], root, c, t, m0, s);
          return;
        }
        ParentColor(mem[..], root, c, t, m0, s);
      }
      AtTop(mem[..], root, c, t, m0, s);
    }

    method FixupInsert(node: nat, ghost c: Ctx, ghost t: Tree, ghost m0: seq<Cell>, ghost s: set<nat>)
      requires FIRST <= mem.Length == |m0| && m0[NIL].color == Black
      requires At(mem[..], root, c, t, m0, s) && InsertReady(c, t) && node == t.e.id
      modifies mem, this`root
      ensures At(mem[..], root, Top, Blacken(InsertFix(c, t)), m0, s)
    {
      InsertLoop(node, c, t, m0, s);
      Paint(root, Black, Top, InsertFix(c, t), m0, s);
    }

    // -------------------------------------------------------------- deletion repair

    /** Red sibling on the right: it is rotated above the parent, and a black one takes its place. */
    method LiftRightSibling(parent: nat, sibling0: nat, ghost c: Ctx, ghost t: Tree, ghost m0: seq<Cell>, ghost s: set<nat>) returns (sibling: nat)
      requires At(mem[..], root, c, t, m0, s) && c.InLeft? && ColorOf(Sibling(c)) == Red
      requires parent == c.e.id && sibling0 == Ptr(Sibling(c))
      modifies mem, this`root
      ensures At(mem[..], root, LiftSibling(c), t, m0, s)
      ensures sibling == Ptr(Sibling(LiftSibling(c)))
    {
      ghost var b := Sibling(c);
      ghost var cs := InRight(t, c.e, c.color, c.up);
      AtUp(mem[..], root, c, t, m0, s);
      AtUp(mem[..], root, cs, b, m0, s);
      Paint(sibling0, Black, cs, b, m0, s);
      AtUp(mem[..], root, cs, Blacken(b), m0, s);
      ghost var p := Join(cs, Blacken(b));
      Paint(parent, Red, c.up, p, m0, s);
      p := Redden(p);
      RotateLeft(parent, c.up, p, m0, s);
      ghost var d := LiftSibling(c);
      AtUp(mem[..], root, d.up, Join(d, t), m0, s);
      AtUp(mem[..], root, d, t, m0, s);
      sibling := mem[parent].right;
    }

    /** Only the inner nephew is red: a rotation at the sibling brings a red node to the outside. */
    method TurnRightNephew(sibling: nat, ghost c: Ctx, ghost t: Tree, ghost m0: seq<Cell>, ghost s: set<nat>)
      requires At(mem[..], root, c, t, m0, s) && t.Node? && sibling == t.e.id
      requires t.left.Node?
      modifies mem, this`root
      ensures At(mem[..], root, c, RotatedRight(t.(left := Blacken(t.left), color := Red)), m0, s)
    {
      ghost var w := t.left;
      ghost var cw := InLeft(c, t.e, t.color, t.right);
      AtUp(mem[..], root, cw, w, m0, s);
      Paint(mem[sibling].left, Black, cw, w, m0, s);
      AtUp(mem[..], root, cw, Blacken(w), m0, s);
      Paint(sibling, Red, c, Join(cw, Blacken(w)), m0, s);
      RotateRight(sibling, c, t.(left := Blacken(w), color := Red), m0, s);
    }

    /** Outer nephew red: recolour and rotate the parent down towards the short side. */
    method LowerLeft(parent: nat, sibling: nat, ghost c: Ctx, ghost t: Tree, ghost m0: seq<Cell>, ghost s: set<nat>)
      requires At(mem[..], root, c, t, m0, s) && c.InLeft? && Sibling(c).Node? && Sibling(c).right.Node?
      requires parent == c.e.id && sibling == Sibling(c).e.id
      modifies mem, this`root
      ensures var b := Sibling(c);
              At(mem[..], root, c.up, Node(Node(t, c.e, Black, b.left), b.e, c.color, Blacken(b.right)), m0, s)
    {
      ghost var b := Sibling(c);
      ghost var cs := InRight(t, c.e, c.color, c.up);
      AtUp(mem[..], root, c, t, m0, s);
      AtUp(mem[..], root, cs, b, m0, s);
      Paint(sibling, mem[parent].color, cs, b, m0, s);
      b := b.(color := c.color);
      AtUp(mem[..], root, cs, b, m0, s);
      Paint(parent, Black, c.up, Join(cs, b), m0, s);
      cs := InRight(t, c.e, Black, c.up);
      AtUp(mem[..], root, cs, b, m0, s);

      // the outer nephew
      ghost var cn := InRight(b.left, b.e, b.color, cs);
      AtUp(mem[..], root, cn, b.right, m0, s);
      Paint(mem[sibling].right, Black, cn, b.right, m0, s);
      AtUp(mem[..], root, cn, Blacken(b.right), m0, s);
      b := b.(right := Blacken(b.right));
      AtUp(mem[..], root, cs, b, m0, s);
      RotateLeft(parent, c.up, Join(cs, b), m0, s);
    }

    /** Red sibling on the left: it is rotated above the parent, and a black one takes its place. */
    method LiftLeftSibling(parent: nat, sibling0: nat, ghost c: Ctx, ghost t: Tree, ghost m0: seq<Cell>, ghost s: set<nat>) returns (sibling: nat)
      requires At(mem[..], root, c, t, m0, s) && c.InRight? && ColorOf(Sibling(c)) == Red
      requires parent == c.e.id && sibling0 == Ptr(Sibling(c))
      modifies mem, this`root
      ensures At(mem[..], root, LiftSibling(c), t, m0, s)
      ensures sibling == Ptr(Sibling(LiftSibling(c)))
    {
      ghost var b := Sibling(c);
      ghost var cs := InLeft(c.up, c.e, c.color, t);
      AtUp(mem[..], root, c, t, m0, s);
      AtUp(mem[..], root, cs, b, m0, s);
      Paint(sibling0, Black, cs, b, m0, s);
      AtUp(mem[..], root, cs, Blacken(b), m0, s);
      ghost var p := Join(cs, Blacken(b));
      Paint(parent, Red, c.up, p, m0, s);
      p := Redden(p);
      RotateRight(parent, c.up, p, m0, s);
      ghost var d := LiftSibling(c);
      AtUp(mem[..], root, d.up, Join(d, t), m0, s);
      AtUp(mem[..], root, d, t, m0, s);
      sibling := mem[parent].left;
    }

    /** Only the inner nephew is red: a rotation at the sibling brings a red node to the outside. */
    method TurnLeftNephew(sibling: nat, ghost c: Ctx, ghost t: Tree, ghost m0: seq<Cell>, ghost s: set<nat>)
      requires At(mem[..], root, c, t, m0, s) && t.Node? && sibling == t.e.id
      requires t.right.Node?
      modifies mem, this`root
      ensures At(mem[..], root, c, RotatedLeft(t.(right := Blacken(t.right), color := Red)), m0, s)
    {
      ghost var w := t.right;
      ghost var cw := InRight(t.left, t.e, t.color, c);
      AtUp(mem[..], root, cw, w, m0, s);
      Paint(mem[sibling].right, Black, cw, w, m0, s);
      AtUp(mem[..], root, cw, Blacken(w), m0, s);
      Paint(sibling, Red, c, Join(cw, Blacken(w)), m0, s);
      RotateLeft(sibling, c, t.(right := Blacken(w), color := Red), m0, s);
    }

    /** Outer nephew red: recolour and rotate the parent down towards the short side. */
    method LowerRight(parent: nat, sibling: nat, ghost c: Ctx, ghost t: Tree, ghost m0: seq<Cell>, ghost s: set<nat>)
      requires At(mem[..], root, c, t, m0, s) && c.InRight? && Sibling(c).Node? && Sibling(c).left.Node?
      requires parent == c.e.id && sibling == Sibling(c).e.id
      modifies mem, this`root
      ensures var b := Sibling(c);
              At(mem[..], root, c.up, Node(Blacken(b.left), b.e, c.color, Node(b.right, c.e, Black, t)), m0, s)
    {
      ghost var b := Sibling(c);
      ghost var cs := InLeft(c.up, c.e, c.color, t);
      AtUp(mem[..], root, c, t, m0, s);
      AtUp(mem[..], root, cs, b, m0, s);
      Paint(sibling, mem[parent].color, cs, b, m0, s);
      b := b.(color := c.color);
      AtUp(mem[..], root, cs, b, m0, s);
      Paint(parent, Black, c.up, Join(cs, b), m0, s);
      cs := InLeft(c.up, c.e, Black, t);
      AtUp(mem[..], root, cs, b, m0, s);

      // the outer nephew
      ghost var cn := InLeft(cs, b.e, b.color, b.right);
      AtUp(mem[..], root, cn, b.left, m0, s);
      Paint(mem[sibling].left, Black, cn, b.left, m0, s);
      AtUp(mem[..], root, cn, Blacken(b.left), m0, s);
      b := b.(left := Blacken(b.left));
      AtUp(mem[..], root, cs, b, m0, s);
      RotateRight(parent, c.up, Join(cs, b), m0, s);
    }

    /** One round of the deletion repair for a node that is a left child, once its sibling is black. */
    method SettleLeft(parent: nat, sibling0: nat, ghost c: Ctx, ghost t: Tree, ghost m0: seq<Cell>, ghost s: set<nat>) returns (next: nat)
      requires FIRST <= mem.Length == |m0| && m0[NIL].color == Black
      requires At(mem[..], root, c, t, m0, s) && c.InLeft? && Sibling(c).Node? && Sibling(c).color == Black
      requires parent == c.e.id && sibling0 == Sibling(c).e.id
      modifies mem, this`root
      ensures var (c', t') := DeleteSettle(c, t);
              At(mem[..], root, c', t', m0, s) && next == Ptr(t')
    {
      var sibling := sibling0;
      ghost var b := Sibling(c);
      ghost var cs := InRight(t, c.e, c.color, c.up);
      AtUp(mem[..], root, c, t, m0, s);
      AtUp(mem[..], root, cs, b, m0, s);
      ChildColors(mem[..], root, cs, b, m0, s);
      if mem[mem[sibling].left].color == Black && mem[mem[sibling].right].color == Black {
        Paint(sibling, Red, cs, b, m0, s);
        AtUp(mem[..], root, cs, Redden(b), m0, s);
        next := parent;
      } else {
        if mem[mem[sibling].right].color == Black {
          TurnRightNephew(sibling, cs, b, m0, s);
          b := RotatedRight(b.(left := Blacken(b.left), color := Red));
          sibling := mem[parent].right;
        }
        ghost var d := InLeft(c.up, c.e, c.color, b);
        AtUp(mem[..], root, cs, b, m0, s);
        AtUp(mem[..], root, d, t, m0, s);
        LowerLeft(parent, sibling, d, t, m0, s);
        AtTop(mem[..], root, c.up, Repaired(c, t), m0, s);
        next := root;
      }
    }

    /** One round of the deletion repair for a node that is a right child, once its sibling is black. */
    method SettleRight(parent: nat, sibling0: nat, ghost c: Ctx, ghost t: Tree, ghost m0: seq<Cell>, ghost s: set<nat>) returns (next: nat)
      requires FIRST <= mem.Length == |m0| && m0[NIL].color == Black
      requires At(mem[..], root, c, t, m0, s) && c.InRight? && Sibling(c).Node? && Sibling(c).color == Black
      requires parent == c.e.id && sibling0 == Sibling(c).e.id
      modifies mem, this`root
      ensures var (c', t') := DeleteSettle(c, t);
              At(mem[..], root, c', t', m0, s) && next == Ptr(t')
    {
      var sibling := sibling0;
      ghost var b := Sibling(c);
      ghost var cs := InLeft(c.up, c.e, c.color, t);
      AtUp(mem[..], root, c, t, m0, s);
      AtUp(mem[..], root, cs, b, m0, s);
      ChildColors(mem[..], root, cs, b, m0, s);
      if mem[mem[sibling].left].color == Black && mem[mem[sibling].right].color == Black {
        Paint(sibling, Red, cs, b, m0, s);
        AtUp(mem[..], root, cs, Redden(b), m0, s);
        next := parent;
      } else {
        if mem[mem[sibling].left].color == Black {
          TurnLeftNephew(sibling, cs, b, m0, s);
          b := RotatedLeft(b.(right := Blacken(b.right), color := Red));
          sibling := mem[parent].left;
        }
        ghost var d := InRight(b, c.e, c.color, c.up);
        AtUp(mem[..], root, cs, b, m0, s);
        AtUp(mem[..], root, d, t, m0, s);
        LowerRight(parent, sibling, d, t, m0, s);
        AtTop(mem[..], root, c.up, Repaired(c, t), m0, s);
        next := root;
      }
    }

    /** One round of the deletion repair. */
    method DeleteRepairRound(node: nat, ghost c: Ctx, ghost t: Tree, ghost m0: seq<Cell>, ghost s: set<nat>) returns (next: nat)
      requires FIRST <= mem.Length == |m0| && m0[NIL].color == Black
      requires At(mem[..], root, c, t, m0, s) && DeleteReady(c, t) && c != Top && ColorOf(t) == Black
      requires node == Ptr(t) && mem[node].parent == Above(c)
      modifies mem, this`root
      ensures var (c', t') := DeleteRound(c, t);
              At(mem[..], root, c', t', m0, s) && next == Ptr(t')
    {
      LiftReady(c, t);
      SiblingCells(mem[..], root, c, t, m0, s);
      var parent := mem[node].parent;
      if node == mem[parent].left {
        var sibling := mem[parent].right;
        if mem[sibling].color == Red {
          sibling := LiftRightSibling(parent, sibling, c, t, m0, s);
        }
        next := SettleLeft(parent, sibling, LiftSibling(c), t, m0, s);
      } else {
        var sibling := mem[parent].left;
        if mem[sibling].color == Red {
          sibling := LiftLeftSibling(parent, sibling, c, t, m0, s);
        }
        next := SettleRight(parent, sibling, LiftSibling(c), t, m0, s);
      }
    }

    /** The deletion loop: at its head nothing is wrong but one black missing on the paths through `node`. */
    method FixupDelete(start: nat, ghost c0: Ctx, ghost t0: Tree, ghost m0: seq<Cell>, ghost s: set<nat>)
      requires FIRST <= mem.Length == |m0| && m0[NIL].color == Black
      requires At(mem[..], root, c0, t0, m0, s) && DeleteReady(c0, t0)
      requires start == Ptr(t0) && (t0.Leaf? ==> m0[NIL].parent == Above(c0))
      modifies mem, this`root
      ensures At(mem[..], root, Top, DeleteFix(c0, t0), m0, s)
    {
      var node := start;
      ghost var c, t := c0, t0;
      WalkCell(mem[..], root, c, t, m0, s);
      while node != root && mem[node].color == Black
        invariant At(mem[..], root, c, t, m0, s) && DeleteReady(c, t) && node == Ptr(t)
        invariant AtCell(mem[..], root, c, t)
        invariant DeleteFix(c, t) == DeleteFix(c0, t0)
        decreases DeleteRank(c, t)
      {
        DeleteRoundStep(c, t);
        node := DeleteRepairRound(node, c, t, m0, s);
        ghost var (c', t') := DeleteRound(c, t);
        c, t := c', t';
        WalkCell(mem[..], root, c, t, m0, s);
      }
      ghost var m := mem[..];
      SetColor(node, Black);
      BlackenCell(m, mem[..], root, c, t, m0, s);
      AtTop(mem[..], root, c, Blacken(t), m0, s);
    }

    // -------------------------------------------------------------- lookup

    /**
     * The descent to a key: the node or nil, the parent, and the last comparator result. The
     * comparator is called `Comparisons` times.
     */
    method Find(key: int, ghost t: Tree)
      returns (node: nat, parent: nat, parentCmp: int, ghost c: Ctx, ghost u: Tree, ghost calls: nat)
      requires FIRST <= mem.Length && Focus(mem[..], root, Top, t) && Ordering(cmp)
      ensures (c, u) == Locate(Top, t, key) && Focus(mem[..], root, c, u)
      ensures var (hole, found) := Locate(Top, t, key);
              node == Ptr(found) && parent == Above(hole) && Agrees(parentCmp, hole)
      ensures Exact(cmp) ==> -1 <= parentCmp <= 1
      ensures calls == Comparisons(t, key) == Depth(c) + if node != NIL then 1 else 0
      ensures RB(t) ==> Pow2(calls) <= (Size(t) + 1) * (Size(t) + 1)
    {
      if RB(t) { LookupCost(t, key); }
      CallsOnTheWay(Top, t, key);
      node, parent, parentCmp := root, NIL, 0;
      c, u, calls := Top, t, 0;
      while node != NIL
        invariant Focus(mem[..], root, c, u) && node == Ptr(u) && parent == Above(c)
        invariant Agrees(parentCmp, c) && (Exact(cmp) ==> -1 <= parentCmp <= 1)
        invariant Locate(c, u, key) == Locate(Top, t, key)
        invariant calls + Comparisons(u, key) == Comparisons(t, key)
        decreases u
      {
        var answer := cmp(key, mem[node].value);
        calls := calls + 1;
        if answer == 0 { return; }
        FocusDown(mem[..], root, c, u);
        parent, parentCmp := node, answer;
        if answer < 0 {
          node := mem[node].left;
          c, u := InLeft(c, u.e, u.color, u.right), u.left;
        } else {
          node := mem[node].right;
          c, u := InRight(u.left, u.e, u.color, c), u.right;
        }
      }
    }

    method LocalMinimum(start: nat, ghost t: Tree, ghost parent: nat) returns (p: nat)
      requires FIRST <= mem.Length && Rep(mem[..], t, parent) && t.Node? && start == t.e.id
      ensures p == MinNode(t).e.id && Inorder(t) != [] && Inorder(t)[0].id == p
    {
      MinInorder(t);
      p := start;
      ghost var u, above := t, parent;
      while mem[p].left != NIL
        invariant Rep(mem[..], u, above) && u.Node? && p == u.e.id && MinNode(u) == MinNode(t)
        decreases u
      {
        above, u := u.e.id, u.left;
        p := mem[p].left;
      }
    }

    method LocalMaximum(start: nat, ghost t: Tree, ghost parent: nat) returns (p: nat)
      requires FIRST <= mem.Length && Rep(mem[..], t, parent) && t.Node? && start == t.e.id
      ensures p == MaxNode(t).e.id && Inorder(t) != [] && Inorder(t)[|Inorder(t)| - 1].id == p
    {
      MaxInorder(t);
      p := start;
      ghost var u, above := t, parent;
      while mem[p].right != NIL
        invariant Rep(mem[..], u, above) && u.Node? && p == u.e.id && MaxNode(u) == MaxNode(t)
        decreases u
      {
        above, u := u.e.id, u.right;
        p := mem[p].right;
      }
    }

    // -------------------------------------------------------------- unlinking

    method Transplant(old_: nat, new_: nat, ghost c: Ctx)
      requires old_ < mem.Length && new_ < mem.Length && mem[old_].parent == Above(c)
      requires c != Top ==> FIRST <= c.e.id < mem.Length && c.e.id != new_ && (mem[c.e.id].left == old_ <==> c.InLeft?)
      modifies mem, this`root
      ensures Moved(old(mem[..]), mem[..], c, new_)
      ensures root == if c.Top? then new_ else old(root)
    {
      var oldParent := mem[old_].parent;
      if oldParent == NIL {
        root := new_;
      } else if mem[oldParent].left == old_ {
        mem[oldParent] := mem[oldParent].(left := new_);
      } else {
        mem[oldParent] := mem[oldParent].(right := new_);
      }
      SetParent(new_, oldParent);
    }

    /** The successor takes over the place, left subtree and colour of the deleted node. */
    method TakePlace(y: nat, node: nat, ghost c: Ctx, ghost t: Tree)
      requires FIRST <= mem.Length && Vacating(mem[..], root, c, node, t) && y == t.e.id
      modifies mem, this`root
      ensures Focus(mem[..], root, c, t)
      ensures Kept(old(mem[..]), mem[..], CtxIds(c) + Ids(t)) && mem[NIL] == old(mem[NIL])
    {
      ghost var m := mem[..];
      VacatingCells(m, root, c, node, t);
      Transplant(node, y, c);
      mem[y] := mem[y].(left := mem[node].left);
      SetParent(mem[y].left, y);
      SetColor(y, mem[node].color);
      VacatedFocus(m, mem[..], old(root), root, c, node, t);
    }

    method GiveRight(y: nat, node: nat)
      requires y < mem.Length && node < mem.Length && mem[node].right < mem.Length
      requires y !in {node, mem[node].right}
      modifies mem
      ensures var m, r := old(mem[..]), old(mem[node].right);
              mem[..] == m[y := m[y].(right := r)][r := m[r].(parent := y)]
    {
      mem[y] := mem[y].(right := mem[node].right);
      SetParent(mem[y].right, y);
    }

    /** The successor, deeper in the right subtree, is unlinked there and given that whole subtree. */
    method ExtractSuccessor(y: nat, node: nat, ghost c: Ctx, ghost t: Tree, ghost s: set<nat>)
      requires FIRST <= mem.Length && Focus(mem[..], root, c, t) && s == CtxIds(c) + Ids(t)
      requires t.Node? && t.left.Node? && t.right.Node? && t.right.left.Node?
      requires node == t.e.id && y == MinNode(t.right).e.id
      modifies mem, this`root
      ensures Vacating(mem[..], root, c, node, Unlinked(t))
      ensures Kept(old(mem[..]), mem[..], s - {node} + {NIL})
      ensures mem[NIL] == old(mem[NIL]).(parent := mem[NIL].parent)
      ensures MinNode(t.right).right.Leaf? ==> mem[NIL].parent == Above(DeleteFocus(c, t).0)
    {
      ghost var m := mem[..];
      ghost var base, base' := InRight(t.left, t.e, t.color, c), InRight(t.left, MinNode(t.right).e, t.color, c);
      SuccessorCells(m, root, c, t);
      Transplant(y, mem[y].right, SpineCtx(base, t.right));
      ghost var m1 := mem[..];
      ExtractedFocus(m, m1, root, c, t);
      SpineEnd(base, base', t.right);
      MinAtRoot(t.right);
      RightChildCell(m1, root, c, t.(right := RemoveMin(t.right)));
      GiveRight(y, node);
      DeepVacating(m1, mem[..], root, c, t);
      ExtractedKept(m, m1, mem[..], c, t, s);
    }

    /** The successor is the deleted node's own child: its right child, perhaps nil, is told its parent. */
    method KeepSuccessor(y: nat, node: nat, ghost c: Ctx, ghost t: Tree, ghost s: set<nat>)
      requires FIRST <= mem.Length && Focus(mem[..], root, c, t) && s == CtxIds(c) + Ids(t)
      requires t.Node? && t.left.Node? && t.right.Node? && t.right.left.Leaf?
      requires node == t.e.id && y == t.right.e.id
      modifies mem, this`root
      ensures Vacating(mem[..], root, c, node, Unlinked(t))
      ensures Kept(old(mem[..]), mem[..], s - {node} + {NIL})
      ensures mem[NIL] == old(mem[NIL]).(parent := mem[NIL].parent)
      ensures MinNode(t.right).right.Leaf? ==> mem[NIL].parent == Above(DeleteFocus(c, t).0)
    {
      ghost var m := mem[..];
      NearCells(m, root, c, t);
      SetParent(mem[y].right, y);
      NearVacating(m, mem[..], root, c, t);
    }

    /** Unlinking a node with two children: its successor, which has no left child, moves up. */
    method UnlinkInner(node: nat, ghost c: Ctx, ghost t: Tree, ghost s: set<nat>)
      returns (replacement: nat, deletedColor: Color)
      requires FIRST <= mem.Length && Focus(mem[..], root, c, t) && s == CtxIds(c) + Ids(t)
      requires t.Node? && node == t.e.id && t.left.Node? && t.right.Node?
      modifies mem, this`root
      ensures Focus(mem[..], root, c, Unlinked(t))
      ensures replacement == Ptr(MinNode(t.right).right) && deletedColor == MinNode(t.right).color
      ensures Kept(old(mem[..]), mem[..], s - {node} + {NIL})
      ensures mem[NIL] == old(mem[NIL]).(parent := mem[NIL].parent)
      ensures MinNode(t.right).right.Leaf? ==> mem[NIL].parent == Above(DeleteFocus(c, t).0)
    {
      var y := LocalMinimum(mem[node].right, t.right, node);
      MinAtRoot(t.right);
      MinCell(mem[..], t.right, node);
      deletedColor := mem[y].color;
      replacement := mem[y].right;
      if y != mem[node].right {
        ExtractSuccessor(y, node, c, t, s);
      } else {
        KeepSuccessor(y, node, c, t, s);
      }
      ghost var m := mem[..];
      TakePlace(y, node, c, Unlinked(t));
      UnlinkedSeparate(c, t);
      KeptWiden(m, mem[..], CtxIds(c) + Ids(Unlinked(t)), s - {node} + {NIL});
      KeptTrans(old(mem[..]), m, mem[..], s - {node} + {NIL});
    }

    /** Unlinking a node with at most one child. */
    method UnlinkOuter(node: nat, child: nat, ghost c: Ctx, ghost t: Tree, ghost sub: Tree, ghost s: set<nat>)
      requires FIRST <= mem.Length && Focus(mem[..], root, c, t) && s == CtxIds(c) + Ids(t)
      requires t.Node? && node == t.e.id && child == Ptr(sub)
      requires (t.left.Leaf? && sub == t.right) || (t.right.Leaf? && sub == t.left)
      modifies mem, this`root
      ensures Focus(mem[..], root, c, sub)
      ensures Kept(old(mem[..]), mem[..], s - {node} + {NIL})
      ensures mem[NIL] == old(mem[NIL]).(parent := mem[NIL].parent)
      ensures sub.Leaf? ==> mem[NIL].parent == Above(c)
    {
      OuterCells(mem[..], root, c, t, sub);
      Transplant(node, child, c);
      SpliceFocus(old(mem[..]), mem[..], old(root), root, c, t, sub);
    }

    /** The node leaves the tree; what may be missing afterwards is one black above `replacement`. */
    method Unlink(node: nat, ghost c: Ctx, ghost t: Tree, ghost s: set<nat>)
      returns (replacement: nat, deletedColor: Color)
      requires FIRST <= mem.Length && Focus(mem[..], root, c, t) && s == CtxIds(c) + Ids(t)
      requires t.Node? && node == t.e.id
      modifies mem, this`root
      ensures var (c', t', k) := DeleteFocus(c, t);
              && Focus(mem[..], root, c', t') && s - {node} == CtxIds(c') + Ids(t')
              && replacement == Ptr(t') && deletedColor == k
              && (t'.Leaf? ==> mem[NIL].parent == Above(c'))
      ensures Kept(old(mem[..]), mem[..], s - {node} + {NIL})
      ensures mem[NIL] == old(mem[NIL]).(parent := mem[NIL].parent)
    {
      deletedColor := mem[node].color;
      if mem[node].left == NIL {
        OuterCells(mem[..], root, c, t, t.right);
        replacement := mem[node].right;
        UnlinkOuter(node, replacement, c, t, t.right, s);
      } else if mem[node].right == NIL {
        OuterCells(mem[..], root, c, t, t.left);
        replacement := mem[node].left;
        UnlinkOuter(node, replacement, c, t, t.left, s);
      } else {
        ChildCells(mem[..], root, c, t);
        replacement, deletedColor := UnlinkInner(node, c, t, s);
      }
      DeleteRefocus(mem[..], root, c, t, s);
    }

    /**
     * Deleting any node of a red-black tree: what remains is the repaired tree without it, and
     * apart from the links and colours of the remaining nodes only nil's parent link has changed.
     */
    method DeleteNode(node: nat, ghost c: Ctx, ghost t: Tree, ghost s: set<nat>)
      requires FIRST <= mem.Length && mem[NIL].color == Black
      requires Focus(mem[..], root, c, t) && s == CtxIds(c) + Ids(t) && t.Node? && node == t.e.id
      requires RB(Plug(c, t))
      modifies mem, this`root
      ensures Focus(mem[..], root, Top, Delete(c, t)) && RB(Delete(c, t)) && Ids(Delete(c, t)) == s - {node}
      ensures Kept(old(mem[..]), mem[..], s - {node} + {NIL})
      ensures mem[NIL] == old(mem[NIL]).(parent := mem[NIL].parent)
    {
      DeleteFocusReady(c, t);
      DeleteSound(c, t);
      var replacement, deletedColor := Unlink(node, c, t, s);
      ghost var m := mem[..];
      ghost var (c', t', k) := DeleteFocus(c, t);
      FocusTop(m, root, c', t');
      if deletedColor == Black {
        FixupDelete(replacement, c', t', m, s - {node});
        AtNil(mem[..], root, Top, Delete(c, t), m, s - {node});
        KeptWiden(m, mem[..], s - {node}, s - {node} + {NIL});
        KeptTrans(old(mem[..]), m, mem[..], s - {node} + {NIL});
      }
    }

    // -------------------------------------------------------------- linking

    /** Linking a fresh node into the hole a lookup ended at, then repairing. */
    method InsertNode(node: nat, parent: nat, parentCmp: int, ghost c: Ctx, ghost s: set<nat>)
      requires FIRST <= mem.Length && mem[NIL].color == Black
      requires Focus(mem[..], root, c, Leaf) && s == CtxIds(c) && RB(Plug(c, Leaf))
      requires FIRST <= node < mem.Length && node !in s
      requires parent == Above(c) && Agrees(parentCmp, c) && parentCmp >= -1
      modifies mem, this`root
      ensures var e := Elem(node, mem[node].value.key);
              Focus(mem[..], root, Top, Insert(c, e)) && RB(Insert(c, e)) && Ids(Insert(c, e)) == s + {node}
      ensures Kept(old(mem[..]), mem[..], s + {node})
    {
      ghost var m := mem[..];
      CtxCells(m, root, c, Leaf);
      mem[node] := mem[node].(left := NIL, right := NIL, parent := parent, color := Red);
      if parent == NIL {
        root := node;
      } else if parentCmp == -1 {
        mem[parent] := mem[parent].(left := node);
      } else {
        mem[parent] := mem[parent].(right := node);
      }
      ghost var e := Elem(node, mem[node].value.key);
      ghost var n := Node(Leaf, e, Red, Leaf);
      LinkFocus(m, mem[..], old(root), root, c, e);
      InsertSound(c, e);
      FixupInsert(node, c, n, m, s + {node});
    }

    // -------------------------------------------------------------- caches

    /**
     * Run after the insertion repair, on the links of the repaired tree. The caches are right
     * afterwards exactly if the comparator answered -1, 0 or 1 or the new node is not next to the
     * end on its side.
     */
    method UpdateCacheInsert(parent: nat, parentCmp: int, ghost c: Ctx, ghost e: Elem)
      requires FIRST <= mem.Length && Focus(mem[..], root, Top, Insert(c, e))
      requires var s := Before(c) + After(c);
               && DistinctIds(s) && CacheOk(s, smallest, largest)
               && (forall x :: x in s ==> x.id != NIL && x.id != e.id)
      requires parent == Above(c) && Agrees(parentCmp, c)
      modifies this`smallest, this`largest
      ensures CacheOk(Before(c) + [e] + After(c), smallest, largest) <==>
              -1 <= parentCmp <= 1 || parent != old(if parentCmp < 0 then smallest else largest)
    {
      ghost var s := Before(c) + After(c);
      assert s != [] ==> s[0] in s && s[|s| - 1] in s;
      if c != Top { HoleBeside(c, s, smallest, largest); }
      CacheInsert(c, e, smallest, largest);
      if parentCmp == -1 && parent == smallest {
        InsertExtreme(c, e, true);
        EdgeLink(mem[..], Insert(c, e), NIL, parent, e.id, true);
        smallest := mem[parent].left;
      } else if parentCmp == 1 && parent == largest {
        InsertExtreme(c, e, false);
        EdgeLink(mem[..], Insert(c, e), NIL, parent, e.id, false);
        largest := mem[parent].right;
      } else if largest == NIL {
        largest := root;
        smallest := root;
      } else {
        assert s != [];
      }
    }

    /**
     * Run after the deletion repair; the node is unlinked, but its own links are as it left them. If
     * it was the only one, the root is nil by now, so it is not the root any more.
     */
    method UpdateCacheDelete(node: nat, ghost c: Ctx, ghost t: Tree)
      requires FIRST <= mem.Length && t.Node? && node == t.e.id < mem.Length && RB(Plug(c, t))
      requires Focus(mem[..], root, Top, Delete(c, t))
      requires mem[node].left == Ptr(t.left) && mem[node].right == Ptr(t.right) && mem[node].parent == Above(c)
      requires var s := Inorder(Plug(c, t));
               && DistinctIds(s) && CacheOk(s, smallest, largest) && (forall x :: x in s ==> x.id != NIL)
      modifies this`smallest, this`largest
      ensures CacheOk(Inorder(Delete(c, t)), smallest, largest)
      ensures old(smallest) == old(largest) ==> root == NIL != node
    {
      ghost var a, b := Before(c) + Inorder(t.left), Inorder(t.right) + After(c);
      DeleteSound(c, t);
      CacheRemove(a, t.e, b, smallest, largest);
      if smallest == largest {
        smallest := NIL;
        largest := NIL;
      } else if node == smallest {
        SmallestGone(c, t);
        if mem[smallest].right != NIL {
          FocusTop(mem[..], root, c, Blacken(t.right));
          smallest := LocalMinimum(mem[smallest].right, Blacken(t.right), Above(c));
        } else {
          smallest := mem[smallest].parent;
        }
      } else if node == largest {
        LargestGone(c, t);
        if mem[largest].left != NIL {
          FocusTop(mem[..], root, c, Blacken(t.left));
          largest := LocalMaximum(mem[largest].left, Blacken(t.left), Above(c));
        } else {
          largest := mem[largest].parent;
        }
      }
    }

    // -------------------------------------------------------------- tree and caches together

    /** A fresh node for a key that is not there: linked where the lookup ended, caches brought up to date. */
    method InsertAndCache(node: nat, parent: nat, parentCmp: int, ghost c: Ctx, ghost t: Tree, ghost e: Elem)
      requires FIRST <= mem.Length && mem[NIL].color == Black
      requires TreeOk(mem[..], root, smallest, largest, t) && (c, Leaf) == Locate(Top, t, e.key)
      requires FIRST <= node == e.id < mem.Length && node !in Ids(t) && mem[node].value.key == e.key
      requires parent == Above(c) && Agrees(parentCmp, c) && -1 <= parentCmp <= 1
      modifies mem, this`root, this`smallest, this`largest
      ensures TreeOk(mem[..], root, smallest, largest, Insert(c, e))
      ensures Kept(old(mem[..]), mem[..], Ids(t) + {node})
      ensures Loads(mem[..]) == old(Loads(mem[..]))
    {
      LocateMiss(t, e.key);
      FocusTop(mem[..], root, c, Leaf);
      TreeElems(mem[..], root, smallest, largest, t);
      InsertNode(node, parent, parentCmp, c, Ids(t));
      InsertSound(c, e);
      UpdateCacheInsert(parent, parentCmp, c, e);
      OrderedInsert(Before(c), e, After(c));
    }

    /** A node deleted from the tree, caches brought up to date from the links it leaves with. */
    method DeleteAndCache(node: nat, ghost c: Ctx, ghost u: Tree, ghost t: Tree)
      requires FIRST <= mem.Length && mem[NIL].color == Black
      requires TreeOk(mem[..], root, smallest, largest, t) && t == Plug(c, u) && u.Node? && node == u.e.id
      modifies mem, this`root, this`smallest, this`largest
      ensures TreeOk(mem[..], root, smallest, largest, Delete(c, u)) && node !in Ids(Delete(c, u))
      ensures Kept(old(mem[..]), mem[..], Ids(t) - {node} + {NIL}) && mem[NIL].color == Black
    {
      FocusTop(mem[..], root, c, u);
      TreeElems(mem[..], root, smallest, largest, t);
      assert node in Ids(t);
      DeleteNode(node, c, u, Ids(t));
      UpdateCacheDelete(node, c, u);
      DeleteSound(c, u);
      OrderedRemove(Before(c) + Inorder(u.left), u.e, Inorder(u.right) + After(c));
    }

    // -------------------------------------------------------------- free list

    method AllocSlot() returns (p: nat)
      requires freeCount > 0 ==> freeList < mem.Length
      modifies this`freeList, this`freeCount
      ensures if old(freeCount) == 0 then p == NULL && freeList == old(freeList) && freeCount == 0
              else p == old(freeList) && freeList == mem[p].parent && freeCount == old(freeCount) - 1
    {
      if freeCount == 0 { return NULL; }
      p := freeList;
      freeList := mem[p].parent;
      freeCount := freeCount - 1;
    }

    method FreeSlot(p: nat)
      requires p < mem.Length
      modifies mem, this`freeList, this`freeCount
      ensures p == NULL ==> mem[..] == old(mem[..]) && freeList == old(freeList) && freeCount == old(freeCount)
      ensures p != NULL ==> mem[..] == old(mem[..])[p := old(mem[p]).(parent := old(freeList), color := Red)]
      ensures p != NULL ==> freeList == p && freeCount == old(freeCount) + 1
    {
      if p == NULL { return; }
      mem[p] := mem[p].(parent := freeList, color := Red);
      freeList := p;
      freeCount := freeCount + 1;
    }

    // -------------------------------------------------------------- storing

    /** The bookkeeping after a request: the ghost fields follow what the arena now holds. */
    ghost method Commit(t: Tree, free': seq<nat>, chains': Chains, owner': seq<Owner>)
      requires StoreOk(mem[..], root, smallest, largest, freeList, t, free', chains', owner') && freeCount == |free'|
      modifies this`tree, this`free, this`chains, this`owner
      ensures Valid() && Model() == View(mem[..], free', chains')
      ensures tree == t && free == free' && chains == chains' && owner == owner'
    {
      tree, free, chains, owner := t, free', chains', owner';
    }

    /** A slot is in hand: off the free list, filled with `v`, not yet part of anything. */
    ghost predicate InHand(node: nat, v: Value, m0: seq<Cell>, head0: nat)
      reads mem, this`root, this`smallest, this`largest, this`freeList, this`freeCount, this`tree, this`free, this`chains, this`owner
    {
      OffList(node, m0, head0) && mem[..] == m0[node := m0[node].(value := v)]
    }

    /** In the arena `m0` the slot was the top of the free list, and has been taken off it. */
    ghost predicate OffList(node: nat, m0: seq<Cell>, head0: nat)
      reads this`root, this`smallest, this`largest, this`freeList, this`freeCount, this`tree, this`free, this`chains, this`owner
    {
      && StoreOk(m0, root, smallest, largest, head0, tree, free, chains, owner) && |m0| == |owner|
      && free != [] && FIRST <= node == free[|free| - 1] < |m0|
      && freeList == m0[node].parent && freeCount == |free| - 1
    }

    method AttachNode(base: nat, attached: nat)
      requires base < mem.Length && attached < mem.Length
      modifies mem
      ensures var m := old(mem[..]);
              var m1 := m[attached := m[attached].(list := m[base].list)];
              mem[..] == m1[base := m1[base].(list := attached)]
      ensures Loads(mem[..]) == old(Loads(mem[..]))
    {
      SameLoad(mem[..], attached, mem[attached].(list := mem[base].list));
      mem[attached] := mem[attached].(list := mem[base].list);
      SameLoad(mem[..], base, mem[base].(list := attached));
      mem[base] := mem[base].(list := attached);
    }

    method AttachInHand(base: nat, node: nat, v: Value, ghost m0: seq<Cell>, ghost head0: nat)
      requires InHand(node, v, m0, head0) && Elem(base, v.key) in Inorder(tree)
      modifies mem
      ensures FIRST <= base < |m0| == |owner| && mem[..] == AttachCells(m0, node, base, v) && owner[base] == Live(v.key, 0)
      ensures mem[base].value.key == v.key && mem[node].value == v
      ensures Loads(mem[..]) == old(Loads(mem[..]))
    {
      NodeOf(m0, head0, free, chains, owner, tree, Elem(base, v.key));
      NodeOwner(m0, head0, free, chains, owner, tree, Elem(base, v.key));
      LiveKey(m0, head0, free, chains, owner, tree, base);
      FreeIsNotNode(m0, head0, free, chains, owner, tree, Elem(base, v.key));
      AttachNode(base, node);
    }

    /** Storing under a key that is there: the slot in hand is attached to the key's node. */
    method StoreDuplicate(base: nat, node: nat, v: Value, ghost m0: seq<Cell>, ghost head0: nat)
      requires InHand(node, v, m0, head0) && Elem(base, v.key) in Inorder(tree)
      modifies mem, this`tree, this`free, this`chains, this`owner
      ensures Valid() && old(free) != [] && ChainsOk(m0, old(chains))
      ensures Model() == MM.Push(View(m0, old(free), old(chains)), v)
      ensures FIRST <= base < mem.Length && mem[base].value.key == v.key && mem[node].value == v
      ensures Loads(mem[..]) == old(Loads(mem[..]))
    {
      AttachInHand(base, node, v, m0, head0);
      CommitAttached(base, node, v, 0, m0, head0);
    }

    method LinkInHand(node: nat, parent: nat, parentCmp: int, v: Value, ghost c: Ctx, ghost m0: seq<Cell>, ghost head0: nat)
      requires InHand(node, v, m0, head0) && (c, Leaf) == Locate(Top, tree, v.key)
      requires parent == Above(c) && Agrees(parentCmp, c) && -1 <= parentCmp <= 1
      modifies mem, this`root, this`smallest, this`largest
      ensures TreeOk(mem[..], root, smallest, largest, Insert(c, Elem(node, v.key)))
      ensures Kept(m0[node := m0[node].(value := v, list := NULL)], mem[..], Ids(tree) + {node})
      ensures Loads(mem[..]) == old(Loads(mem[..]))
    {
      FillFree(m0, root, smallest, largest, head0, tree, free, chains, owner, m0[node].(value := v, list := NULL));
      mem[node] := mem[node].(list := NULL);
      assert mem[..] == m0[node := m0[node].(value := v, list := NULL)];
      InsertAndCache(node, parent, parentCmp, c, tree, Elem(node, v.key));
    }

    ghost method CommitLinked(node: nat, v: Value, c: Ctx, m0: seq<Cell>, head0: nat)
      requires SlotsOk(m0, head0, free, chains, owner, tree) && free != []
      requires FIRST <= node == free[|free| - 1] < |m0| == |owner| && m0[NIL].color == Black
      requires Rep(m0, tree, NIL) && RB(tree) && Ordered(Inorder(tree)) && (c, Leaf) == Locate(Top, tree, v.key)
      requires TreeOk(mem[..], root, smallest, largest, Insert(c, Elem(node, v.key)))
      requires Kept(m0[node := m0[node].(value := v, list := NULL)], mem[..], Ids(tree) + {node})
      requires freeList == m0[node].parent && freeCount == |free| - 1
      modifies this`tree, this`free, this`chains, this`owner
      ensures Valid() && Model() == MM.Push(View(m0, old(free), old(chains)), v)
    {
      ghost var free', chains', owner' :=
        LinkDone(m0, mem[..], root, smallest, largest, head0, tree, c, free, chains, owner, v, node);
      Commit(Insert(c, Elem(node, v.key)), free', chains', owner');
    }

    /** Storing under a new key: the slot in hand becomes a node of the tree. */
    method StoreNew(node: nat, parent: nat, parentCmp: int, v: Value, ghost c: Ctx, ghost m0: seq<Cell>, ghost head0: nat)
      requires InHand(node, v, m0, head0) && (c, Leaf) == Locate(Top, tree, v.key)
      requires parent == Above(c) && Agrees(parentCmp, c) && -1 <= parentCmp <= 1
      modifies mem, this`root, this`smallest, this`largest, this`tree, this`free, this`chains, this`owner
      ensures Valid() && old(free) != [] && ChainsOk(m0, old(chains))
      ensures Model() == MM.Push(View(m0, old(free), old(chains)), v)
      ensures mem[node].value == v
      ensures Loads(mem[..]) == old(Loads(mem[..]))
    {
      LinkInHand(node, parent, parentCmp, v, c, m0, head0);
      CommitLinked(node, v, c, m0, head0);
    }

    /** The cached extremes are tried before descending; nil if neither has the key. */
    method CheckEnds(key: int, ghost m0: seq<Cell>, ghost t: Tree) returns (node: nat)
      requires TreeOk(m0, root, smallest, largest, t) && |m0| == mem.Length && Ordering(cmp)
      requires forall e :: e in Inorder(t) ==> e.id < mem.Length && mem[e.id].value == m0[e.id].value
      ensures node != NIL ==> Elem(node, key) in Inorder(t)
      ensures node != NIL ==> node == smallest || node == largest
      ensures node == NIL && root != NIL ==>
                smallest < mem.Length && largest < mem.Length
                && key != mem[smallest].value.key && key != mem[largest].value.key
      ensures node == EndWith(mem[..], smallest, largest, key) == EndWith(m0, smallest, largest, key)
    {
      CachedElems(m0, root, smallest, largest, t);
      if largest != NIL && cmp(key, mem[largest].value) == 0 { return largest; }
      if smallest != NIL && cmp(key, mem[smallest].value) == 0 { return smallest; }
      return NIL;
    }

    ghost predicate PreviousOk()
      reads this`previous
    {
      previous == NIL || FIRST <= previous < mem.Length
    }

    /** The remembered node is tried first, whatever has become of it, then the cached ends. */
    method CheckCache(key: int, ghost m0: seq<Cell>, ghost t: Tree) returns (node: nat)
      requires TreeOk(m0, root, smallest, largest, t) && |m0| == mem.Length && Ordering(cmp) && PreviousOk()
      requires forall e :: e in Inorder(t) ==> e.id < mem.Length && mem[e.id].value == m0[e.id].value
      ensures if previous != NIL && mem[previous].value.key == key then node == previous
              else && (node != NIL ==> Elem(node, key) in Inorder(t) && (node == smallest || node == largest))
                   && (node == NIL && root != NIL ==>
                         smallest < mem.Length && largest < mem.Length
                         && key != mem[smallest].value.key && key != mem[largest].value.key)
                   && node == EndWith(mem[..], smallest, largest, key)
    {
      if previous != NIL && cmp(key, mem[previous].value) == 0 { return previous; }
      node := CheckEnds(key, m0, t);
    }

    /** Taking a slot off the free list and filling it. */
    method AllocAndPack(v: Value) returns (node: nat)
      requires Valid() && freeCount > 0
      modifies mem, this`freeList, this`freeCount
      ensures InHand(node, v, old(mem[..]), old(freeList)) && node == old(freeList)
      ensures node !in Ids(tree)
      ensures Loads(mem[..]) == old(Loads(mem[..]))[node := v]
    {
      FreeTop(mem[..], freeList, free, chains, owner, tree);
      node := AllocSlot();
      mem[node] := mem[node].(value := v);
    }

    method Put(v: Value, key: int) returns (out: MM.Outcome)
      requires Valid() && key == v.key && Ordering(cmp) && Exact(cmp)
      modifies this, mem
      ensures Valid() && (Model(), out) == MM.Apply(old(Model()), MM.Put(v))
      ensures if out == MM.Full then previous == old(previous) else Remembers(key)
      ensures out == MM.Stored ==>
                && old(freeList) < mem.Length && Loads(mem[..]) == old(Loads(mem[..]))[old(freeList) := v]
                && previous == old(NextPrevious(mem[..], smallest, largest, key, freeList))
    {
      if freeCount == 0 { return MM.Full; }
      ghost var m0, head0 := mem[..], freeList;
      var node := AllocAndPack(v);
      StoreInHand(node, v, key, m0, head0);
      return MM.Stored;
    }

    method Remember(p: nat)
      modifies this`previous
      ensures previous == p && Valid() == old(Valid())
      ensures Valid() ==> Model() == old(Model())
      ensures forall s :: Stands(s) == old(Stands(s))
    {
      previous := p;
    }

    /** The remembered node is a slot with the key. */
    ghost predicate Remembers(key: int)
      reads this`previous, mem
    {
      FIRST <= previous < mem.Length && mem[previous].value.key == key
    }

    /** Storing the slot in hand, with the cached ends tried before the descent. */
    method StoreInHand(node: nat, v: Value, key: int, ghost m0: seq<Cell>, ghost head0: nat)
      requires InHand(node, v, m0, head0) && node !in Ids(tree) && key == v.key && Ordering(cmp) && Exact(cmp)
      modifies mem, this`root, this`smallest, this`largest, this`previous, this`tree, this`free, this`chains, this`owner
      ensures Valid() && old(free) != [] && ChainsOk(m0, old(chains))
      ensures Model() == MM.Push(View(m0, old(free), old(chains)), v)
      ensures Remembers(key)
      ensures Loads(mem[..]) == old(Loads(mem[..]))
      ensures previous == NextPrevious(m0, old(smallest), old(largest), key, node)
    {
      var cached := TryEnds(node, v, key, m0, head0);
      if cached != NIL {
        StoreDuplicate(cached, node, v, m0, head0);
        Remember(cached);
      } else {
        StoreUncached(node, v, key, m0, head0);
        Remember(node);
      }
    }

    method TryEnds(node: nat, v: Value, key: int, ghost m0: seq<Cell>, ghost head0: nat) returns (cached: nat)
      requires InHand(node, v, m0, head0) && node !in Ids(tree) && Ordering(cmp)
      ensures cached != NIL ==> Elem(cached, key) in Inorder(tree)
      ensures cached == EndWith(m0, smallest, largest, key)
    {
      TreeValues(m0, mem[..], root, smallest, largest, tree, node);
      cached := CheckEnds(key, m0, tree);
    }

    /** Storing under a key that is not at either end: attached or linked where the lookup ends. */
    method StoreUncached(node: nat, v: Value, key: int, ghost m0: seq<Cell>, ghost head0: nat)
      requires InHand(node, v, m0, head0) && node !in Ids(tree) && key == v.key && Ordering(cmp) && Exact(cmp)
      modifies mem, this`root, this`smallest, this`largest, this`tree, this`free, this`chains, this`owner
      ensures Valid() && old(free) != [] && ChainsOk(m0, old(chains))
      ensures Model() == MM.Push(View(m0, old(free), old(chains)), v)
      ensures mem[node].value == v
      ensures Loads(mem[..]) == old(Loads(mem[..]))
    {
      var found, parent, parentCmp;
      ghost var c;
      found, parent, parentCmp, c := FindPlace(node, v, key, m0, head0);
      if found != NIL {
        StoreDuplicate(found, node, v, m0, head0);
      } else {
        StoreNew(node, parent, parentCmp, v, c, m0, head0);
      }
    }

    /** Where the key of the slot in hand is, or belongs. */
    method FindPlace(node: nat, v: Value, key: int, ghost m0: seq<Cell>, ghost head0: nat)
      returns (found: nat, parent: nat, parentCmp: int, ghost c: Ctx)
      requires InHand(node, v, m0, head0) && node !in Ids(tree) && key == v.key && Ordering(cmp) && Exact(cmp)
      ensures found != NIL ==> Elem(found, key) in Inorder(tree)
      ensures found == NIL ==> (c, Leaf) == Locate(Top, tree, key)
      ensures parent == Above(c) && Agrees(parentCmp, c) && -1 <= parentCmp <= 1
      ensures found != NIL <==> key in View(m0, free, chains).stacks
    {
      FrameFocus(m0, mem[..], root, smallest, largest, tree, node);
      LookupMeans(m0, root, smallest, largest, head0, tree, free, chains, owner, key);
      ghost var u, calls;
      found, parent, parentCmp, c, u, calls := Find(key, tree);
    }

    // -------------------------------------------------------------- storing as written

    /** The memory stands for a multimap, whatever the ghost fields say. */
    ghost predicate Stands(s: MM.State)
      reads mem, this`root, this`smallest, this`largest, this`freeList, this`freeCount, this`tree, this`free, this`chains, this`owner
    {
      exists t, free', chains', owner' ::
        && StoreOk(mem[..], root, smallest, largest, freeList, t, free', chains', owner')
        && freeCount == |free'| && View(mem[..], free', chains') == s
    }

    /** A valid tree stands for its model and nothing else. */
    lemma StandsForModel(s: MM.State)
      requires Valid()
      ensures Stands(s) <==> s == Model()
    {
      if Stands(s) {
        var t, free', chains', owner' :|
          && StoreOk(mem[..], root, smallest, largest, freeList, t, free', chains', owner')
          && freeCount == |free'| && View(mem[..], free', chains') == s;
        StoreUnique(mem[..], root, smallest, largest, freeList, tree, free, chains, owner, t, free', chains', owner');
      }
    }

    /** Attached to a live slot, the slot in hand joins the chain, at its end only if that slot is the tree's node. */
    ghost method CommitAttached(cached: nat, node: nat, v: Value, i: nat, m0: seq<Cell>, head0: nat)
      requires OffList(node, m0, head0) && FIRST <= cached < |m0| && owner[cached] == Live(v.key, i)
      requires mem[..] == AttachCells(m0, node, cached, v)
      modifies this`tree, this`free, this`chains, this`owner
      ensures Valid() && old(free) != [] && ChainsOk(m0, old(chains))
      ensures Joined(Model(), View(m0, old(free), old(chains)), v, i)
    {
      ghost var free', chains', owner' :=
        JoinDone(m0, root, smallest, largest, head0, tree, free, chains, owner, v, cached, i, node);
      Commit(tree, free', chains', owner');
    }

    /** Attached to a free slot, the slot in hand is lost: the memory stands for nothing any more. */
    lemma AttachedToFree(cached: nat, node: nat, m0: seq<Cell>, head0: nat)
      requires OffList(node, m0, head0) && FIRST <= cached < |m0| && owner[cached].Free?
      requires FreeTouched(m0, mem[..], owner)
      ensures forall s :: !Stands(s)
    {
      forall s ensures !Stands(s) {
        if Stands(s) {
          var t, free', chains', owner' :|
            && StoreOk(mem[..], root, smallest, largest, freeList, t, free', chains', owner')
            && freeCount == |free'| && View(mem[..], free', chains') == s;
          SlotLost(m0, mem[..], root, smallest, largest, head0, tree, free, chains, owner, t, free', chains', owner');
        }
      }
    }

    /** What attaching the slot in hand to a cached slot leads to depends on who owns that slot. */
    method AttachCached(cached: nat, node: nat, v: Value, ghost m0: seq<Cell>, ghost head0: nat)
      requires InHand(node, v, m0, head0) && FIRST <= cached < mem.Length && mem[cached].value.key == v.key
      modifies mem, this`tree, this`free, this`chains, this`owner
      ensures mem[cached].value.key == v.key
      ensures old(free) != [] && ChainsOk(m0, old(chains)) && |old(owner)| == |m0| == mem.Length
      ensures old(owner)[cached].Free? ==> forall s :: !Stands(s)
      ensures old(owner)[cached].Live? ==>
                Valid() && Joined(Model(), View(m0, old(free), old(chains)), v, old(owner)[cached].i)
      ensures Loads(mem[..]) == old(Loads(mem[..]))
    {
      FreeSlotOwner(m0, head0, free, chains, owner, tree);
      AttachNode(cached, node);
      if owner[cached].Free? {
        AttachedToFree(cached, node, m0, head0);
      } else {
        LiveKey(m0, head0, free, chains, owner, tree, cached);
        CommitAttached(cached, node, v, owner[cached].i, m0, head0);
      }
    }

    /** The slot in hand is attached to a cached node; a push comes of it exactly if that node is the right one. */
    method StoreCached(cached: nat, node: nat, v: Value, ghost m0: seq<Cell>, ghost head0: nat)
      requires InHand(node, v, m0, head0) && FIRST <= cached < mem.Length && mem[cached].value.key == v.key
      modifies mem, this`tree, this`free, this`chains, this`owner
      ensures mem[cached].value.key == v.key
      ensures old(free) != [] && ChainsOk(m0, old(chains)) && |old(owner)| == |m0| == mem.Length
      ensures var s := View(m0, old(free), old(chains));
              && (Stands(MM.Push(s, v)) <==> Harmless(cached, node, m0, old(owner), s, v))
              && (Harmless(cached, node, m0, old(owner), s, v) ==> Valid() && Model() == MM.Push(s, v))
      ensures old(owner)[cached].Free? ==> forall s :: !Stands(s)
      ensures Loads(mem[..]) == old(Loads(mem[..]))
      ensures old(owner)[cached].Live? ==>
                Valid() && Joined(Model(), View(m0, old(free), old(chains)), v, old(owner)[cached].i)
    {
      ghost var s, o, safe := View(m0, free, chains), owner[cached], Harmless(cached, node, m0, owner, View(m0, free, chains), v);
      HarmlessMeans(cached, node, m0, owner, s, v);
      AttachCached(cached, node, v, m0, head0);
      if o.Live? {
        JoinedStands(s, v, o.i);
        assert safe <==> Model() == MM.Push(s, v);
      }
    }

    lemma JoinedStands(s: MM.State, v: Value, i: nat)
      requires Valid() && Joined(Model(), s, v, i)
      ensures Stands(MM.Push(s, v)) <==> Model() == MM.Push(s, v)
      ensures var stack := MM.StackOf(s, v.key);
              Model() == MM.Push(s, v) <==> i == 0 || Only(stack, i, v)
    {
      JoinedIsPushIff(Model(), s, v, i);
      StandsForModel(MM.Push(s, v));
    }

    /** Linking as it is written: the list link stays what it was when the slot was last in use. */
    method LinkAsWritten(node: nat, parent: nat, parentCmp: int, v: Value, ghost c: Ctx, ghost m0: seq<Cell>, ghost head0: nat)
      requires InHand(node, v, m0, head0) && (c, Leaf) == Locate(Top, tree, v.key)
      requires parent == Above(c) && Agrees(parentCmp, c) && -1 <= parentCmp <= 1
      modifies mem, this`root, this`smallest, this`largest
      ensures TreeOk(mem[..], root, smallest, largest, Insert(c, Elem(node, v.key)))
      ensures Kept(m0[node := m0[node].(value := v)], mem[..], Ids(tree) + {node})
      ensures Loads(mem[..]) == old(Loads(mem[..]))
    {
      FillFree(m0, root, smallest, largest, head0, tree, free, chains, owner, m0[node].(value := v));
      InsertAndCache(node, parent, parentCmp, c, tree, Elem(node, v.key));
    }

    /** Linked with something still on its list, the new node spoils the memory. */
    lemma LinkedStale(node: nat, v: Value, c: Ctx, m0: seq<Cell>, head0: nat)
      requires SlotsOk(m0, head0, free, chains, owner, tree) && free != []
      requires FIRST <= node == free[|free| - 1] < |m0| == |owner| && m0[NIL].color == Black
      requires Rep(m0, tree, NIL) && RB(tree) && Ordered(Inorder(tree)) && (c, Leaf) == Locate(Top, tree, v.key)
      requires TreeOk(mem[..], root, smallest, largest, Insert(c, Elem(node, v.key)))
      requires Kept(m0[node := m0[node].(value := v)], mem[..], Ids(tree) + {node})
      requires freeList == m0[node].parent && m0[node].list != NULL
      ensures forall s :: !Stands(s)
    {
      forall s ensures !Stands(s) {
        if Stands(s) {
          var t, f, ch, o :|
            && StoreOk(mem[..], root, smallest, largest, freeList, t, f, ch, o)
            && freeCount == |f| && View(mem[..], f, ch) == s;
          LinkSpoils(m0, mem[..], root, smallest, largest, head0, tree, c, free, chains, owner, v, node, t, f, ch, o);
        }
      }
    }

    /** Storing under a new key as it is written. */
    method StoreNewAsWritten(node: nat, parent: nat, parentCmp: int, v: Value, ghost c: Ctx, ghost m0: seq<Cell>, ghost head0: nat)
      requires InHand(node, v, m0, head0) && (c, Leaf) == Locate(Top, tree, v.key)
      requires parent == Above(c) && Agrees(parentCmp, c) && -1 <= parentCmp <= 1
      modifies mem, this`root, this`smallest, this`largest, this`tree, this`free, this`chains, this`owner
      ensures old(free) != [] && ChainsOk(m0, old(chains)) && node < |m0| == mem.Length
      ensures m0[node].list == NULL ==> Valid() && Model() == MM.Push(View(m0, old(free), old(chains)), v)
      ensures m0[node].list != NULL ==> forall s :: !Stands(s)
      ensures mem[node].value == v
      ensures Loads(mem[..]) == old(Loads(mem[..]))
    {
      LinkAsWritten(node, parent, parentCmp, v, c, m0, head0);
      if m0[node].list == NULL {
        CommitLinked(node, v, c, m0, head0);
      } else {
        LinkedStale(node, v, c, m0, head0);
      }
    }

    /** A put under a key that is there, or into a slot without a stale list link. */
    ghost predicate LinkClear(node: nat, m0: seq<Cell>, s: MM.State, key: int)
      requires node < |m0|
    {
      key in s.stacks || m0[node].list == NULL
    }

    /** Storing where the lookup ends, as it is written. */
    method StoreDescended(node: nat, v: Value, key: int, ghost m0: seq<Cell>, ghost head0: nat)
      requires InHand(node, v, m0, head0) && node !in Ids(tree) && key == v.key && Ordering(cmp) && Exact(cmp)
      modifies mem, this`root, this`smallest, this`largest, this`tree, this`free, this`chains, this`owner
      ensures old(free) != [] && ChainsOk(m0, old(chains)) && FIRST <= node < |m0| == mem.Length
      ensures var s := View(m0, old(free), old(chains));
              if LinkClear(node, m0, s, key) then Valid() && Model() == MM.Push(s, v) else forall s' :: !Stands(s')
      ensures mem[node].value == v
      ensures Loads(mem[..]) == old(Loads(mem[..]))
    {
      var found, parent, parentCmp;
      ghost var c;
      found, parent, parentCmp, c := FindPlace(node, v, key, m0, head0);
      if found != NIL {
        StoreDuplicate(found, node, v, m0, head0);
      } else {
        StoreNewAsWritten(node, parent, parentCmp, v, c, m0, head0);
      }
    }

    /** Storing, as it is written, when the remembered node does not have the key. */
    method StoreMissed(node: nat, v: Value, key: int, ghost m0: seq<Cell>, ghost head0: nat)
      requires InHand(node, v, m0, head0) && node !in Ids(tree) && key == v.key && Ordering(cmp) && Exact(cmp)
      modifies mem, this`root, this`smallest, this`largest, this`previous, this`tree, this`free, this`chains, this`owner
      ensures old(free) != [] && ChainsOk(m0, old(chains)) && |old(owner)| == |m0| == mem.Length && node < |m0|
      ensures var s := View(m0, old(free), old(chains));
              && (if LinkClear(node, m0, s, key) then Valid() && Model() == MM.Push(s, v) else forall s' :: !Stands(s'))
              && (Stands(MM.Push(s, v)) <==> LinkClear(node, m0, s, key))
      ensures Remembers(key)
      ensures Loads(mem[..]) == old(Loads(mem[..]))
      ensures previous == NextPrevious(m0, old(smallest), old(largest), key, node)
    {
      ghost var s := View(m0, free, chains);
      StoreMiss(node, v, key, m0, head0);
      if LinkClear(node, m0, s, key) { StandsForModel(MM.Push(s, v)); }
    }

    method StoreMiss(node: nat, v: Value, key: int, ghost m0: seq<Cell>, ghost head0: nat)
      requires InHand(node, v, m0, head0) && node !in Ids(tree) && key == v.key && Ordering(cmp) && Exact(cmp)
      modifies mem, this`root, this`smallest, this`largest, this`previous, this`tree, this`free, this`chains, this`owner
      ensures old(free) != [] && ChainsOk(m0, old(chains)) && |old(owner)| == |m0| == mem.Length && node < |m0|
      ensures var s := View(m0, old(free), old(chains));
              if LinkClear(node, m0, s, key) then Valid() && Model() == MM.Push(s, v) else forall s' :: !Stands(s')
      ensures Remembers(key)
      ensures Loads(mem[..]) == old(Loads(mem[..]))
      ensures previous == NextPrevious(m0, old(smallest), old(largest), key, node)
    {
      var cached := TryEnds(node, v, key, m0, head0);
      if cached != NIL {
        NodeOf(m0, head0, free, chains, owner, tree, Elem(cached, key));
        StoreDuplicate(cached, node, v, m0, head0);
        Remember(cached);
      } else {
        StoreDescended(node, v, key, m0, head0);
        Remember(node);
      }
    }

    /** A slot in hand stored as written: the remembered node first, then the ends, then the descent. */
    method StoreAsWritten(node: nat, v: Value, key: int, ghost m0: seq<Cell>, ghost head0: nat)
      requires InHand(node, v, m0, head0) && node !in Ids(tree) && PreviousOk()
      requires key == v.key && Ordering(cmp) && Exact(cmp)
      modifies mem, this`root, this`smallest, this`largest, this`previous, this`tree, this`free, this`chains, this`owner
      ensures Remembers(key)
      ensures old(free) != [] && ChainsOk(m0, old(chains)) && |old(owner)| == |m0| == mem.Length
      ensures old(previous) < |m0| && node < |m0|
      ensures PushedIfFits(old(previous), node, m0, old(owner), View(m0, old(free), old(chains)), v)
      ensures Loads(mem[..]) == old(Loads(mem[..]))
      ensures previous == if old(previous != NIL && mem[previous].value.key == key) then old(previous)
                          else NextPrevious(m0, old(smallest), old(largest), key, node)
      ensures old(previous != NIL && mem[previous].value.key == key) && old(owner)[old(previous)].Live? ==>
                Valid() && Joined(Model(), View(m0, old(free), old(chains)), v, old(owner)[old(previous)].i)
    {
      if previous != NIL && cmp(key, mem[previous].value) == 0 {
        StoreHit(node, v, m0, head0);
      } else {
        MissFits(previous, node, m0, owner, View(m0, free, chains), v);
        StoreMissed(node, v, key, m0, head0);
      }
    }

    method StoreHit(node: nat, v: Value, ghost m0: seq<Cell>, ghost head0: nat)
      requires InHand(node, v, m0, head0) && FIRST <= previous < mem.Length && mem[previous].value.key == v.key
      modifies mem, this`tree, this`free, this`chains, this`owner
      ensures Remembers(v.key)
      ensures old(free) != [] && ChainsOk(m0, old(chains)) && |old(owner)| == |m0| == mem.Length
      ensures previous < |m0| && node < |m0|
      ensures PushedIfFits(previous, node, m0, old(owner), View(m0, old(free), old(chains)), v)
      ensures Loads(mem[..]) == old(Loads(mem[..]))
      ensures old(owner)[previous].Live? ==>
                Valid() && Joined(Model(), View(m0, old(free), old(chains)), v, old(owner)[previous].i)
    {
      ghost var s, o := View(m0, free, chains), owner;
      HitSpoils(previous, node, m0, head0, free, chains, owner, tree, v);
      HitFits(previous, node, m0, owner, s, v);
      StoreCached(previous, node, v, m0, head0);
      CachedPushed(previous, node, m0, o, s, v);
    }

    lemma CachedPushed(p: nat, node: nat, m0: seq<Cell>, o: seq<Owner>, s: MM.State, v: Value)
      requires p < |m0| == |o| && node < |m0| && s.room > 0
      requires Fits(p, node, m0, o, s, v) <==> Harmless(p, node, m0, o, s, v)
      requires Spoils(p, node, m0, o, s, v) ==> o[p].Free?
      requires Stands(MM.Push(s, v)) <==> Harmless(p, node, m0, o, s, v)
      requires Harmless(p, node, m0, o, s, v) ==> Valid() && Model() == MM.Push(s, v)
      requires o[p].Free? ==> forall s' :: !Stands(s')
      ensures PushedIfFits(p, node, m0, o, s, v)
    {
    }

    /** The memory stands for the push exactly if the put fits, and for nothing if the put spoils it. */
    ghost predicate PushedIfFits(p: nat, node: nat, m0: seq<Cell>, o: seq<Owner>, s: MM.State, v: Value)
      requires p < |m0| == |o| && node < |m0| && s.room > 0
      reads this, mem
    {
      && (Stands(MM.Push(s, v)) <==> Fits(p, node, m0, o, s, v))
      && (Fits(p, node, m0, o, s, v) ==> Valid() && Model() == MM.Push(s, v))
      && (Spoils(p, node, m0, o, s, v) ==> forall s' :: !Stands(s'))
    }

    /** Whether a put does what it should depends on the remembered node and on the slot's list link. */
    ghost predicate PutFits(v: Value)
      requires Valid() && PreviousOk()
      reads this, mem
    {
      freeCount > 0 ==> (
        FreeTop(mem[..], freeList, free, chains, owner, tree);
        Fits(previous, freeList, mem[..], owner, Model(), v))
    }

    /** With a put of the key under way, the remembered node answers for it: it has the key, or is the slot handed out. */
    ghost predicate Hit(key: int)
      requires Valid() && PreviousOk()
      reads this, mem
    {
      previous != NIL && (previous == freeList || mem[previous].value.key == key)
    }

    /** Whether it leaves memory that stands for nothing. */
    ghost predicate PutSpoils(v: Value)
      requires Valid() && PreviousOk()
      reads this, mem
    {
      freeCount > 0 && (
        FreeTop(mem[..], freeList, free, chains, owner, tree);
        Spoils(previous, freeList, mem[..], owner, Model(), v))
    }

    /**
     * The put as it is written, with the remembered node tried first and the list link of a new node
     * left alone: the result stands for the multimap with the value pushed exactly if the remembered
     * node is harmless and a slot for a new key has no list link left, and for nothing at all if the
     * remembered slot is free or that link is stale.
     */
    method PutAsWritten(v: Value, key: int) returns (out: MM.Outcome)
      requires Valid() && PreviousOk() && key == v.key && Ordering(cmp) && Exact(cmp)
      modifies this, mem
      ensures PreviousOk() && out == MM.Apply(old(Model()), MM.Put(v)).1
      ensures out == MM.Stored ==> Remembers(key)
      ensures Stands(MM.Apply(old(Model()), MM.Put(v)).0) <==> old(PutFits(v))
      ensures old(PutFits(v)) ==> Valid() && Model() == MM.Apply(old(Model()), MM.Put(v)).0
      ensures old(PutSpoils(v)) ==> forall s :: !Stands(s)
      ensures out == MM.Stored ==>
                && old(freeList) < mem.Length && Loads(mem[..]) == old(Loads(mem[..]))[old(freeList) := v]
                && previous == old(NextRemembered(key))
      ensures old(freeCount > 0 && Hit(key) && owner[previous].Live?) ==>
                Valid() && Joined(Model(), old(Model()), v, old(owner[previous].i))
    {
      if freeCount == 0 {
        StandsForModel(Model());
        return MM.Full;
      }
      ghost var m0, head0 := mem[..], freeList;
      var node := AllocAndPack(v);
      StoreAsWritten(node, v, key, m0, head0);
      return MM.Stored;
    }

    // -------------------------------------------------------------- taking

    /** The newest slot of the node's key: the head of its list, or else the node itself. */
    method DetachNode(base: nat) returns (p: nat)
      requires base < mem.Length && mem[base].list < mem.Length
      modifies mem
      ensures var m := old(mem[..]);
              if m[base].list == NULL then p == base && mem[..] == m
              else p == m[base].list && mem[..] == m[base := m[base].(list := m[p].list)]
    {
      if mem[base].list == NULL { return base; }
      p := mem[base].list;
      mem[base] := mem[base].(list := mem[p].list);
    }

    /** The slot of a node that has left the tree is freed. */
    method FreeTaken(node: nat, ghost c: Ctx, ghost u: Tree, ghost m: seq<Cell>)
      requires SlotsOk(m, freeList, free, chains, owner, tree) && freeCount == |free|
      requires u.Node? && tree == Plug(c, u) && RB(tree) && Ordered(Inorder(tree))
      requires FIRST <= node == u.e.id < |m| && m[node].list == NULL
      requires Kept(m, mem[..], Ids(tree) - {node} + {NIL}) && mem[NIL].color == Black
      requires TreeOk(mem[..], root, smallest, largest, Delete(c, u)) && node !in Ids(Delete(c, u))
      modifies mem, this`freeList, this`freeCount, this`tree, this`free, this`chains, this`owner
      ensures Valid() && ChainsOk(m, old(chains)) && u.e.key in View(m, old(free), old(chains)).stacks
      ensures MM.Pop(View(m, old(free), old(chains)), u.e.key) == (Model(), MM.Got(m[node].value))
      ensures Loads(mem[..]) == Loads(m)
    {
      ghost var m1, head := mem[..], freeList;
      FreeSlot(node);
      KeptLoads(m, m1, Ids(tree) - {node} + {NIL});
      SameLoad(m1, node, mem[node]);
      CommitDropped(c, u, m, m1, head);
    }

    ghost method CommitDropped(c: Ctx, u: Tree, m: seq<Cell>, m1: seq<Cell>, head: nat)
      requires SlotsOk(m, head, free, chains, owner, tree) && freeCount == |free| + 1
      requires u.Node? && tree == Plug(c, u) && RB(tree) && Ordered(Inorder(tree))
      requires FIRST <= u.e.id < |m| && m[u.e.id].list == NULL
      requires Kept(m, m1, Ids(tree) - {u.e.id} + {NIL}) && m1[NIL].color == Black
      requires TreeOk(m1, root, smallest, largest, Delete(c, u)) && u.e.id !in Ids(Delete(c, u))
      requires mem[..] == m1[u.e.id := m1[u.e.id].(parent := head, color := Red)] && freeList == u.e.id
      modifies this`tree, this`free, this`chains, this`owner
      ensures Valid() && ChainsOk(m, old(chains)) && u.e.key in View(m, old(free), old(chains)).stacks
      ensures MM.Pop(View(m, old(free), old(chains)), u.e.key) == (Model(), MM.Got(m[u.e.id].value))
    {
      ghost var free', chains', owner' :=
        DropDone(m, m1, root, smallest, largest, head, tree, c, u, free, chains, owner);
      Commit(Delete(c, u), free', chains', owner');
    }

    /** The last value of a key: its node leaves the tree. */
    method TakeNode(node: nat, ghost c: Ctx, ghost u: Tree)
      requires Valid() && tree == Plug(c, u) && u.Node? && FIRST <= node == u.e.id < mem.Length && mem[node].list == NULL
      modifies mem, this`root, this`smallest, this`largest, this`freeList, this`freeCount, this`tree, this`free, this`chains, this`owner
      ensures Valid() && u.e.key in old(Model()).stacks
      ensures MM.Pop(old(Model()), u.e.key) == (Model(), MM.Got(old(mem[node].value)))
      ensures Loads(mem[..]) == old(Loads(mem[..]))
    {
      ghost var m := mem[..];
      DeleteAndCache(node, c, u, tree);
      FreeTaken(node, c, u, m);
    }

    /** A detached slot, which held a value other than the oldest of its key, is freed. */
    method FreeDetached(p: nat, ghost e: Elem, ghost m: seq<Cell>)
      requires StoreOk(m, root, smallest, largest, freeList, tree, free, chains, owner) && freeCount == |free|
      requires e in Inorder(tree) && e.id < |m| && p == m[e.id].list != NULL && p < |m|
      requires mem[..] == m[e.id := m[e.id].(list := m[p].list)]
      modifies mem, this`freeList, this`freeCount, this`tree, this`free, this`chains, this`owner
      ensures Valid() && ChainsOk(m, old(chains)) && e.key in View(m, old(free), old(chains)).stacks
      ensures MM.Pop(View(m, old(free), old(chains)), e.key) == (Model(), MM.Got(m[p].value))
      ensures Loads(mem[..]) == Loads(m) && freeList == p && (p != e.id ==> mem[p].list == m[p].list)
    {
      SameLoad(m, e.id, mem[e.id]);
      SameLoad(mem[..], p, mem[p].(parent := freeList, color := Red));
      ghost var free', chains', owner' :=
        DetachDone(m, root, smallest, largest, freeList, tree, free, chains, owner, e, p);
      FreeSlot(p);
      assert mem[..] == DetachCells(m, e.id, p, old(freeList));
      Commit(tree, free', chains', owner');
    }

    /** The next slot to be handed out still has a list link. */
    ghost predicate StaleTop()
      reads this`freeList, mem
    {
      FIRST <= freeList < mem.Length && mem[freeList].list != NULL
    }

    /** The newest value under the node's key leaves, and the node with it if it was the only one. */
    method DetachAndDelete(node: nat, ghost c: Ctx, ghost u: Tree) returns (v: Value)
      requires Valid() && tree == Plug(c, u) && u.Node? && node == u.e.id
      modifies mem, this`root, this`smallest, this`largest, this`freeList, this`freeCount, this`tree, this`free, this`chains, this`owner
      ensures Valid() && u.e.key in old(Model()).stacks
      ensures MM.Pop(old(Model()), u.e.key) == (Model(), MM.Got(v))
      ensures Loads(mem[..]) == old(Loads(mem[..]))
      ensures |old(Model()).stacks[u.e.key]| > 2 ==> StaleTop()
    {
      ghost var m := mem[..];
      TakenPlace(m, freeList, tree, free, chains, owner, c, u);
      var p := DetachNode(node);
      v := mem[p].value;
      if p == node {
        TakeNode(node, c, u);
      } else {
        FreeDetached(p, u.e, m);
      }
    }

    method Take(key: int) returns (out: MM.Outcome)
      requires Valid() && Ordering(cmp)
      modifies mem, this`root, this`smallest, this`largest, this`freeList, this`freeCount, this`tree, this`free, this`chains, this`owner
      ensures Valid() && (Model(), out) == MM.Apply(old(Model()), MM.Take(key))
      ensures Loads(mem[..]) == old(Loads(mem[..]))
    {
      LookupMeans(mem[..], root, smallest, largest, freeList, tree, free, chains, owner, key);
      if root == NIL { return MM.Empty; }
      var found, parent, parentCmp;
      ghost var c, u, calls;
      found, parent, parentCmp, c, u, calls := Find(key, tree);
      if found == NIL { return MM.BadKey; }
      var v := DetachAndDelete(found, c, u);
      return MM.Got(v);
    }

    /** No cached node has the key: neither the remembered one nor the two ends. */
    ghost predicate Uncached(key: int)
      requires Valid() && PreviousOk()
      reads this, mem
    {
      CachedElems(mem[..], root, smallest, largest, tree);
      root != NIL ==>
        && key != mem[smallest].value.key && key != mem[largest].value.key
        && (previous != NIL ==> key != mem[previous].value.key)
    }

    /**
     * The keyed take as it is written: a cached node with the key has its value copied, and nothing
     * is removed. It is a take of the multimap exactly if no cached node has the key.
     */
    method TakeAsWritten(key: int) returns (out: MM.Outcome)
      requires Valid() && PreviousOk() && Ordering(cmp)
      modifies mem, this`root, this`smallest, this`largest, this`freeList, this`freeCount, this`tree, this`free, this`chains, this`owner
      ensures Valid()
      ensures (Model(), out) == MM.Apply(old(Model()), MM.Take(key)) <==> old(Uncached(key))
      ensures !old(Uncached(key)) ==> Model() == old(Model()) && out.Got? && out.value.key == key
      ensures !old(Uncached(key)) ==> mem[..] == old(mem[..])
      ensures old(root != NIL && previous != NIL && mem[previous].value.key == key) ==>
                out == MM.Got(old(mem[previous].value))
      ensures old(root != NIL && (previous == NIL || mem[previous].value.key != key)) && !old(Uncached(key)) ==>
                key in old(Model()).stacks && old(Model()).stacks[key] != [] && out == MM.Got(old(Model()).stacks[key][0])
    {
      CachedElems(mem[..], root, smallest, largest, tree);
      if root != NIL {
        CellKeys(mem[..], tree, NIL);
        CachedOldest(mem[..], root, smallest, largest, freeList, tree, free, chains, owner);
        var cached := CheckCache(key, mem[..], tree);
        if cached != NIL {
          MM.TakeRemoves(Model(), key, mem[cached].value);
          return MM.Got(mem[cached].value);
        }
      }
      out := Take(key);
    }

    /** The remembered key is taken, as written: the value stays. */
    method TakeRemembered(key: int) returns (out: MM.Outcome)
      requires Valid() && Ordering(cmp) && Remembers(key) && Model().stacks != map[]
      modifies mem, this`root, this`smallest, this`largest, this`freeList, this`freeCount, this`tree, this`free, this`chains, this`owner
      ensures Valid() && Model() == old(Model()) && out.Got? && out.value.key == key
      ensures (Model(), out) != MM.Apply(old(Model()), MM.Take(key))
      ensures out == MM.Got(old(mem[previous].value)) && mem[..] == old(mem[..])
    {
      ModelKeys(mem[..], root, smallest, largest, freeList, tree, free, chains, owner);
      assert !Uncached(key);
      out := TakeAsWritten(key);
    }

    /** A put that fits, as written. */
    method PutFitting(v: Value)
      requires Valid() && PreviousOk() && freeCount > 0 && PutFits(v) && Ordering(cmp) && Exact(cmp)
      modifies this, mem
      ensures Valid() && Model() == MM.Apply(old(Model()), MM.Put(v)).0
      ensures Remembers(v.key) && previous == old(NextRemembered(v.key))
      ensures old(freeList) < mem.Length && Loads(mem[..]) == old(Loads(mem[..]))[old(freeList) := v]
    {
      var stored := PutAsWritten(v, v.key);
    }

    /** The same, with the value that is remembered. */
    method PutRemembering(v: Value)
      requires Valid() && PreviousOk() && freeCount > 0 && PutFits(v) && Ordering(cmp) && Exact(cmp)
      modifies this, mem
      ensures Valid() && old(Model()).room > 0 && Model() == MM.Push(old(Model()), v) && Model().stacks != map[]
      ensures Remembers(v.key) && mem[previous].value == old(ValueRemembered(v))
    {
      MM.PutPushes(Model(), v);
      ghost var m0, head := mem[..], freeList;
      PutFitting(v);
      LoadAt(m0, mem[..], head, v, previous);
    }

    /** The value that a put of `v` remembers, as written. */
    ghost function ValueRemembered(v: Value): Value
      requires Valid() && PreviousOk()
      reads this, mem
    {
      var p := NextRemembered(v.key);
      if p == freeList || p >= mem.Length then v else mem[p].value
    }

    /** The node that a put of the key remembers, as written. */
    ghost function NextRemembered(key: int): nat
      requires Valid() && PreviousOk()
      reads this, mem
    {
      if Hit(key) then previous else NextPrevious(mem[..], smallest, largest, key, freeList)
    }

    /** A put that fits and then a take of its key, both as written: the value stays, whatever the tree held. */
    method PutThenTake(v: Value) returns (out: MM.Outcome)
      requires Valid() && PreviousOk() && freeCount > 0 && PutFits(v) && Ordering(cmp) && Exact(cmp)
      modifies this, mem
      ensures Valid() && old(Model()).room > 0 && Model() == MM.Push(old(Model()), v)
      ensures out == MM.Got(old(ValueRemembered(v)))
      ensures (Model(), out) != MM.Apply(MM.Push(old(Model()), v), MM.Take(v.key))
    {
      PutRemembering(v);
      out := TakeRemembered(v.key);
    }

    /** Put 1, 3 and 2, take 2, in a new tree: the key is at neither end, and still nothing is removed. */
    method PutsThenTake(a: Value, b: Value, c: Value) returns (out: MM.Outcome)
      requires Valid() && Model().stacks == map[] && Model().room >= 3 && Ordering(cmp) && Exact(cmp)
      requires a.key == 1 && b.key == 3 && c.key == 2
      modifies this, mem
      ensures Valid() && Model() == MM.State(map[1 := [a], 2 := [c], 3 := [b]], old(Model()).room - 3)
      ensures out == MM.Got(c)
    {
      PutApart(a, b, c);
      out := TakeRemembered(2);
    }

    method PutApart(a: Value, b: Value, c: Value)
      requires Valid() && Model().stacks == map[] && Model().room >= 3 && Ordering(cmp) && Exact(cmp)
      requires a.key == 1 && b.key == 3 && c.key == 2
      modifies this, mem
      ensures Valid() && Model() == MM.State(map[1 := [a], 2 := [c], 3 := [b]], old(Model()).room - 3)
      ensures Remembers(2) && mem[previous].value == c && Model().stacks != map[]
    {
      ghost var s := Model();
      MM.ThreePuts(s, a, b, c);
      var stored := Serve([MM.Put(a), MM.Put(b)]);
      PutNew(c);
    }

    /** A put of a key that is not there remembers the value. */
    method PutNew(v: Value)
      requires Valid() && Model().room > 0 && v.key !in Model().stacks && Ordering(cmp) && Exact(cmp)
      modifies this, mem
      ensures Valid() && old(Model()).room > 0 && Model() == MM.Push(old(Model()), v) && Model().stacks != map[]
      ensures Remembers(v.key) && mem[previous].value == v
    {
      MM.PutPushes(Model(), v);
      EndStored(mem[..], root, smallest, largest, freeList, tree, free, chains, owner, v.key);
      ghost var m0, head := mem[..], freeList;
      var stored := Put(v, v.key);
      LoadAt(m0, mem[..], head, v, previous);
    }

    lemma MemorySpoils(w: Value)
      requires Valid() && Remembers(w.key) && Model().room > 0 && w.key !in Model().stacks
      ensures PreviousOk() && PutSpoils(w)
    {
      KeyGone(mem[..], freeList, free, chains, owner, tree, previous, w);
    }

    lemma LinkSpoilsPut(w: Value)
      requires Valid() && PreviousOk() && StaleTop() && Model().room > 0 && w.key !in Model().stacks
      ensures PutSpoils(w)
    {
    }

    /** The last value of the remembered key is taken as the largest; then a put of the key, as written, is lost. */
    method TakeThenPut(w: Value) returns (out: MM.Outcome)
      requires Valid() && Remembers(w.key) && Ordering(cmp) && Exact(cmp)
      requires var stacks := Model().stacks;
               stacks != map[] && w.key == MM.GreatestKey(stacks.Keys) && |stacks[w.key]| == 1
      modifies this, mem
      ensures out == MM.Stored && forall s :: !Stands(s)
    {
      ghost var s, m := Model(), mem[..];
      MM.LargestGone(s);
      var taken := TakeLargest();
      SameValue(m, mem[..], previous);
      MemorySpoils(w);
      out := PutAsWritten(w, w.key);
    }

    /** Put 1 and 2, take the largest, put 2, in a new tree: the second value under 2 is lost. */
    method PutTakePut(a: Value, b: Value, w: Value) returns (out: MM.Outcome)
      requires Valid() && Model().stacks == map[] && Model().room >= 2 && Ordering(cmp) && Exact(cmp)
      requires a.key == 1 && b.key == 2 && w.key == 2
      modifies this, mem
      ensures out == MM.Stored && forall s :: !Stands(s)
    {
      MM.TwoPuts(Model(), a, b);
      var stored := Put(a, 1);
      stored := Put(b, 2);
      out := TakeThenPut(w);
    }

    /** A value is taken as the smallest from under more than two; then a put of a new key, as written, is lost. */
    method TakeThenPutNew(w: Value) returns (out: MM.Outcome)
      requires Valid() && PreviousOk() && Ordering(cmp) && Exact(cmp)
      requires MM.Crowded(Model()) && w.key !in Model().stacks
      modifies this, mem
      ensures out == MM.Stored && forall s :: !Stands(s)
    {
      TakeCrowded(w);
      out := PutAsWritten(w, w.key);
    }

    method TakeCrowded(ghost w: Value)
      requires Valid() && PreviousOk() && MM.Crowded(Model()) && w.key !in Model().stacks
      modifies mem, this`root, this`smallest, this`largest, this`freeList, this`freeCount, this`tree, this`free, this`chains, this`owner
      ensures Valid() && PreviousOk() && Model().room > 0 && PutSpoils(w)
    {
      ghost var s := MM.SmallestTaken(Model(), w.key);
      var taken := TakeSmallest();
      LinkSpoilsPut(w);
    }

    method PutThree(a: Value, b: Value, c: Value)
      requires Valid() && Model().room >= 3 && Ordering(cmp) && Exact(cmp)
      modifies this, mem
      ensures Valid() && PreviousOk() && Model() == MM.Push(MM.Push(MM.Push(old(Model()), a), b), c)
    {
      var stored := Put(a, a.key);
      stored := Put(b, b.key);
      stored := Put(c, c.key);
    }

    /** Three values under one key, take the smallest, put another key, in a new tree: memory is spoilt. */
    method PutsTakePut(a: Value, b: Value, c: Value, w: Value) returns (out: MM.Outcome)
      requires Valid() && Model().stacks == map[] && Model().room >= 3 && Ordering(cmp) && Exact(cmp)
      requires a.key == b.key == c.key != w.key
      modifies this, mem
      ensures out == MM.Stored && forall s :: !Stands(s)
    {
      MM.ThreeUnder(Model(), a, b, c);
      PutThree(a, b, c);
      out := TakeThenPutNew(w);
    }

    method TakeSmallest() returns (out: MM.Outcome)
      requires Valid()
      modifies mem, this`root, this`smallest, this`largest, this`freeList, this`freeCount, this`tree, this`free, this`chains, this`owner
      ensures Valid() && (Model(), out) == MM.Apply(old(Model()), MM.TakeSmallest)
      ensures Loads(mem[..]) == old(Loads(mem[..]))
      ensures MM.Crowded(old(Model())) ==> StaleTop()
    {
      if smallest == NIL {
        CachedElems(mem[..], root, smallest, largest, tree);
        ModelKeys(mem[..], root, smallest, largest, freeList, tree, free, chains, owner);
        return MM.Empty;
      }

      ghost var s := Model();
      ghost var c, u := SmallestPlace(mem[..], root, smallest, largest, freeList, tree, free, chains, owner);
      assert MM.Apply(s, MM.TakeSmallest) == MM.Pop(s, u.e.key);
      var v := DetachAndDelete(smallest, c, u);
      return MM.Got(v);
    }

    method TakeLargest() returns (out: MM.Outcome)
      requires Valid()
      modifies mem, this`root, this`smallest, this`largest, this`freeList, this`freeCount, this`tree, this`free, this`chains, this`owner
      ensures Valid() && (Model(), out) == MM.Apply(old(Model()), MM.TakeLargest)
      ensures Loads(mem[..]) == old(Loads(mem[..]))
    {
      if largest == NIL {
        CachedElems(mem[..], root, smallest, largest, tree);
        ModelKeys(mem[..], root, smallest, largest, freeList, tree, free, chains, owner);
        return MM.Empty;
      }

      ghost var s := Model();
      ghost var c, u := LargestPlace(mem[..], root, smallest, largest, freeList, tree, free, chains, owner);
      assert MM.Apply(s, MM.TakeLargest) == MM.Pop(s, u.e.key);
      var v := DetachAndDelete(largest, c, u);
      return MM.Got(v);
    }

    // -------------------------------------------------------------- whole runs

    method ServeOne(op: MM.Op) returns (out: MM.Outcome)
      requires Valid() && Ordering(cmp) && Exact(cmp)
      modifies this, mem
      ensures Valid() && (Model(), out) == MM.Apply(old(Model()), op)
      ensures MM.Done(old(Model()), Model(), out, op)
    {
      MM.ApplyDone(Model(), op);
      out := Dispatch(op);
    }

    method Dispatch(op: MM.Op) returns (out: MM.Outcome)
      requires Valid() && Ordering(cmp) && Exact(cmp)
      modifies this, mem
      ensures Valid() && (Model(), out) == MM.Apply(old(Model()), op)
    {
      match op {
        case Put(v) => out := Put(v, v.key);
        case Take(k) => out := Take(k);
        case TakeSmallest => out := TakeSmallest();
        case TakeLargest => out := TakeLargest();
      }
    }

    /**
     * Any sequence of requests, in any order, leaves the tree valid and gives the answers the
     * sorted multimap gives.
     */
    method Serve(ops: seq<MM.Op>) returns (outs: seq<MM.Outcome>)
      requires Valid() && Ordering(cmp) && Exact(cmp)
      modifies this, mem
      ensures Valid() && (Model(), outs) == MM.Run(old(Model()), ops)
      decreases ops
    {
      if ops == [] { return []; }
      var out := ServeOne(ops[0]);
      var rest := Serve(ops[1..]);
      return [out] + rest;
    }
  }

  /** The cached end that has the key, the largest tried first. */
  function EndWith(m: seq<Cell>, smallest: nat, largest: nat, key: int): nat {
    if largest != NIL && largest < |m| && m[largest].value.key == key then largest
    else if smallest != NIL && smallest < |m| && m[smallest].value.key == key then smallest
    else NIL
  }

  /** The node that a put remembers: an end that has the key, or else the slot it fills. */
  function NextPrevious(m: seq<Cell>, smallest: nat, largest: nat, key: int, node: nat): nat {
    var e := EndWith(m, smallest, largest, key);
    if e != NIL then e else node
  }

  /** An end with a key means that the key is stored. */
  lemma EndStored(m: seq<Cell>, root: nat, smallest: nat, largest: nat, head: nat, t: Tree,
                  free: seq<nat>, chains: Chains, owner: seq<Owner>, key: int)
    requires StoreOk(m, root, smallest, largest, head, t, free, chains, owner)
    ensures EndWith(m, smallest, largest, key) != NIL ==> key in View(m, free, chains).stacks
  {
    CachedElems(m, root, smallest, largest, t);
    ModelKeys(m, root, smallest, largest, head, t, free, chains, owner);
  }

  type Comparator = (int, Value) -> int

  /** The sign of the comparator's answers is the order of the keys. */
  ghost predicate Ordering(cmp: Comparator) {
    forall key: int, v: Value {:trigger cmp(key, v)} ::
      (cmp(key, v) < 0 <==> key < v.key) && (cmp(key, v) > 0 <==> key > v.key)
  }

  /** The comparator answers -1, 0 or 1. */
  ghost predicate Exact(cmp: Comparator) {
    forall key: int, v: Value {:trigger cmp(key, v)} :: -1 <= cmp(key, v) <= 1
  }

  /** The answer that led into the hole has the sign of the hole's side. */
  predicate Agrees(answer: int, c: Ctx) {
    if c.Top? then answer == 0 else if c.InLeft? then answer < 0 else answer > 0
  }
}
