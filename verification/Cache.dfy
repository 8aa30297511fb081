/**
 * The cached smallest and largest nodes, and why the links the cache updates read name the right
 * nodes: after an insertion, a link of the repaired tree; after a deletion, a link left behind in
 * the unlinked node.
 */
module Cache {
  import opened RedBlack
  import opened Search
  import opened Arena

  /** The caches name the first and the last node in key order, or nil in an empty tree. */
  predicate CacheOk(s: seq<Elem>, smallest: nat, largest: nat) {
    if s == [] then smallest == NIL && largest == NIL
    else smallest == s[0].id && largest == s[|s| - 1].id
  }

  predicate DistinctIds(s: seq<Elem>) {
    forall i, j :: 0 <= i < j < |s| ==> s[i].id != s[j].id
  }

  lemma {:induction false} InorderIds(t: Tree)
    ensures forall e :: e in Inorder(t) ==> e.id in Ids(t)
  {
    if t.Node? {
      InorderIds(t.left);
      InorderIds(t.right);
    }
  }

  lemma {:induction false} InorderDistinct(t: Tree)
    requires Distinct(t)
    ensures DistinctIds(Inorder(t))
  {
    if t.Node? {
      var l, r, s := Inorder(t.left), Inorder(t.right), Inorder(t);
      InorderDistinct(t.left);
      InorderDistinct(t.right);
      InorderIds(t.left);
      InorderIds(t.right);
      forall i, j | 0 <= i < j < |s| ensures s[i].id != s[j].id {
        if j < |l| {
          assert s[i] == l[i] && s[j] == l[j];
        } else if j == |l| {
          assert s[i] == l[i] && l[i] in l;
        } else if i > |l| {
          assert s[i] == r[i - |l| - 1] && s[j] == r[j - |l| - 1];
        } else {
          assert s[j] == r[j - |l| - 1] && r[j - |l| - 1] in r;
          if i < |l| { assert s[i] == l[i] && l[i] in l; }
        }
      }
    }
  }

  /** In a tree with distinct slots, an edge of the tree is a link in the arena. */
  lemma {:induction false} EdgeLink(m: seq<Cell>, t: Tree, parent: nat, p: nat, n: nat, onLeft: bool)
    requires Rep(m, t, parent) && Edge(t, p, n, onLeft)
    ensures p < |m| && (if onLeft then m[p].left else m[p].right) == n
    decreases t
  {
    if Edge(t.left, p, n, onLeft) {
      EdgeLink(m, t.left, t.e.id, p, n, onLeft);
    } else if Edge(t.right, p, n, onLeft) {
      EdgeLink(m, t.right, t.e.id, p, n, onLeft);
    }
  }

  // ---------------------------------------------------------------- after an insertion

  /**
   * The hole's parent is the smallest node, and the hole is on its left, exactly when nothing
   * comes before the hole.
   */
  lemma HoleBeside(c: Ctx, s: seq<Elem>, smallest: nat, largest: nat)
    requires c != Top && s == Before(c) + After(c) && DistinctIds(s) && CacheOk(s, smallest, largest)
    ensures c.InLeft? ==> After(c) != [] && (c.e.id == smallest <==> Before(c) == [])
    ensures c.InRight? ==> Before(c) != [] && (c.e.id == largest <==> After(c) == [])
  {
    if c.InLeft? {
      assert s[|Before(c)|] == After(c)[0] == c.e;
    } else {
      var b := Before(c);
      assert s[|b| - 1] == b[|b| - 1] == c.e;
    }
  }

  lemma CacheInsert(c: Ctx, e: Elem, smallest: nat, largest: nat)
    requires var s := Before(c) + After(c); DistinctIds(s) && CacheOk(s, smallest, largest)
    ensures var s' := Before(c) + [e] + After(c);
            CacheOk(s',
                    if Before(c) == [] then e.id else smallest,
                    if After(c) == [] then e.id else largest)
  {
  }

  // ---------------------------------------------------------------- after a deletion

  /** A subtree whose root lacks one child consists of the root and at most one red leaf. */
  lemma LoneChild(t: Tree)
    requires t.Node? && Balanced(t) && RedOk(t)
    ensures t.left.Leaf? && t.right.Node? ==>
              t.color == Black && t.right.color == Red && t.right.left.Leaf? && t.right.right.Leaf?
    ensures t.right.Leaf? && t.left.Node? ==>
              t.color == Black && t.left.color == Red && t.left.left.Leaf? && t.left.right.Leaf?
  {
    LeafHeight(t.left);
    LeafHeight(t.right);
    if t.left.Node? { LeafHeight(t.left.left); LeafHeight(t.left.right); }
    if t.right.Node? { LeafHeight(t.right.left); LeafHeight(t.right.right); }
  }

  lemma LeafHeight(t: Tree)
    ensures t.Node? && t.color == Black ==> BlackHeight(t) > 0
  {
  }

  /** Deleting the smallest node: what its stale links name afterwards. */
  lemma SmallestGone(c: Ctx, t: Tree)
    requires t.Node? && RB(Plug(c, t)) && Before(c) + Inorder(t.left) == []
    ensures t.left.Leaf?
    ensures t.right.Node? ==> Delete(c, t) == Plug(c, Blacken(t.right)) && t.right.left.Leaf?
    ensures var s' := Inorder(t.right) + After(c);
            && (t.right.Node? ==> s' != [] && s'[0].id == t.right.e.id)
            && (t.right.Leaf? && c != Top ==> s' != [] && s'[0].id == c.e.id)
            && (t.right.Leaf? && c == Top ==> s' == [])
  {
    assert Inorder(t.left) == [] && Before(c) == [];
    UnplugSound(c, t);
    LoneChild(t);
    assert c != Top ==> c.InLeft?;
  }

  lemma LargestGone(c: Ctx, t: Tree)
    requires t.Node? && RB(Plug(c, t)) && Inorder(t.right) + After(c) == []
    ensures t.right.Leaf?
    ensures t.left.Node? ==> Delete(c, t) == Plug(c, Blacken(t.left)) && t.left.right.Leaf?
    ensures var s' := Before(c) + Inorder(t.left);
            && (t.left.Node? ==> s' != [] && s'[|s'| - 1].id == t.left.e.id)
            && (t.left.Leaf? && c != Top ==> s' != [] && s'[|s'| - 1].id == c.e.id)
            && (t.left.Leaf? && c == Top ==> s' == [])
  {
    assert Inorder(t.right) == [] && After(c) == [];
    UnplugSound(c, t);
    LoneChild(t);
    assert c != Top ==> c.InRight?;
  }

  /** Removing an element that is neither first nor last leaves the caches right. */
  lemma CacheRemove(a: seq<Elem>, e: Elem, b: seq<Elem>, smallest: nat, largest: nat)
    requires DistinctIds(a + [e] + b) && CacheOk(a + [e] + b, smallest, largest)
    ensures e.id == smallest <==> a == []
    ensures e.id == largest <==> b == []
    ensures smallest == largest <==> a + b == []
    ensures a + b != [] ==>
              CacheOk(a + b,
                      if a == [] then b[0].id else smallest,
                      if b == [] then a[|a| - 1].id else largest)
  {
    var s := a + [e] + b;
    assert s[|a|] == e;
    if a != [] { assert s[0] == a[0]; }
    if b != [] { assert s[|s| - 1] == b[|b| - 1]; }
  }

  // ---------------------------------------------------------------- the tree as a whole

  /** The arena holds `t`, an ordered red-black tree, and the caches are right. */
  predicate TreeOk(m: seq<Cell>, root: nat, smallest: nat, largest: nat, t: Tree) {
    Focus(m, root, Top, t) && RB(t) && Ordered(Inorder(t)) && CacheOk(Inorder(t), smallest, largest)
  }

  lemma TreeFrame(m: seq<Cell>, m': seq<Cell>, root: nat, smallest: nat, largest: nat, t: Tree)
    requires TreeOk(m, root, smallest, largest, t) && AgreeOn(m, m', Ids(t))
    ensures TreeOk(m', root, smallest, largest, t)
  {
    RepFrame(m, m', t, NIL);
  }

  lemma TreeElems(m: seq<Cell>, root: nat, smallest: nat, largest: nat, t: Tree)
    requires TreeOk(m, root, smallest, largest, t)
    ensures DistinctIds(Inorder(t)) && forall e :: e in Inorder(t) ==> FIRST <= e.id < |m| && e.id in Ids(t)
  {
    InorderDistinct(t);
    InorderIds(t);
    IdsInArena(m, t, NIL);
  }

  lemma {:induction false} CellKeys(m: seq<Cell>, t: Tree, parent: nat)
    requires Rep(m, t, parent)
    ensures forall e :: e in Inorder(t) ==> FIRST <= e.id < |m| && m[e.id].value.key == e.key
    decreases t
  {
    if t.Node? {
      CellKeys(m, t.left, t.e.id);
      CellKeys(m, t.right, t.e.id);
    }
  }

  /** A cached node, if not nil, is a node of the tree. */
  lemma CachedElems(m: seq<Cell>, root: nat, smallest: nat, largest: nat, t: Tree)
    requires TreeOk(m, root, smallest, largest, t)
    ensures smallest != NIL ==> FIRST <= smallest < |m| && Elem(smallest, m[smallest].value.key) in Inorder(t)
    ensures largest != NIL ==> FIRST <= largest < |m| && Elem(largest, m[largest].value.key) in Inorder(t)
    ensures root == NIL <==> smallest == NIL
    ensures root == NIL <==> largest == NIL
    ensures root == NIL <==> Inorder(t) == []
  {
    CellKeys(m, t, NIL);
    var s := Inorder(t);
    if s != [] {
      assert s[0] in s && s[|s| - 1] in s;
    }
    if t.Node? { assert t.e in s; }
  }

  /** Filling a slot outside the tree changes no value in it. */
  lemma TreeValues(m: seq<Cell>, m': seq<Cell>, root: nat, smallest: nat, largest: nat, t: Tree, p: nat)
    requires TreeOk(m, root, smallest, largest, t) && p !in Ids(t) && |m'| == |m|
    requires forall i :: 0 <= i < |m| && i != p ==> m'[i] == m[i]
    ensures forall e :: e in Inorder(t) ==> e.id < |m'| && m'[e.id].value == m[e.id].value
  {
    CellKeys(m, t, NIL);
    InorderIds(t);
  }

  lemma FrameFocus(m: seq<Cell>, m': seq<Cell>, root: nat, smallest: nat, largest: nat, t: Tree, p: nat)
    requires TreeOk(m, root, smallest, largest, t) && p !in Ids(t) && |m'| == |m|
    requires forall i :: 0 <= i < |m| && i != p ==> m'[i] == m[i]
    ensures Focus(m', root, Top, t)
  {
    TreeFrame(m, m', root, smallest, largest, t);
  }

  /** What a lookup finds is an element of the tree. */
  lemma LocateElem(t: Tree, key: int)
    ensures var (c, u) := Locate(Top, t, key);
            Plug(c, u) == t && (u.Node? ==> u.e.key == key && u.e in Inorder(t))
  {
    var (c, u) := Locate(Top, t, key);
    LocatePlug(Top, t, key);
    PlugInorder(c, u);
  }

  /** In an ordered tree, looking up the key of an element leads to that element. */
  lemma ElemPlace(t: Tree, e: Elem)
    requires Ordered(Inorder(t)) && e in Inorder(t)
    ensures var (c, u) := Locate(Top, t, e.key); Plug(c, u) == t && u.Node? && u.e == e
  {
    var (c, u) := Locate(Top, t, e.key);
    LocateElem(t, e.key);
    if u.Leaf? {
      LocateMiss(t, e.key);
    } else {
      var s := Inorder(t);
      var i :| 0 <= i < |s| && s[i] == e;
      var j :| 0 <= j < |s| && s[j] == u.e;
      assert i == j;
    }
  }
}
