/**
 * Descent by key, the order of a tree's elements, and the child links that survive an insertion.
 */
module Search {
  import opened Words
  import opened RedBlack

  predicate Ordered(s: seq<Elem>) {
    forall i, j :: 0 <= i < j < |s| ==> s[i].key < s[j].key
  }

  predicate AllBelow(s: seq<Elem>, key: int) {
    forall i :: 0 <= i < |s| ==> s[i].key < key
  }

  predicate AllAbove(s: seq<Elem>, key: int) {
    forall i :: 0 <= i < |s| ==> key < s[i].key
  }

  /** The descent of a lookup: it stops at a match or at a leaf, remembering how it got there. */
  function Locate(c: Ctx, t: Tree, key: int): (Ctx, Tree)
    decreases t
  {
    if t.Leaf? || key == t.e.key then (c, t)
    else if key < t.e.key then Locate(InLeft(c, t.e, t.color, t.right), t.left, key)
    else Locate(InRight(t.left, t.e, t.color, c), t.right, key)
  }

  /** Comparator calls made by that descent. */
  function Comparisons(t: Tree, key: int): nat {
    if t.Leaf? then 0
    else if key == t.e.key then 1
    else 1 + Comparisons(if key < t.e.key then t.left else t.right, key)
  }

  /** One call for each node on the way down, and one for the node found. */
  lemma {:induction false} CallsOnTheWay(c: Ctx, t: Tree, key: int)
    ensures var (hole, found) := Locate(c, t, key);
            Depth(c) + Comparisons(t, key) == Depth(hole) + if found.Node? then 1 else 0
    decreases t
  {
    if t.Node? && key < t.e.key {
      CallsOnTheWay(InLeft(c, t.e, t.color, t.right), t.left, key);
    } else if t.Node? && t.e.key < key {
      CallsOnTheWay(InRight(t.left, t.e, t.color, c), t.right, key);
    }
  }

  lemma {:induction false} LocatePlug(c: Ctx, t: Tree, key: int)
    ensures var (c', t') := Locate(c, t, key); Plug(c', t') == Plug(c, t)
    ensures var (c', t') := Locate(c, t, key); t'.Node? ==> t'.e.key == key
    decreases t
  {
    if t.Node? && key < t.e.key {
      LocatePlug(InLeft(c, t.e, t.color, t.right), t.left, key);
    } else if t.Node? && t.e.key < key {
      LocatePlug(InRight(t.left, t.e, t.color, c), t.right, key);
    }
  }

  lemma OrderedParts(a: seq<Elem>, e: Elem, b: seq<Elem>)
    requires Ordered(a + [e] + b)
    ensures Ordered(a) && Ordered(b) && AllBelow(a, e.key) && AllAbove(b, e.key)
  {
    var s := a + [e] + b;
    assert s[|a|] == e;
    forall i | 0 <= i < |a| ensures a[i].key < e.key { assert s[i] == a[i]; }
    forall i | 0 <= i < |b| ensures e.key < b[i].key { assert s[|a| + 1 + i] == b[i]; }
    forall i, j | 0 <= i < j < |a| ensures a[i].key < a[j].key { assert s[i] == a[i] && s[j] == a[j]; }
    forall i, j | 0 <= i < j < |b| ensures b[i].key < b[j].key {
      assert s[|a| + 1 + i] == b[i] && s[|a| + 1 + j] == b[j];
    }
  }

  lemma OrderedInsert(a: seq<Elem>, e: Elem, b: seq<Elem>)
    requires Ordered(a + b) && AllBelow(a, e.key) && AllAbove(b, e.key)
    ensures Ordered(a + [e] + b)
  {
    var s, s' := a + b, a + [e] + b;
    forall i, j | 0 <= i < j < |s'| ensures s'[i].key < s'[j].key {
      if i < |a| && j > |a| { assert s'[i] == s[i] && s'[j] == s[j - 1]; }
      if j < |a| { assert s'[i] == s[i] && s'[j] == s[j]; }
      if i > |a| { assert s'[i] == s[i - 1] && s'[j] == s[j - 1]; }
    }
  }

  lemma OrderedRemove(a: seq<Elem>, e: Elem, b: seq<Elem>)
    requires Ordered(a + [e] + b)
    ensures Ordered(a + b)
  {
    var s, s' := a + [e] + b, a + b;
    forall i, j | 0 <= i < j < |s'| ensures s'[i].key < s'[j].key {
      assert s'[i] == s[if i < |a| then i else i + 1];
      assert s'[j] == s[if j < |a| then j else j + 1];
    }
  }

  /** In an ordered tree, what lies before the place reached is smaller, what lies after is larger. */
  lemma {:induction false} LocateFits(c: Ctx, t: Tree, key: int)
    requires Ordered(Inorder(t))
    requires AllBelow(Before(c), key) && AllAbove(After(c), key)
    ensures var (c', t') := Locate(c, t, key);
            AllBelow(Before(c'), key) && AllAbove(After(c'), key)
    decreases t
  {
    if t.Node? {
      OrderedParts(Inorder(t.left), t.e, Inorder(t.right));
      if key < t.e.key {
        LocateFits(InLeft(c, t.e, t.color, t.right), t.left, key);
      } else if t.e.key < key {
        LocateFits(InRight(t.left, t.e, t.color, c), t.right, key);
      }
    }
  }

  /** A lookup that ends at a leaf is in a tree without the key, at a place where the key fits. */
  lemma LocateMiss(t: Tree, key: int)
    requires Ordered(Inorder(t)) && Locate(Top, t, key).1.Leaf?
    ensures forall e :: e in Inorder(t) ==> e.key != key
    ensures var c := Locate(Top, t, key).0;
            && Plug(c, Leaf) == t && Inorder(t) == Before(c) + After(c)
            && AllBelow(Before(c), key) && AllAbove(After(c), key)
  {
    var c := Locate(Top, t, key).0;
    LocatePlug(Top, t, key);
    LocateFits(Top, t, key);
    PlugInorder(c, Leaf);
  }

  lemma AboveParts(e: Elem, s: seq<Elem>, after: seq<Elem>, key: int)
    requires AllAbove([e] + s + after, key)
    ensures key < e.key && AllAbove(after, key)
  {
    var all := [e] + s + after;
    assert all[0] == e;
    forall i | 0 <= i < |after| ensures key < after[i].key { assert after[i] == all[1 + |s| + i]; }
  }

  lemma BelowParts(before: seq<Elem>, s: seq<Elem>, e: Elem, key: int)
    requires AllBelow(before + s + [e], key)
    ensures e.key < key && AllBelow(before, key)
  {
    var all := before + s + [e];
    assert all[|before| + |s|] == e;
    forall i | 0 <= i < |before| ensures before[i].key < key { assert before[i] == all[i]; }
  }

  /** Every hole that can take the key without breaking the order is the one the lookup finds. */
  lemma {:induction false} LocateThrough(c: Ctx, t: Tree, key: int)
    requires AllBelow(Before(c), key) && AllAbove(After(c), key)
    ensures Locate(Top, Plug(c, t), key) == Locate(c, t, key)
    decreases c
  {
    match c
    case Top =>
    case InLeft(up, e, k, r) =>
      AboveParts(e, Inorder(r), After(up), key);
      LocateThrough(up, Node(t, e, k, r), key);
    case InRight(l, e, k, up) =>
      BelowParts(Before(up), Inorder(l), e, key);
      LocateThrough(up, Node(l, e, k, t), key);
  }

  lemma UniqueHole(c: Ctx, e: Elem, k: Color)
    requires Ordered(Inorder(Plug(c, Node(Leaf, e, k, Leaf))))
    ensures Locate(Top, Plug(c, Leaf), e.key) == (c, Leaf)
  {
    PlugInorder(c, Node(Leaf, e, k, Leaf));
    assert Inorder(Node(Leaf, e, k, Leaf)) == [e];
    OrderedParts(Before(c), e, After(c));
    LocateThrough(c, Leaf, e.key);
  }

  lemma {:induction false} ComparisonsAtMostHeight(t: Tree, key: int)
    ensures Comparisons(t, key) <= Height(t)
  {
    if t.Node? {
      ComparisonsAtMostHeight(t.left, key);
      ComparisonsAtMostHeight(t.right, key);
    }
  }

  /** A lookup in a red-black tree of n nodes makes at most 2 log2(n + 1) comparisons. */
  lemma LookupCost(t: Tree, key: int)
    requires RB(t)
    ensures Pow2(Comparisons(t, key)) <= (Size(t) + 1) * (Size(t) + 1)
  {
    ComparisonsAtMostHeight(t, key);
    HeightBound(t);
    Pow2Divides(Comparisons(t, key), Height(t));
  }

  /**
   * The tree after linking `n` below the parent of the hole `c`: a comparator result of exactly -1
   * overwrites the parent's left link, any other its right link.
   */
  function LinkBySign(c: Ctx, cmp: int, n: Tree): Tree
    requires c != Top
  {
    var (l, r) := if c.InLeft? then (Leaf, c.right) else (c.left, Leaf);
    Plug(c.up, if cmp == -1 then Node(n, c.e, c.color, r) else Node(l, c.e, c.color, n))
  }

  /**
   * Lookup goes left on any negative comparator result. The link keeps the order exactly when that
   * result was -1, so a comparator may answer "less" only with -1.
   */
  lemma LinkOrderedIff(t: Tree, e: Elem, cmp: int)
    requires Ordered(Inorder(t)) && Locate(Top, t, e.key).1.Leaf?
    requires var c := Locate(Top, t, e.key).0;
             c != Top && (cmp < 0 <==> e.key < c.e.key) && (cmp > 0 <==> e.key > c.e.key)
    ensures var c := Locate(Top, t, e.key).0;
            Ordered(Inorder(LinkBySign(c, cmp, Node(Leaf, e, Red, Leaf)))) <==> cmp >= -1
  {
    var c := Locate(Top, t, e.key).0;
    var n := Node(Leaf, e, Red, Leaf);
    LocateMiss(t, e.key);
    LocateSide(Top, t, e.key);
    if cmp >= -1 {
      assert LinkBySign(c, cmp, n) == Plug(c, n);
      PlugInorder(c, n);
      assert Inorder(n) == [e];
      OrderedInsert(Before(c), e, After(c));
    } else {
      var wrong := Node(Leaf, c.e, c.color, n);
      assert LinkBySign(c, cmp, n) == Plug(c.up, wrong);
      PlugInorder(c.up, wrong);
      var s := Inorder(Plug(c.up, wrong));
      assert Inorder(wrong) == [c.e, e];
      var i := |Before(c.up)|;
      assert s[i] == c.e && s[i + 1] == e;
    }
  }

  /** The hole is on the side of its parent that the key's order demands. */
  lemma {:induction false} LocateSide(c: Ctx, t: Tree, key: int)
    requires c != Top ==> (if c.InLeft? then key < c.e.key else c.e.key < key)
    ensures var c' := Locate(c, t, key).0;
            c' != Top ==> (if c'.InLeft? then key < c'.e.key else c'.e.key < key)
    decreases t
  {
    if t.Node? && key < t.e.key {
      LocateSide(InLeft(c, t.e, t.color, t.right), t.left, key);
    } else if t.Node? && t.e.key < key {
      LocateSide(InRight(t.left, t.e, t.color, c), t.right, key);
    }
  }

  // ---------------------------------------------------------------- links that survive insertion

  /** Somewhere in `t`, node `n` is the left (or right) child of node `p`. */
  predicate Edge(t: Tree, p: nat, n: nat, onLeft: bool) {
    t.Node? &&
    (|| (t.e.id == p && var s := (if onLeft then t.left else t.right); s.Node? && s.e.id == n)
     || Edge(t.left, p, n, onLeft)
     || Edge(t.right, p, n, onLeft))
  }

  lemma {:induction false} PlugEdge(c: Ctx, t: Tree, p: nat, n: nat, onLeft: bool)
    requires Edge(t, p, n, onLeft)
    ensures Edge(Plug(c, t), p, n, onLeft)
    decreases c
  {
    if c != Top { PlugEdge(c.up, Join(c, t), p, n, onLeft); }
  }

  /** Further up, the insertion repair moves the node's two subtrees whole. */
  lemma {:induction false} InsertFixKeepsEdge(c: Ctx, t: Tree, p: nat, n: nat, onLeft: bool)
    requires t.Node? && (Edge(t.left, p, n, onLeft) || Edge(t.right, p, n, onLeft))
    ensures Edge(InsertFix(c, t), p, n, onLeft)
    decreases c
  {
    if !RedParent(c) {
      PlugEdge(c, t, p, n, onLeft);
    } else if ColorOf(Sibling(c.up)) == Red {
      var q := Blacken(Join(c, t));
      assert Edge(q, p, n, onLeft);
      InsertFixKeepsEdge(c.up.up, PushUp(c, t), p, n, onLeft);
    } else {
      var u := RotateUp(c, t);
      assert Edge(u.left, p, n, onLeft) || Edge(u.right, p, n, onLeft) || Edge(t, p, n, onLeft);
      PlugEdge(c.up.up, u, p, n, onLeft);
    }
  }

  /** A new smallest (largest) node is still its parent's left (right) child after the repair. */
  lemma InsertExtreme(c: Ctx, e: Elem, onLeft: bool)
    requires if onLeft then c.InLeft? && Before(c) == [] else c.InRight? && After(c) == []
    ensures Edge(Insert(c, e), c.e.id, e.id, onLeft)
  {
    var t := Node(Leaf, e, Red, Leaf);
    var p, n := c.e.id, e.id;
    assert Edge(Join(c, t), p, n, onLeft);
    if !RedParent(c) {
      PlugEdge(c.up, Join(c, t), p, n, onLeft);
    } else {
      assert c.up.InLeft? == onLeft;
      if ColorOf(Sibling(c.up)) == Red {
        assert Edge(Blacken(Join(c, t)), p, n, onLeft);
        InsertFixKeepsEdge(c.up.up, PushUp(c, t), p, n, onLeft);
      } else {
        assert Edge(RotateUp(c, t), p, n, onLeft);
        PlugEdge(c.up.up, RotateUp(c, t), p, n, onLeft);
      }
    }
    assert Edge(InsertFix(c, t), p, n, onLeft);
  }
}
