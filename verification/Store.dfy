/**
 * The tree, its caches, the chains of duplicates and the free list together, on a snapshot of the
 * arena, and what each kind of request does to the multimap they stand for.
 */
module Store {
  import opened RedBlack
  import opened Search
  import opened Arena
  import opened Cache
  import opened Slots
  import MM = Multimap

  predicate StoreOk(m: seq<Cell>, root: nat, smallest: nat, largest: nat, head: nat,
                    t: Tree, free: seq<nat>, chains: Chains, owner: seq<Owner>)
  {
    && FIRST <= |m| && m[NIL].color == Black
    && TreeOk(m, root, smallest, largest, t) && SlotsOk(m, head, free, chains, owner, t)
  }

  /** The multimap that the chains and the free list stand for. */
  function View(m: seq<Cell>, free: seq<nat>, chains: Chains): (s: MM.State)
    requires ChainsOk(m, chains)
    ensures MM.Wf(s)
  {
    StacksFiled(m, chains);
    MM.State(Stacks(m, chains), |free|)
  }

  lemma PushView(m: seq<Cell>, m': seq<Cell>, free: seq<nat>, chains: Chains, chains': Chains, v: Value)
    requires ChainsOk(m, chains) && ChainsOk(m', chains') && free != []
    requires Stacks(m', chains') ==
             Stacks(m, chains)[v.key := (if v.key in chains then Stacks(m, chains)[v.key] else []) + [v]]
    ensures View(m', free[..|free| - 1], chains') == MM.Push(View(m, free, chains), v)
  {
  }

  lemma PopView(m: seq<Cell>, m': seq<Cell>, free: seq<nat>, chains: Chains, chains': Chains, k: int, p: nat)
    requires ChainsOk(m, chains) && ChainsOk(m', chains') && k in chains && chains[k] != []
    requires p == chains[k][|chains[k]| - 1] < |m|
    requires Stacks(m', chains') ==
             if |chains[k]| == 1 then Stacks(m, chains) - {k}
             else Stacks(m, chains)[k := Stacks(m, chains)[k][..|chains[k]| - 1]]
    ensures MM.Pop(View(m, free, chains), k) == (View(m', free + [p], chains'), MM.Got(m[p].value))
  {
    assert ChainOk(m, k, chains[k]);
  }

  // ---------------------------------------------------------------- a value attached to a node

  lemma AttachStored(m: seq<Cell>, root: nat, smallest: nat, largest: nat, head: nat, t: Tree,
                     free: seq<nat>, chains: Chains, owner: seq<Owner>, v: Value, base: nat)
    requires StoreOk(m, root, smallest, largest, head, t, free, chains, owner) && free != [] && |owner| == |m|
    requires FIRST <= free[|free| - 1] < |m| && v.key in chains && chains[v.key] != []
    requires FIRST <= base == chains[v.key][0] < |m|
    ensures var p := free[|free| - 1];
            StoreOk(AttachCells(m, p, base, v), root, smallest, largest, m[p].parent, t, free[..|free| - 1],
                    Pushed(chains, v.key, p), owner[p := Live(v.key, |ChainOf(chains, v.key)|)])
  {
    AttachStep(m, head, free, chains, owner, t, v);
    TreeFrame(m, AttachCells(m, free[|free| - 1], base, v), root, smallest, largest, t);
  }

  lemma AttachView(m: seq<Cell>, head: nat, t: Tree, free: seq<nat>, chains: Chains, owner: seq<Owner>, v: Value)
    requires SlotsOk(m, head, free, chains, owner, t) && free != [] && |owner| == |m|
    requires free[|free| - 1] < |m| && v.key in chains && chains[v.key] != [] && chains[v.key][0] < |m|
    ensures var p := free[|free| - 1];
            var m', chains' := AttachCells(m, p, chains[v.key][0], v), Pushed(chains, v.key, p);
            && ChainsOk(m', chains')
            && View(m', free[..|free| - 1], chains') == MM.Push(View(m, free, chains), v)
  {
    var p := free[|free| - 1];
    AttachStep(m, head, free, chains, owner, t, v);
    PushView(m, AttachCells(m, p, chains[v.key][0], v), free, chains, Pushed(chains, v.key, p), v);
  }

  /** The slot in hand has been attached to its key's node. */
  lemma AttachDone(m: seq<Cell>, root: nat, smallest: nat, largest: nat, head: nat, t: Tree,
                   free: seq<nat>, chains: Chains, owner: seq<Owner>, v: Value, base: nat, p: nat)
    returns (free': seq<nat>, chains': Chains, owner': seq<Owner>)
    requires StoreOk(m, root, smallest, largest, head, t, free, chains, owner) && free != [] && |owner| == |m|
    requires FIRST <= p == free[|free| - 1] < |m| && Elem(base, v.key) in Inorder(t)
    ensures base < |m| && StoreOk(AttachCells(m, p, base, v), root, smallest, largest, m[p].parent, t, free', chains', owner')
    ensures |free'| == |free| - 1 && View(AttachCells(m, p, base, v), free', chains') == MM.Push(View(m, free, chains), v)
  {
    NodeOf(m, head, free, chains, owner, t, Elem(base, v.key));
    free', chains' := free[..|free| - 1], Pushed(chains, v.key, p);
    owner' := owner[p := Live(v.key, |ChainOf(chains, v.key)|)];
    AttachStored(m, root, smallest, largest, head, t, free, chains, owner, v, base);
    AttachView(m, head, t, free, chains, owner, v);
  }

  // ---------------------------------------------------------------- a value in a new node

  lemma NilKept(m: seq<Cell>, m': seq<Cell>, t: Tree, p: nat, v: Value)
    requires Rep(m, t, NIL) && FIRST <= p < |m|
    requires Kept(m[p := m[p].(value := v, list := NULL)], m', Ids(t) + {p})
    ensures |m'| == |m| && m'[NIL] == m[NIL]
  {
    IdsInArena(m, t, NIL);
    assert NIL !in Ids(t) + {p};
  }

  lemma LinkStored(m: seq<Cell>, m': seq<Cell>, root: nat, smallest: nat, largest: nat, head: nat, t: Tree, t': Tree,
                   free: seq<nat>, chains: Chains, owner: seq<Owner>, v: Value, a: seq<Elem>, b: seq<Elem>)
    requires SlotsOk(m, head, free, chains, owner, t) && free != [] && v.key !in chains
    requires FIRST <= free[|free| - 1] < |m| == |owner| && m[NIL].color == Black && Rep(m, t, NIL)
    requires var p := free[|free| - 1]; Kept(m[p := m[p].(value := v, list := NULL)], m', Ids(t) + {p})
    requires Inorder(t) == a + b && Inorder(t') == a + [Elem(free[|free| - 1], v.key)] + b
    requires TreeOk(m', root, smallest, largest, t')
    ensures var p := free[|free| - 1];
            StoreOk(m', root, smallest, largest, m[p].parent, t', free[..|free| - 1],
                    Pushed(chains, v.key, p), owner[p := Live(v.key, |ChainOf(chains, v.key)|)])
  {
    NilKept(m, m', t, free[|free| - 1], v);
    LinkStep(m, m', head, free, chains, owner, t, t', v, a, b);
  }

  lemma LinkView(m: seq<Cell>, m': seq<Cell>, head: nat, t: Tree, t': Tree,
                 free: seq<nat>, chains: Chains, owner: seq<Owner>, v: Value, a: seq<Elem>, b: seq<Elem>)
    requires SlotsOk(m, head, free, chains, owner, t) && free != [] && v.key !in chains
    requires free[|free| - 1] < |m| == |owner|
    requires var p := free[|free| - 1]; Kept(m[p := m[p].(value := v, list := NULL)], m', Ids(t) + {p})
    requires Inorder(t) == a + b && Inorder(t') == a + [Elem(free[|free| - 1], v.key)] + b
    ensures var p := free[|free| - 1];
            var chains' := Pushed(chains, v.key, p);
            ChainsOk(m', chains') && View(m', free[..|free| - 1], chains') == MM.Push(View(m, free, chains), v)
  {
    LinkStep(m, m', head, free, chains, owner, t, t', v, a, b);
    assert [] + [v] == [v];
    PushView(m, m', free, chains, Pushed(chains, v.key, free[|free| - 1]), v);
  }

  /** Where a lookup ends with nothing, the key is not stored, and the new node goes between what lies around it. */
  lemma LinkPlace(t: Tree, c: Ctx, chains: Chains, k: int, p: nat)
    requires Rooted(t, chains) && RB(t) && Ordered(Inorder(t)) && (c, Leaf) == Locate(Top, t, k)
    ensures k !in chains && Pushed(chains, k, p)[k] == [p]
    ensures Inorder(t) == Before(c) + After(c)
    ensures Inorder(Insert(c, Elem(p, k))) == Before(c) + [Elem(p, k)] + After(c)
  {
    LocateMiss(t, k);
    KeyAbsent(t, chains, k);
    InsertSound(c, Elem(p, k));
  }

  /** The slot in hand has become the node where the lookup of its key had ended. */
  lemma LinkDone(m: seq<Cell>, m': seq<Cell>, root: nat, smallest: nat, largest: nat, head: nat, t: Tree, c: Ctx,
                 free: seq<nat>, chains: Chains, owner: seq<Owner>, v: Value, p: nat)
    returns (free': seq<nat>, chains': Chains, owner': seq<Owner>)
    requires SlotsOk(m, head, free, chains, owner, t) && free != []
    requires FIRST <= p == free[|free| - 1] < |m| == |owner| && m[NIL].color == Black
    requires Rep(m, t, NIL) && RB(t) && Ordered(Inorder(t)) && (c, Leaf) == Locate(Top, t, v.key)
    requires Kept(m[p := m[p].(value := v, list := NULL)], m', Ids(t) + {p})
    requires TreeOk(m', root, smallest, largest, Insert(c, Elem(p, v.key)))
    ensures StoreOk(m', root, smallest, largest, m[p].parent, Insert(c, Elem(p, v.key)), free', chains', owner')
    ensures |free'| == |free| - 1 && View(m', free', chains') == MM.Push(View(m, free, chains), v)
    ensures v.key in chains' && chains'[v.key] == [p]
  {
    free', chains' := free[..|free| - 1], Pushed(chains, v.key, p);
    owner' := owner[p := Live(v.key, |ChainOf(chains, v.key)|)];
    var t' := Insert(c, Elem(p, v.key));
    LinkPlace(t, c, chains, v.key, p);
    LinkStored(m, m', root, smallest, largest, head, t, t', free, chains, owner, v, Before(c), After(c));
    LinkView(m, m', head, t, t', free, chains, owner, v, Before(c), After(c));
  }

  // ---------------------------------------------------------------- a duplicate taken out

  lemma DetachStored(m: seq<Cell>, root: nat, smallest: nat, largest: nat, head: nat, t: Tree,
                     free: seq<nat>, chains: Chains, owner: seq<Owner>, e: Elem, p: nat)
    requires StoreOk(m, root, smallest, largest, head, t, free, chains, owner) && |owner| == |m|
    requires e.key in chains && |chains[e.key]| > 1 && InRange(m, chains[e.key])
    requires FIRST <= e.id == chains[e.key][0] && FIRST <= p == chains[e.key][|chains[e.key]| - 1]
    ensures StoreOk(DetachCells(m, e.id, p, head), root, smallest, largest, p, t,
                    free + [p], Popped(chains, e.key), owner[p := Free(|free|)])
  {
    DetachStep(m, head, free, chains, owner, t, e.key);
    TreeFrame(m, DetachCells(m, e.id, p, head), root, smallest, largest, t);
  }

  lemma DetachView(m: seq<Cell>, head: nat, t: Tree, free: seq<nat>, chains: Chains, owner: seq<Owner>, e: Elem, p: nat)
    requires SlotsOk(m, head, free, chains, owner, t) && |owner| == |m|
    requires e.key in chains && |chains[e.key]| > 1 && InRange(m, chains[e.key])
    requires e.id == chains[e.key][0] && p == chains[e.key][|chains[e.key]| - 1]
    ensures var m', chains' := DetachCells(m, e.id, p, head), Popped(chains, e.key);
            && ChainsOk(m', chains')
            && MM.Pop(View(m, free, chains), e.key) == (View(m', free + [p], chains'), MM.Got(m[p].value))
  {
    DetachStep(m, head, free, chains, owner, t, e.key);
    PopView(m, DetachCells(m, e.id, p, head), free, chains, Popped(chains, e.key), e.key, p);
  }

  /** The newest slot of a key has been detached from its node and freed. */
  lemma DetachDone(m: seq<Cell>, root: nat, smallest: nat, largest: nat, head: nat, t: Tree,
                   free: seq<nat>, chains: Chains, owner: seq<Owner>, e: Elem, p: nat)
    returns (free': seq<nat>, chains': Chains, owner': seq<Owner>)
    requires StoreOk(m, root, smallest, largest, head, t, free, chains, owner)
    requires e in Inorder(t) && e.id < |m| && p == m[e.id].list != NULL
    ensures p < |m| && StoreOk(DetachCells(m, e.id, p, head), root, smallest, largest, p, t, free', chains', owner')
    ensures |free'| == |free| + 1 && e.key in View(m, free, chains).stacks && p != e.id
    ensures MM.Pop(View(m, free, chains), e.key) ==
            (View(DetachCells(m, e.id, p, head), free', chains'), MM.Got(m[p].value))
  {
    NodeOf(m, head, free, chains, owner, t, e);
    NewestOf(m, head, free, chains, owner, t, e);
    free', chains', owner' := free + [p], Popped(chains, e.key), owner[p := Free(|free|)];
    DetachStored(m, root, smallest, largest, head, t, free, chains, owner, e, p);
    DetachView(m, head, t, free, chains, owner, e, p);
  }

  // ---------------------------------------------------------------- a node taken out

  lemma DropStored(m: seq<Cell>, m1: seq<Cell>, root: nat, smallest: nat, largest: nat, head: nat, t: Tree, t': Tree,
                   free: seq<nat>, chains: Chains, owner: seq<Owner>, e: Elem, a: seq<Elem>, b: seq<Elem>)
    requires SlotsOk(m, head, free, chains, owner, t) && e.key in chains && chains[e.key] == [e.id]
    requires FIRST <= e.id < |m| == |owner| && Kept(m, m1, Ids(t) - {e.id} + {NIL}) && m1[NIL].color == Black
    requires Ordered(Inorder(t)) && Inorder(t) == a + [e] + b && Inorder(t') == a + b && e.id !in Ids(t')
    requires TreeOk(m1, root, smallest, largest, t')
    ensures StoreOk(m1[e.id := m1[e.id].(parent := head, color := Red)], root, smallest, largest, e.id, t',
                    free + [e.id], Popped(chains, e.key), owner[e.id := Free(|free|)])
  {
    var m' := m1[e.id := m1[e.id].(parent := head, color := Red)];
    TreeFrame(m1, m', root, smallest, largest, t');
    DropStep(m, m1, m', head, free, chains, owner, t, t', e, a, b);
  }

  lemma DropView(m: seq<Cell>, m1: seq<Cell>, head: nat, t: Tree, t': Tree,
                 free: seq<nat>, chains: Chains, owner: seq<Owner>, e: Elem, a: seq<Elem>, b: seq<Elem>)
    requires SlotsOk(m, head, free, chains, owner, t) && e.key in chains && chains[e.key] == [e.id]
    requires e.id < |m| == |owner| && Kept(m, m1, Ids(t) - {e.id} + {NIL})
    requires Ordered(Inorder(t)) && Inorder(t) == a + [e] + b && Inorder(t') == a + b
    ensures var m', chains' := m1[e.id := m1[e.id].(parent := head, color := Red)], Popped(chains, e.key);
            && ChainsOk(m', chains')
            && MM.Pop(View(m, free, chains), e.key) == (View(m', free + [e.id], chains'), MM.Got(m[e.id].value))
  {
    var m' := m1[e.id := m1[e.id].(parent := head, color := Red)];
    DropStep(m, m1, m', head, free, chains, owner, t, t', e, a, b);
    PopView(m, m', free, chains, Popped(chains, e.key), e.key, e.id);
  }

  /** The node of a key's last value has left the tree, and its slot is freed. */
  lemma DropDone(m: seq<Cell>, m1: seq<Cell>, root: nat, smallest: nat, largest: nat, head: nat, t: Tree, c: Ctx, u: Tree,
                 free: seq<nat>, chains: Chains, owner: seq<Owner>)
    returns (free': seq<nat>, chains': Chains, owner': seq<Owner>)
    requires SlotsOk(m, head, free, chains, owner, t)
    requires u.Node? && t == Plug(c, u) && RB(t) && Ordered(Inorder(t))
    requires FIRST <= u.e.id < |m| && m[u.e.id].list == NULL
    requires Kept(m, m1, Ids(t) - {u.e.id} + {NIL}) && m1[NIL].color == Black
    requires TreeOk(m1, root, smallest, largest, Delete(c, u)) && u.e.id !in Ids(Delete(c, u))
    ensures var m' := m1[u.e.id := m1[u.e.id].(parent := head, color := Red)];
            && StoreOk(m', root, smallest, largest, u.e.id, Delete(c, u), free', chains', owner')
            && |free'| == |free| + 1 && u.e.key in View(m, free, chains).stacks
            && MM.Pop(View(m, free, chains), u.e.key) == (View(m', free', chains'), MM.Got(m[u.e.id].value))
  {
    var t' := Delete(c, u);
    var a, b := Before(c) + Inorder(u.left), Inorder(u.right) + After(c);
    DeleteSound(c, u);
    NodeOf(m, head, free, chains, owner, t, u.e);
    free', chains', owner' := free + [u.e.id], Popped(chains, u.e.key), owner[u.e.id := Free(|free|)];
    DropStored(m, m1, root, smallest, largest, head, t, t', free, chains, owner, u.e, a, b);
    DropView(m, m1, head, t, t', free, chains, owner, u.e, a, b);
  }

  /** What a lookup ends at is a node that its key's chain starts with, and that is not on its own list. */
  lemma TakenPlace(m: seq<Cell>, head: nat, t: Tree, free: seq<nat>, chains: Chains, owner: seq<Owner>, c: Ctx, u: Tree)
    requires SlotsOk(m, head, free, chains, owner, t) && t == Plug(c, u) && u.Node?
    ensures u.e in Inorder(t) && FIRST <= u.e.id < |m| && m[u.e.id].list < |m| && m[u.e.id].list != u.e.id
    ensures u.e.key in View(m, free, chains).stacks
    ensures |View(m, free, chains).stacks[u.e.key]| > 2 ==>
              m[u.e.id].list >= FIRST && m[m[u.e.id].list].list != NULL
  {
    PlugInorder(c, u);
    NodeOf(m, head, free, chains, owner, t, u.e);
    SelfListFree(m, head, free, chains, owner, t, u.e);
    ThirdLink(m, u.e.key, chains[u.e.key]);
  }

  /** In a chain of more than two, the newest slot links to the one before it. */
  lemma ThirdLink(m: seq<Cell>, k: int, chain: seq<nat>)
    requires ChainOk(m, k, chain)
    ensures var n := |chain| - 1; n > 1 ==> m[chain[0]].list == chain[n] >= FIRST && m[chain[n]].list != NULL
  {
    var n := |chain| - 1;
    assert m[chain[0]].list == ListLink(chain, 0) && m[chain[n]].list == ListLink(chain, n);
  }

  /** A slot off the free list may be filled with anything without disturbing the tree. */
  lemma FillFree(m: seq<Cell>, root: nat, smallest: nat, largest: nat, head: nat, t: Tree,
                 free: seq<nat>, chains: Chains, owner: seq<Owner>, cell: Cell)
    requires StoreOk(m, root, smallest, largest, head, t, free, chains, owner) && free != []
    requires FIRST <= free[|free| - 1] < |m|
    ensures var p := free[|free| - 1];
            var m1 := m[p := cell];
            p !in Ids(t) && TreeOk(m1, root, smallest, largest, t) && m1[NIL].color == Black
  {
    var p := free[|free| - 1];
    FreeNotInTree(m, head, free, chains, owner, t);
    TreeFrame(m, m[p := cell], root, smallest, largest, t);
  }

  // ---------------------------------------------------------------- keys

  /** The keys of the multimap are the keys in the tree. */
  lemma ModelKeys(m: seq<Cell>, root: nat, smallest: nat, largest: nat, head: nat, t: Tree,
                  free: seq<nat>, chains: Chains, owner: seq<Owner>)
    requires StoreOk(m, root, smallest, largest, head, t, free, chains, owner)
    ensures View(m, free, chains).stacks.Keys == chains.Keys
    ensures root == NIL <==> View(m, free, chains).stacks == map[]
    ensures forall e :: e in Inorder(t) ==> e.key in chains
    ensures forall k :: k in chains ==> Elem(ChainOf(chains, k)[0], k) in Inorder(t)
  {
    CachedElems(m, root, smallest, largest, t);
    if t.Node? { assert t.e in Inorder(t) && t.e.key in View(m, free, chains).stacks; }
    if chains.Keys != {} {
      var k := MM.Any(chains.Keys);
      assert Elem(chains[k][0], k) in Inorder(t);
    }
    assert View(m, free, chains).stacks == map[] <==> chains.Keys == {};
  }

  /** A lookup on the tree tells whether the multimap has the key. */
  lemma LookupMeans(m: seq<Cell>, root: nat, smallest: nat, largest: nat, head: nat, t: Tree,
                    free: seq<nat>, chains: Chains, owner: seq<Owner>, key: int)
    requires StoreOk(m, root, smallest, largest, head, t, free, chains, owner)
    ensures root == NIL <==> View(m, free, chains).stacks == map[]
    ensures var (c, u) := Locate(Top, t, key);
            && Plug(c, u) == t && (u.Node? <==> Ptr(u) != NIL)
            && (u.Node? ==> u.e.key == key && u.e in Inorder(t))
            && (u.Node? <==> key in View(m, free, chains).stacks)
  {
    ModelKeys(m, root, smallest, largest, head, t, free, chains, owner);
    LocateElem(t, key);
    CellKeys(m, t, NIL);
    if Locate(Top, t, key).1.Leaf? { LocateMiss(t, key); }
  }

  lemma SmallestIsLeast(t: Tree, chains: Chains)
    requires Ordered(Inorder(t)) && Rooted(t, chains) && Inorder(t) != []
    ensures chains.Keys != {} && Inorder(t)[0].key == MM.LeastKey(chains.Keys)
  {
    var s := Inorder(t);
    assert s[0] in s && s[0].key in chains.Keys;
    var k := MM.LeastKey(chains.Keys);
    assert Elem(chains[k][0], k) in s;
    var i :| 0 <= i < |s| && s[i] == Elem(chains[k][0], k);
    if i > 0 { assert s[0].key < s[i].key; }
  }

  lemma LargestIsGreatest(t: Tree, chains: Chains)
    requires Ordered(Inorder(t)) && Rooted(t, chains) && Inorder(t) != []
    ensures chains.Keys != {} && Inorder(t)[|Inorder(t)| - 1].key == MM.GreatestKey(chains.Keys)
  {
    var s := Inorder(t);
    var n := |s| - 1;
    assert s[n] in s && s[n].key in chains.Keys;
    var k := MM.GreatestKey(chains.Keys);
    assert Elem(chains[k][0], k) in s;
    var i :| 0 <= i < |s| && s[i] == Elem(chains[k][0], k);
    if i < n { assert s[i].key < s[n].key; }
  }

  /** The cached smallest node is where the smallest key is looked up. */
  lemma SmallestPlace(m: seq<Cell>, root: nat, smallest: nat, largest: nat, head: nat, t: Tree,
                 free: seq<nat>, chains: Chains, owner: seq<Owner>) returns (c: Ctx, u: Tree)
    requires StoreOk(m, root, smallest, largest, head, t, free, chains, owner) && smallest != NIL
    ensures Plug(c, u) == t && u.Node? && u.e.id == smallest
    ensures View(m, free, chains).stacks != map[]
    ensures u.e.key == MM.LeastKey(View(m, free, chains).stacks.Keys)
  {
    CachedElems(m, root, smallest, largest, t);
    ModelKeys(m, root, smallest, largest, head, t, free, chains, owner);
    SmallestIsLeast(t, chains);
    var e := Inorder(t)[0];
    ElemPlace(t, e);
    var (c', u') := Locate(Top, t, e.key);
    c, u := c', u';
  }

  /** The cached largest node is where the largest key is looked up. */
  lemma LargestPlace(m: seq<Cell>, root: nat, smallest: nat, largest: nat, head: nat, t: Tree,
                 free: seq<nat>, chains: Chains, owner: seq<Owner>) returns (c: Ctx, u: Tree)
    requires StoreOk(m, root, smallest, largest, head, t, free, chains, owner) && largest != NIL
    ensures Plug(c, u) == t && u.Node? && u.e.id == largest
    ensures View(m, free, chains).stacks != map[]
    ensures u.e.key == MM.GreatestKey(View(m, free, chains).stacks.Keys)
  {
    CachedElems(m, root, smallest, largest, t);
    ModelKeys(m, root, smallest, largest, head, t, free, chains, owner);
    LargestIsGreatest(t, chains);
    var e := Inorder(t)[|Inorder(t)| - 1];
    ElemPlace(t, e);
    var (c', u') := Locate(Top, t, e.key);
    c, u := c', u';
  }

  /** The cached nodes hold the oldest values under the smallest and the largest key. */
  lemma CachedOldest(m: seq<Cell>, root: nat, smallest: nat, largest: nat, head: nat, t: Tree,
                     free: seq<nat>, chains: Chains, owner: seq<Owner>)
    requires StoreOk(m, root, smallest, largest, head, t, free, chains, owner) && root != NIL
    ensures smallest < |m| && largest < |m| && View(m, free, chains).stacks != map[]
    ensures var stacks := View(m, free, chains).stacks;
            && m[smallest].value.key == MM.LeastKey(stacks.Keys)
            && m[largest].value.key == MM.GreatestKey(stacks.Keys)
            && m[smallest].value == stacks[m[smallest].value.key][0]
            && m[largest].value == stacks[m[largest].value.key][0]
  {
    CachedElems(m, root, smallest, largest, t);
    ModelKeys(m, root, smallest, largest, head, t, free, chains, owner);
    SmallestIsLeast(t, chains);
    LargestIsGreatest(t, chains);
    CellKeys(m, t, NIL);
    NodeOf(m, head, free, chains, owner, t, Elem(smallest, m[smallest].value.key));
    NodeOf(m, head, free, chains, owner, t, Elem(largest, m[largest].value.key));
  }

  // ---------------------------------------------------------------- the empty tree

  /** The first `n` slots. */
  function SlotRange(n: nat): (s: seq<nat>)
    ensures |s| == n && forall i :: 0 <= i < n ==> FIRST <= s[i] < FIRST + n
  {
    if n == 0 then [] else SlotRange(n - 1) + [FIRST + n - 1]
  }

  /** Each of the first `n` slots has its own place in the free list. */
  function FreeOwners(n: nat): (o: seq<Owner>)
    ensures |o| == FIRST + n
  {
    if n == 0 then [Free(0), Free(0)] else FreeOwners(n - 1) + [Free(n - 1)]
  }

  lemma EmptyStore(m: seq<Cell>, head: nat, n: nat, t: Tree, chains: Chains, free: seq<nat>) returns (owner: seq<Owner>)
    requires |m| == FIRST + n && m[NIL].color == Black && FreeChain(m, head, free) && t == Leaf && chains == map[]
    requires free == SlotRange(n)
    ensures StoreOk(m, NIL, NIL, NIL, head, t, free, chains, owner)
    ensures View(m, free, chains) == MM.State(map[], n)
  {
    owner := FreeOwners(n);
    EmptyOwned(n, chains);
    assert Stacks(m, chains) == map[];
  }

  lemma {:induction false} EmptyOwned(n: nat, chains: Chains)
    requires chains == map[]
    ensures Owned(FIRST + n, SlotRange(n), chains, FreeOwners(n))
  {
    if n > 0 {
      EmptyOwned(n - 1, chains);
      OwnedGrow(FIRST + n - 1, SlotRange(n - 1), chains, FreeOwners(n - 1));
    }
  }

  /** One more slot, at the end of the free list. */
  lemma OwnedGrow(n: nat, free: seq<nat>, chains: Chains, owner: seq<Owner>)
    requires FIRST <= n && Owned(n, free, chains, owner)
    ensures Owned(n + 1, free + [n], chains, owner + [Free(|free|)])
  {
    var free', owner' := free + [n], owner + [Free(|free|)];
    forall p | FIRST <= p < n + 1 ensures PlaceOf(p, owner'[p], free', chains) {
      if p < n { assert owner'[p] == owner[p] && PlaceOf(p, owner[p], free, chains); }
    }
    forall k | k in chains ensures ChainOwned(k, chains[k], owner') {
      assert ChainOwned(k, chains[k], owner);
    }
  }
}
