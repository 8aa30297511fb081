/**
 * What a put does when the remembered node answers for its key. The node may be in the tree, in the
 * list of duplicates, or free again; memory alone decides which multimap the result stands for, if
 * any.
 */
module Remembered {
  import opened RedBlack
  import opened Search
  import opened Arena
  import opened Cache
  import opened Slots
  import opened Store
  import MM = Multimap

  // ---------------------------------------------------------------- memory determines the multimap

  lemma {:induction false} RepUnique(m: seq<Cell>, t: Tree, parent: nat, t': Tree, parent': nat)
    requires Rep(m, t, parent) && Rep(m, t', parent') && Ptr(t) == Ptr(t')
    ensures t == t'
    decreases t
  {
    if t.Node? && t'.Node? {
      RepUnique(m, t.left, t.e.id, t'.left, t'.e.id);
      RepUnique(m, t.right, t.e.id, t'.right, t'.e.id);
    }
  }

  /** The links `next` lead from `head` through `s`, from its last element to its first, to NULL. */
  predicate Threaded(next: seq<nat>, head: nat, s: seq<nat>)
    decreases |s|
  {
    if s == [] then head == NULL
    else
      var n := |s| - 1;
      FIRST <= head == s[n] < |next| && Threaded(next, next[head], s[..n])
  }

  lemma {:induction false} ThreadedUnique(next: seq<nat>, head: nat, s: seq<nat>, s': seq<nat>)
    requires Threaded(next, head, s) && Threaded(next, head, s')
    ensures s == s'
    decreases |s|
  {
    if s != [] && s' != [] {
      var n, n' := |s| - 1, |s'| - 1;
      ThreadedUnique(next, next[head], s[..n], s'[..n']);
      assert s == s[..n] + [head] && s' == s'[..n'] + [head];
    }
  }

  function Parents(m: seq<Cell>): (next: seq<nat>)
    ensures |next| == |m| && forall i :: 0 <= i < |m| ==> next[i] == m[i].parent
  {
    seq(|m|, i requires 0 <= i < |m| => m[i].parent)
  }

  function Lists(m: seq<Cell>): (next: seq<nat>)
    ensures |next| == |m| && forall i :: 0 <= i < |m| ==> next[i] == m[i].list
  {
    seq(|m|, i requires 0 <= i < |m| => m[i].list)
  }

  lemma {:induction false} FreeThreaded(m: seq<Cell>, head: nat, free: seq<nat>)
    requires FreeChain(m, head, free)
    ensures Threaded(Parents(m), head, free)
    decreases |free|
  {
    if free != [] {
      var n := |free| - 1;
      FreePop(m, m, head, free);
      FreeThreaded(m, m[free[n]].parent, free[..n]);
    }
  }

  /** Behind its node, a chain is threaded through the list links. */
  lemma {:induction false} ChainThreaded(m: seq<Cell>, k: int, chain: seq<nat>, n: nat)
    requires ChainOk(m, k, chain) && 0 < n <= |chain|
    ensures Threaded(Lists(m), if n == 1 then NULL else chain[n - 1], chain[1..n])
    decreases n
  {
    if n > 1 {
      ChainThreaded(m, k, chain, n - 1);
      assert m[chain[n - 1]].list == ListLink(chain, n - 1);
      var s := chain[1..n];
      assert s[|s| - 1] == chain[n - 1] && s[..|s| - 1] == chain[1..n - 1];
    }
  }

  lemma ChainUnique(m: seq<Cell>, k: int, chain: seq<nat>, chain': seq<nat>)
    requires ChainOk(m, k, chain) && ChainOk(m, k, chain') && chain[0] == chain'[0]
    ensures chain == chain'
  {
    ChainThreaded(m, k, chain, |chain|);
    ChainThreaded(m, k, chain', |chain'|);
    assert m[chain[0]].list == ListLink(chain, 0) && m[chain'[0]].list == ListLink(chain', 0);
    assert chain[1..|chain|] == chain[1..] && chain'[1..|chain'|] == chain'[1..];
    ThreadedUnique(Lists(m), m[chain[0]].list, chain[1..], chain'[1..]);
    assert chain == [chain[0]] + chain[1..] && chain' == [chain'[0]] + chain'[1..];
  }

  lemma ChainsUnique(m: seq<Cell>, t: Tree, chains: Chains, chains': Chains)
    requires ChainsOk(m, chains) && ChainsOk(m, chains') && Rooted(t, chains) && Rooted(t, chains')
    ensures chains == chains'
  {
    forall k ensures k in chains <==> k in chains' {
      if k in chains { assert Elem(chains[k][0], k) in Inorder(t); }
      if k in chains' { assert Elem(chains'[k][0], k) in Inorder(t); }
    }
    forall k | k in chains ensures chains[k] == chains'[k] {
      assert Elem(chains[k][0], k) in Inorder(t);
      ChainUnique(m, k, chains[k], chains'[k]);
    }
  }

  /** One memory holds one store: tree, free list and chains can be read off it. */
  lemma StoreUnique(m: seq<Cell>, root: nat, smallest: nat, largest: nat, head: nat,
                    t: Tree, free: seq<nat>, chains: Chains, owner: seq<Owner>,
                    t': Tree, free': seq<nat>, chains': Chains, owner': seq<Owner>)
    requires StoreOk(m, root, smallest, largest, head, t, free, chains, owner)
    requires StoreOk(m, root, smallest, largest, head, t', free', chains', owner')
    ensures t == t' && free == free' && chains == chains'
  {
    RepUnique(m, t, NIL, t', NIL);
    FreeThreaded(m, head, free);
    FreeThreaded(m, head, free');
    ThreadedUnique(Parents(m), head, free, free');
    ChainsUnique(m, t, chains, chains');
  }

  // ---------------------------------------------------------------- a slot attached to a free slot

  /** Only free slots have changed, and only in what is not their link. */
  predicate FreeTouched(m: seq<Cell>, m': seq<Cell>, owner: seq<Owner>) {
    && |m'| == |m| == |owner|
    && forall q :: 0 <= q < |m| ==> if q < FIRST || owner[q].Live? then m'[q] == m[q] else m'[q].parent == m[q].parent
  }

  lemma LiveKept(m: seq<Cell>, m': seq<Cell>, head: nat, free: seq<nat>, chains: Chains, owner: seq<Owner>, t: Tree)
    requires SlotsOk(m, head, free, chains, owner, t) && FreeTouched(m, m', owner) && Rep(m, t, NIL)
    ensures Rep(m', t, NIL) && ChainsOk(m', chains)
  {
    TreeSlots(m, head, free, chains, owner, t);
    IdsInArena(m, t, NIL);
    RepFrame(m, m', t, NIL);
    forall k | k in chains ensures ChainOk(m', k, chains[k]) {
      assert ChainOk(m, k, chains[k]);
      forall i | 0 <= i < |chains[k]| ensures m'[chains[k][i]] == m[chains[k][i]] {
        assert owner[chains[k][i]] == Live(k, i);
      }
      ChainFrame(m, m', k, chains[k]);
    }
  }

  /** The top of the free list taken off and not put anywhere: no store has this memory. */
  lemma SlotLost(m: seq<Cell>, m': seq<Cell>, root: nat, smallest: nat, largest: nat, head: nat,
                 t: Tree, free: seq<nat>, chains: Chains, owner: seq<Owner>,
                 t': Tree, free': seq<nat>, chains': Chains, owner': seq<Owner>)
    requires StoreOk(m, root, smallest, largest, head, t, free, chains, owner) && FreeTouched(m, m', owner)
    requires free != [] && free[|free| - 1] < |m|
    ensures !StoreOk(m', root, smallest, largest, m[free[|free| - 1]].parent, t', free', chains', owner')
  {
    var n := |free| - 1;
    var p := free[n];
    if StoreOk(m', root, smallest, largest, m[p].parent, t', free', chains', owner') {
      LiveKept(m, m', head, free, chains, owner, t);
      RepUnique(m', t, NIL, t', NIL);
      ChainsUnique(m', t, chains, chains');
      forall i | 0 <= i < n ensures free[..n][i] < |m| && m'[free[..n][i]].parent == m[free[..n][i]].parent {
        assert owner[free[i]] == Free(i);
      }
      FreePop(m, m', head, free);
      FreeThreaded(m', m[p].parent, free[..n]);
      FreeThreaded(m', m[p].parent, free');
      ThreadedUnique(Parents(m'), m[p].parent, free[..n], free');
      NoOwner(|m|, free, chains, owner, owner');
    }
  }

  lemma NoOwner(n: nat, free: seq<nat>, chains: Chains, owner: seq<Owner>, owner': seq<Owner>)
    requires Owned(n, free, chains, owner) && free != []
    ensures !Owned(n, free[..|free| - 1], chains, owner')
  {
    var f := free[..|free| - 1];
    var p := free[|free| - 1];
    assert owner[p] == Free(|free| - 1);
    forall i | 0 <= i < |f| ensures f[i] != p {
      assert f[i] == free[i] && owner[free[i]] == Free(i);
    }
    forall k, i | k in chains && 0 <= i < |chains[k]| ensures chains[k][i] != p {
      assert owner[chains[k][i]] == Live(k, i);
    }
    if |owner'| == n { assert owner'[p].Free? || owner'[p].Live?; }
  }

  // ---------------------------------------------------------------- a node with a stale list link

  /** In a store, a node with nothing attached has no list link: with one, the memory is no store at all. */
  lemma StaleLink(m: seq<Cell>, root: nat, smallest: nat, largest: nat, head: nat,
                  t: Tree, free: seq<nat>, chains: Chains, owner: seq<Owner>, k: int, p: nat, q: nat,
                  t': Tree, free': seq<nat>, chains': Chains, owner': seq<Owner>)
    requires StoreOk(m, root, smallest, largest, head, t, free, chains, owner)
    requires k in chains && chains[k] == [p] && p < |m| && q != NULL
    ensures !StoreOk(m[p := m[p].(list := q)], root, smallest, largest, head, t', free', chains', owner')
  {
    var m' := m[p := m[p].(list := q)];
    if StoreOk(m', root, smallest, largest, head, t', free', chains', owner') {
      RepFrame(m, m', t, NIL);
      RepUnique(m', t, NIL, t', NIL);
      assert FreeSame(m, m', free);
      FreeRelinked(m, m', head, free);
      FreeThreaded(m', head, free);
      FreeThreaded(m', head, free');
      ThreadedUnique(Parents(m'), head, free, free');
      assert Elem(chains[k][0], k) in Inorder(t);
      SecondOwner(m, m', free, chains, owner, chains', owner', k, p, q);
    }
  }

  lemma FreeRelinked(m: seq<Cell>, m': seq<Cell>, head: nat, free: seq<nat>)
    requires FreeChain(m, head, free) && FreeSame(m, m', free)
    ensures FreeChain(m', head, free)
  {
    forall i | 0 <= i < |free| ensures m'[free[i]].parent == NextFree(free, i) {
      assert m[free[i]].parent == NextFree(free, i);
    }
  }

  /** A link to a second slot of the key: that slot is free, or some other key's. */
  lemma SecondOwner(m: seq<Cell>, m': seq<Cell>, free: seq<nat>, chains: Chains, owner: seq<Owner>,
                    chains': Chains, owner': seq<Owner>, k: int, p: nat, q: nat)
    requires Owned(|m|, free, chains, owner) && ChainsOk(m, chains) && k in chains && chains[k] == [p]
    requires p < |m| && q != NULL && m' == m[p := m[p].(list := q)]
    requires k in chains' && ChainOk(m', k, chains'[k]) && chains'[k][0] == p
    ensures !Owned(|m|, free, chains', owner')
  {
    var chain := chains'[k];
    assert m'[chain[0]].list == ListLink(chain, 0);
    assert |chain| > 1;
    var x := chain[1];
    assert FIRST <= x < |m| && m'[x].value.key == k;
    KeySlots(m, free, chains, owner, k, p, x);
    if Owned(|m|, free, chains', owner') { OneOwner(|m|, free, chains', owner'); }
  }

  /** A slot whose value has the key of a one-slot chain is that slot, or free. */
  lemma KeySlots(m: seq<Cell>, free: seq<nat>, chains: Chains, owner: seq<Owner>, k: int, p: nat, x: nat)
    requires Owned(|m|, free, chains, owner) && ChainsOk(m, chains) && k in chains && chains[k] == [p]
    requires FIRST <= x < |m| && m[x].value.key == k
    ensures x == p || exists i :: 0 <= i < |free| && free[i] == x
  {
    assert PlaceOf(x, owner[x], free, chains);
    match owner[x]
    case Free(i) => assert free[i] == x;
    case Live(j, i) => assert ChainOk(m, j, chains[j]);
  }

  // ---------------------------------------------------------------- a slot attached to a duplicate

  function InsertAt<T>(s: seq<T>, i: nat, x: T): (r: seq<T>)
    requires i <= |s|
    ensures |r| == |s| + 1
    ensures forall j :: 0 <= j < |r| ==> r[j] == if j < i then s[j] else if j == i then x else s[j - 1]
  {
    s[..i] + [x] + s[i..]
  }

  /** From place `i` on there is nothing but `v`. */
  predicate Only(s: seq<Value>, i: nat, v: Value) {
    forall j :: i <= j < |s| ==> s[j] == v
  }

  /** Inserting before the end is appending exactly if everything from there on is the same value. */
  lemma InsertIsAppendIff(s: seq<Value>, i: nat, v: Value)
    requires i <= |s|
    ensures InsertAt(s, i, v) == s + [v] <==> Only(s, i, v)
  {
    var r, a := InsertAt(s, i, v), s + [v];
    if r == a {
      forall j | i <= j < |s| ensures s[j] == v { SameFromHere(s, i, v, j); }
    }
  }

  lemma {:induction false} SameFromHere(s: seq<Value>, i: nat, v: Value, j: nat)
    requires i <= j < |s| && InsertAt(s, i, v) == s + [v]
    ensures s[j] == v
    decreases j
  {
    var r := InsertAt(s, i, v);
    assert r[j] == (s + [v])[j] == s[j];
    if i < j {
      assert r[j] == s[j - 1];
      SameFromHere(s, i, v, j - 1);
    }
  }

  function Shifted(owner: seq<Owner>, k: int, i: nat, p: nat): (o: seq<Owner>)
    ensures |o| == |owner|
    ensures forall q :: 0 <= q < |owner| ==> o[q] == ShiftedOwner(owner[q], k, i, q == p)
  {
    seq(|owner|, q requires 0 <= q < |owner| => ShiftedOwner(owner[q], k, i, q == p))
  }

  function ShiftedOwner(o: Owner, k: int, i: nat, added: bool): Owner {
    if added then Live(k, i)
    else if o.Live? && o.key == k && o.i >= i then Live(k, o.i + 1)
    else o
  }

  lemma OwnedWedge(n: nat, free: seq<nat>, chains: Chains, owner: seq<Owner>, k: int, i: nat, p: nat)
    requires Owned(n, free, chains, owner) && free != [] && p == free[|free| - 1]
    requires k in chains && i < |chains[k]|
    ensures Owned(n, free[..|free| - 1], chains[k := InsertAt(chains[k], i, p)], Shifted(owner, k, i, p))
  {
    var free', chain' := free[..|free| - 1], InsertAt(chains[k], i, p);
    var chains', owner' := chains[k := chain'], Shifted(owner, k, i, p);
    assert owner[p] == Free(|free| - 1);
    forall j | j in chains' ensures ChainOwned(j, chains'[j], owner') {
      if j == k { ChainWedged(k, chains[k], owner, i, p); } else { ShiftedOther(j, chains[j], owner, k, i, p); }
    }
    ShiftedFree(free, owner, k, i);
    forall q | FIRST <= q < n ensures PlaceOf(q, owner'[q], free', chains') {
      if q != p { PlaceShifted(q, owner[q], free, chains, k, i, p); }
    }
  }

  lemma PlaceShifted(q: nat, o: Owner, free: seq<nat>, chains: Chains, k: int, i: nat, p: nat)
    requires PlaceOf(q, o, free, chains) && free != [] && p == free[|free| - 1] && q != p
    requires k in chains && i < |chains[k]|
    ensures PlaceOf(q, ShiftedOwner(o, k, i, false), free[..|free| - 1], chains[k := InsertAt(chains[k], i, p)])
  {
  }

  lemma ChainWedged(k: int, chain: seq<nat>, owner: seq<Owner>, i: nat, p: nat)
    requires ChainOwned(k, chain, owner) && i < |chain| && FIRST <= p < |owner| && owner[p].Free?
    ensures ChainOwned(k, InsertAt(chain, i, p), Shifted(owner, k, i, p))
  {
    var chain', owner' := InsertAt(chain, i, p), Shifted(owner, k, i, p);
    forall l | 0 <= l < |chain'| ensures FIRST <= chain'[l] < |owner'| && owner'[chain'[l]] == Live(k, l) {
      if l != i {
        var l' := if l < i then l else l - 1;
        assert chain'[l] == chain[l'] && owner[chain[l']] == Live(k, l');
      }
    }
  }

  lemma ShiftedOther(j: int, chain: seq<nat>, owner: seq<Owner>, k: int, i: nat, p: nat)
    requires ChainOwned(j, chain, owner) && j != k && p < |owner| && owner[p].Free?
    ensures ChainOwned(j, chain, Shifted(owner, k, i, p))
  {
    var owner' := Shifted(owner, k, i, p);
    forall l | 0 <= l < |chain| ensures FIRST <= chain[l] < |owner'| && owner'[chain[l]] == Live(j, l) {
      assert owner[chain[l]] == Live(j, l);
    }
  }

  lemma ShiftedFree(free: seq<nat>, owner: seq<Owner>, k: int, i: nat)
    requires FreeOwned(free, owner) && free != []
    ensures FreeOwned(free[..|free| - 1], Shifted(owner, k, i, free[|free| - 1]))
  {
    var f, p := free[..|free| - 1], free[|free| - 1];
    var owner' := Shifted(owner, k, i, p);
    forall l | 0 <= l < |f| ensures FIRST <= f[l] < |owner'| && owner'[f[l]] == Free(l) {
      assert f[l] == free[l] && owner[free[l]] == Free(l) && owner[p] == Free(|f|);
    }
  }

  lemma WedgeLink(chain: seq<nat>, i: nat, p: nat, j: nat)
    requires 0 < i < |chain| && j <= |chain|
    ensures ListLink(InsertAt(chain, i, p), j) ==
            if j < i then ListLink(chain, j) else if j == i then ListLink(chain, i)
            else if j == i + 1 then p else ListLink(chain, j - 1)
  {
    var chain' := InsertAt(chain, i, p);
    assert chain'[|chain|] == chain[|chain| - 1];
    if j > 1 { assert chain'[j - 1] == if j - 1 < i then chain[j - 1] else if j - 1 == i then p else chain[j - 2]; }
  }

  /** Attached to a duplicate, the new slot comes after it in the list, so before it in age. */
  lemma WedgeChain(m: seq<Cell>, m': seq<Cell>, k: int, chain: seq<nat>, i: nat, p: nat, v: Value)
    requires ChainOk(m, k, chain) && 0 < i < |chain| && v.key == k && FIRST <= p < |m| == |m'|
    requires m'[p].value == v && m'[p].list == m[chain[i]].list
    requires m'[chain[i]].list == p && m'[chain[i]].value == m[chain[i]].value
    requires forall j :: 0 <= j < |chain| && j != i ==> m'[chain[j]] == m[chain[j]]
    ensures ChainOk(m', k, InsertAt(chain, i, p))
    ensures Values(m', InsertAt(chain, i, p)) == InsertAt(Values(m, chain), i, v)
  {
    var chain' := InsertAt(chain, i, p);
    forall j | 0 <= j < |chain'|
      ensures FIRST <= chain'[j] < |m'| && m'[chain'[j]].value.key == k
      ensures m'[chain'[j]].list == ListLink(chain', j)
      ensures m'[chain'[j]].value == (if j == i then v else m[chain[if j < i then j else j - 1]].value)
    {
      WedgeLink(chain, i, p, j);
      if j != i {
        var j' := if j < i then j else j - 1;
        assert chain'[j] == chain[j'] && m[chain[j']].list == ListLink(chain, j');
      } else {
        assert m[chain[i]].list == ListLink(chain, i);
      }
    }
    WedgeValues(m, m', chain, i, p, v);
  }

  lemma WedgeValues(m: seq<Cell>, m': seq<Cell>, chain: seq<nat>, i: nat, p: nat, v: Value)
    requires 0 < i < |chain| && InRange(m, chain) && InRange(m', InsertAt(chain, i, p))
    requires forall j :: 0 <= j <= |chain| ==>
      m'[InsertAt(chain, i, p)[j]].value == (if j == i then v else m[chain[if j < i then j else j - 1]].value)
    ensures Values(m', InsertAt(chain, i, p)) == InsertAt(Values(m, chain), i, v)
  {
  }

  lemma WedgeRooted(t: Tree, chains: Chains, k: int, chain': seq<nat>)
    requires Rooted(t, chains) && k in chains && chains[k] != [] && chain' != [] && chain'[0] == chains[k][0]
    ensures Rooted(t, chains[k := chain'])
  {
  }

  /** In the chain of its key, the new slot comes before the duplicate it is attached to. */
  lemma WedgedChain(m: seq<Cell>, free: seq<nat>, chains: Chains, owner: seq<Owner>, v: Value, base: nat, i: nat, p: nat)
    requires Owned(|m|, free, chains, owner) && free != [] && FIRST <= p == free[|free| - 1] < |m|
    requires FIRST <= base < |m| && owner[base] == Live(v.key, i) && i > 0
    requires v.key in chains && ChainOk(m, v.key, chains[v.key])
    ensures i < |chains[v.key]| && chains[v.key][i] == base
    ensures var m', chain' := AttachCells(m, p, base, v), InsertAt(chains[v.key], i, p);
            ChainOk(m', v.key, chain') && Values(m', chain') == InsertAt(Values(m, chains[v.key]), i, v)
  {
    var k, m', chain := v.key, AttachCells(m, p, base, v), chains[v.key];
    assert PlaceOf(base, owner[base], free, chains) && owner[p] == Free(|free| - 1);
    forall j | 0 <= j < |chain| && j != i ensures m'[chain[j]] == m[chain[j]] {
      assert owner[chain[j]] == Live(k, j);
    }
    WedgeChain(m, m', k, chain, i, p, v);
  }

  lemma WedgeStep(m: seq<Cell>, head: nat, free: seq<nat>, chains: Chains, owner: seq<Owner>, t: Tree,
                  v: Value, base: nat, i: nat, p: nat)
    requires SlotsOk(m, head, free, chains, owner, t) && free != [] && |owner| == |m|
    requires FIRST <= p == free[|free| - 1] < |m| && FIRST <= base < |m| && owner[base] == Live(v.key, i) && i > 0
    ensures v.key in chains && i < |chains[v.key]|
    ensures var m', chains' := AttachCells(m, p, base, v), chains[v.key := InsertAt(chains[v.key], i, p)];
            && SlotsOk(m', m[p].parent, free[..|free| - 1], chains', Shifted(owner, v.key, i, p), t)
            && Stacks(m', chains') == Stacks(m, chains)[v.key := InsertAt(Stacks(m, chains)[v.key], i, v)]
            && AgreeOn(m, m', Ids(t))
  {
    var k, m' := v.key, AttachCells(m, p, base, v);
    assert PlaceOf(base, owner[base], free, chains) && ChainOk(m, k, chains[k]);
    TreeSlots(m, head, free, chains, owner, t);
    AttachFrame(m, free, owner, Ids(t), base, v);
    WedgedChain(m, free, chains, owner, v, base, i, p);
    var chain' := InsertAt(chains[k], i, p);
    ChainsReplace(m, m', free, chains, owner, k, chain', InsertAt(Values(m, chains[k]), i, v));
    WedgeRooted(t, chains, k, chain');
    OwnedWedge(|m|, free, chains, owner, k, i, p);
    FreePop(m, m', head, free);
  }

  /** The slot in hand has been attached to the i-th duplicate of its key. */
  lemma WedgeDone(m: seq<Cell>, root: nat, smallest: nat, largest: nat, head: nat, t: Tree,
                  free: seq<nat>, chains: Chains, owner: seq<Owner>, v: Value, base: nat, i: nat, p: nat)
    returns (free': seq<nat>, chains': Chains, owner': seq<Owner>)
    requires StoreOk(m, root, smallest, largest, head, t, free, chains, owner) && free != [] && |owner| == |m|
    requires FIRST <= p == free[|free| - 1] < |m| && FIRST <= base < |m| && owner[base] == Live(v.key, i) && i > 0
    ensures StoreOk(AttachCells(m, p, base, v), root, smallest, largest, m[p].parent, t, free', chains', owner')
    ensures |free'| == |free| - 1
    ensures var s := View(m, free, chains);
            && v.key in s.stacks && i < |s.stacks[v.key]|
            && View(AttachCells(m, p, base, v), free', chains') ==
               MM.State(s.stacks[v.key := InsertAt(s.stacks[v.key], i, v)], s.room - 1)
  {
    WedgeStep(m, head, free, chains, owner, t, v, base, i, p);
    free', chains', owner' :=
      free[..|free| - 1], chains[v.key := InsertAt(chains[v.key], i, p)], Shifted(owner, v.key, i, p);
    TreeFrame(m, AttachCells(m, p, base, v), root, smallest, largest, t);
  }

  /** `s'` is `s` with `v` put in under its key: as the newest if `i` is 0, else before the i-th. */
  predicate Joined(s': MM.State, s: MM.State, v: Value, i: nat) {
    && s.room > 0 && v.key in s.stacks && i < |s.stacks[v.key]|
    && s' == if i == 0 then MM.Push(s, v)
             else MM.State(s.stacks[v.key := InsertAt(s.stacks[v.key], i, v)], s.room - 1)
  }

  /** The slot in hand has been attached to a live slot of its key. */
  lemma JoinDone(m: seq<Cell>, root: nat, smallest: nat, largest: nat, head: nat, t: Tree,
                 free: seq<nat>, chains: Chains, owner: seq<Owner>, v: Value, base: nat, i: nat, p: nat)
    returns (free': seq<nat>, chains': Chains, owner': seq<Owner>)
    requires StoreOk(m, root, smallest, largest, head, t, free, chains, owner) && free != [] && |owner| == |m|
    requires FIRST <= p == free[|free| - 1] < |m| && FIRST <= base < |m| && owner[base] == Live(v.key, i)
    ensures StoreOk(AttachCells(m, p, base, v), root, smallest, largest, m[p].parent, t, free', chains', owner')
    ensures |free'| == |free| - 1
    ensures Joined(View(AttachCells(m, p, base, v), free', chains'), View(m, free, chains), v, i)
  {
    if i == 0 {
      LiveFirst(m, head, free, chains, owner, t, base, v.key);
      NodeOf(m, head, free, chains, owner, t, Elem(base, v.key));
      free', chains', owner' := AttachDone(m, root, smallest, largest, head, t, free, chains, owner, v, base, p);
    } else {
      free', chains', owner' := WedgeDone(m, root, smallest, largest, head, t, free, chains, owner, v, base, i, p);
    }
  }

  /** Joining is a push exactly if the slot joined is the tree's node, or all from there on is the same value. */
  lemma JoinedIsPushIff(s': MM.State, s: MM.State, v: Value, i: nat)
    requires Joined(s', s, v, i)
    ensures s' == MM.Push(s, v) <==> i == 0 || Only(s.stacks[v.key], i, v)
  {
    var stack := s.stacks[v.key];
    InsertIsAppendIff(stack, i, v);
    if i > 0 && s' == MM.Push(s, v) { assert s'.stacks[v.key] == stack + [v]; }
  }

  lemma LiveKey(m: seq<Cell>, head: nat, free: seq<nat>, chains: Chains, owner: seq<Owner>, t: Tree, q: nat)
    requires SlotsOk(m, head, free, chains, owner, t) && FIRST <= q < |m| == |owner| && owner[q].Live?
    ensures owner[q].key == m[q].value.key
  {
    assert PlaceOf(q, owner[q], free, chains);
    assert ChainOk(m, owner[q].key, chains[owner[q].key]);
  }

  lemma NodeOwner(m: seq<Cell>, head: nat, free: seq<nat>, chains: Chains, owner: seq<Owner>, t: Tree, e: Elem)
    requires SlotsOk(m, head, free, chains, owner, t) && e in Inorder(t)
    ensures FIRST <= e.id < |m| == |owner| && owner[e.id] == Live(e.key, 0)
  {
    NodeOf(m, head, free, chains, owner, t, e);
    assert ChainOwned(e.key, chains[e.key], owner);
  }

  lemma LiveFirst(m: seq<Cell>, head: nat, free: seq<nat>, chains: Chains, owner: seq<Owner>, t: Tree, q: nat, k: int)
    requires SlotsOk(m, head, free, chains, owner, t) && FIRST <= q < |m| == |owner| && owner[q] == Live(k, 0)
    ensures Elem(q, k) in Inorder(t)
  {
    assert PlaceOf(q, owner[q], free, chains);
  }

  lemma FreeSlotOwner(m: seq<Cell>, head: nat, free: seq<nat>, chains: Chains, owner: seq<Owner>, t: Tree)
    requires SlotsOk(m, head, free, chains, owner, t) && free != []
    ensures FIRST <= free[|free| - 1] < |owner| == |m| && owner[free[|free| - 1]].Free?
  {
  }

  /**
   * With the slot `node` about to be filled with `v`, the remembered node is of no consequence, or
   * it is the tree's node of `v`'s key, or a duplicate with nothing but `v` from there on.
   */
  predicate Harmless(previous: nat, node: nat, m: seq<Cell>, owner: seq<Owner>, s: MM.State, v: Value)
    requires previous < |m| == |owner|
  {
    previous != NIL && (previous == node || m[previous].value.key == v.key) ==>
      && owner[previous].Live?
      && (owner[previous].i == 0 || Only(MM.StackOf(s, v.key), owner[previous].i, v))
  }

  lemma HarmlessMeans(previous: nat, node: nat, m: seq<Cell>, owner: seq<Owner>, s: MM.State, v: Value)
    requires previous < |m| == |owner| && previous != NIL && (previous == node || m[previous].value.key == v.key)
    ensures Harmless(previous, node, m, owner, s, v) <==>
            owner[previous].Live? && (owner[previous].i == 0 || Only(MM.StackOf(s, v.key), owner[previous].i, v))
  {
  }

  /** The remembered node answers for `v`'s key although its slot is free. */
  predicate Dangling(previous: nat, node: nat, m: seq<Cell>, owner: seq<Owner>, v: Value)
    requires previous < |m| == |owner|
  {
    previous != NIL && (previous == node || m[previous].value.key == v.key) && owner[previous].Free?
  }

  /** The put of `v` into `node` is a push: a harmless remembered node, and no stale link under a new key. */
  predicate Fits(previous: nat, node: nat, m: seq<Cell>, owner: seq<Owner>, s: MM.State, v: Value)
    requires previous < |m| == |owner| && node < |m|
  {
    Harmless(previous, node, m, owner, s, v) && (v.key !in s.stacks ==> m[node].list == NULL)
  }

  /** It leaves no multimap: a dangling remembered node, or a stale link under a new key. */
  predicate Spoils(previous: nat, node: nat, m: seq<Cell>, owner: seq<Owner>, s: MM.State, v: Value)
    requires previous < |m| == |owner| && node < |m|
  {
    Dangling(previous, node, m, owner, v) || (v.key !in s.stacks && m[node].list != NULL)
  }

  /** A remembered node with another key leaves only the link to ask about. */
  lemma MissFits(previous: nat, node: nat, m: seq<Cell>, owner: seq<Owner>, s: MM.State, v: Value)
    requires previous < |m| == |owner| && node < |m|
    requires previous == NIL || (previous != node && m[previous].value.key != v.key)
    ensures Fits(previous, node, m, owner, s, v) <==> v.key in s.stacks || m[node].list == NULL
    ensures Spoils(previous, node, m, owner, s, v) <==> !Fits(previous, node, m, owner, s, v)
  {
  }

  /** One with the key leaves only its slot to ask about. */
  lemma HitFits(previous: nat, node: nat, m: seq<Cell>, owner: seq<Owner>, s: MM.State, v: Value)
    requires previous < |m| == |owner| && node < |m|
    requires owner[previous].Live? ==> v.key in s.stacks
    requires owner[previous].Free? ==> !Harmless(previous, node, m, owner, s, v)
    ensures Fits(previous, node, m, owner, s, v) <==> Harmless(previous, node, m, owner, s, v)
    ensures Spoils(previous, node, m, owner, s, v) ==> owner[previous].Free?
  {
  }

  /** A remembered node with a key that is not there is dangling. */
  lemma HitSpoils(previous: nat, node: nat, m: seq<Cell>, head: nat, free: seq<nat>, chains: Chains, owner: seq<Owner>,
                  t: Tree, v: Value)
    requires SlotsOk(m, head, free, chains, owner, t) && free != [] && node == free[|free| - 1]
    requires FIRST <= previous < |m| == |owner| && (previous == node || m[previous].value.key == v.key)
    ensures owner[previous].Free? <==> Dangling(previous, node, m, owner, v)
    ensures owner[previous].Live? ==> v.key in View(m, free, chains).stacks
    ensures owner[previous].Free? ==> !Harmless(previous, node, m, owner, View(m, free, chains), v)
  {
    FreeSlotOwner(m, head, free, chains, owner, t);
    if owner[previous].Live? {
      LiveKey(m, head, free, chains, owner, t, previous);
      assert PlaceOf(previous, owner[previous], free, chains);
    }
  }

  /** A slot with a key that is no longer there is free. */
  lemma KeyGone(m: seq<Cell>, head: nat, free: seq<nat>, chains: Chains, owner: seq<Owner>, t: Tree, q: nat, v: Value)
    requires SlotsOk(m, head, free, chains, owner, t) && free != [] && FIRST <= q < |m| && m[q].value.key == v.key
    requires v.key !in View(m, free, chains).stacks
    ensures |owner| == |m| && Dangling(q, head, m, owner, v)
  {
    FreeTop(m, head, free, chains, owner, t);
    HitSpoils(q, head, m, head, free, chains, owner, t, v);
  }

  lemma ListCleared(m: seq<Cell>, m': seq<Cell>, p: nat, s: set<nat>)
    requires Kept(m, m', s) && p < |m| && p in s
    ensures Kept(m[p := m[p].(list := NULL)], m'[p := m'[p].(list := NULL)], s)
  {
  }

  /** Linked into the tree with a list link left from before, the new node makes the memory no store. */
  lemma LinkSpoils(m: seq<Cell>, m': seq<Cell>, root: nat, smallest: nat, largest: nat, head: nat, t: Tree, c: Ctx,
                   free: seq<nat>, chains: Chains, owner: seq<Owner>, v: Value, p: nat,
                   t': Tree, free': seq<nat>, chains': Chains, owner': seq<Owner>)
    requires SlotsOk(m, head, free, chains, owner, t) && free != []
    requires FIRST <= p == free[|free| - 1] < |m| == |owner| && m[NIL].color == Black
    requires Rep(m, t, NIL) && RB(t) && Ordered(Inorder(t)) && (c, Leaf) == Locate(Top, t, v.key)
    requires TreeOk(m', root, smallest, largest, Insert(c, Elem(p, v.key)))
    requires Kept(m[p := m[p].(value := v)], m', Ids(t) + {p}) && m[p].list != NULL
    ensures !StoreOk(m', root, smallest, largest, m[p].parent, t', free', chains', owner')
  {
    var f, ch, o := LinkMended(m, m', root, smallest, largest, head, t, c, free, chains, owner, v, p);
    var good := m'[p := m'[p].(list := NULL)];
    assert m' == good[p := good[p].(list := m'[p].list)];
    StaleLink(good, root, smallest, largest, m[p].parent, Insert(c, Elem(p, v.key)), f, ch, o, v.key, p, m'[p].list,
              t', free', chains', owner');
  }

  /** With its list link cleared, the new node is all right. */
  lemma LinkMended(m: seq<Cell>, m': seq<Cell>, root: nat, smallest: nat, largest: nat, head: nat, t: Tree, c: Ctx,
                   free: seq<nat>, chains: Chains, owner: seq<Owner>, v: Value, p: nat)
    returns (f: seq<nat>, ch: Chains, o: seq<Owner>)
    requires SlotsOk(m, head, free, chains, owner, t) && free != []
    requires FIRST <= p == free[|free| - 1] < |m| == |owner| && m[NIL].color == Black
    requires Rep(m, t, NIL) && RB(t) && Ordered(Inorder(t)) && (c, Leaf) == Locate(Top, t, v.key)
    requires TreeOk(m', root, smallest, largest, Insert(c, Elem(p, v.key)))
    requires Kept(m[p := m[p].(value := v)], m', Ids(t) + {p})
    ensures |m'| == |m| && m'[p].list == m[p].list
    ensures StoreOk(m'[p := m'[p].(list := NULL)], root, smallest, largest, m[p].parent, Insert(c, Elem(p, v.key)), f, ch, o)
    ensures v.key in ch && ch[v.key] == [p]
  {
    var m1, good := m[p := m[p].(value := v)], m'[p := m'[p].(list := NULL)];
    TreeFrame(m', good, root, smallest, largest, Insert(c, Elem(p, v.key)));
    ListCleared(m1, m', p, Ids(t) + {p});
    assert m1[p := m1[p].(list := NULL)] == m[p := m[p].(value := v, list := NULL)];
    f, ch, o := LinkDone(m, good, root, smallest, largest, head, t, c, free, chains, owner, v, p);
  }
}
