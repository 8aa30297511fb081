/**
 * Who owns which node slot. Every slot is either on the free list or in the chain of one key.
 *
 * The chain of a key lists its slots oldest first: slot 0 is the node linked in the tree, the
 * others hang off it through `list`, newest first. The free list runs through the word that holds
 * the parent link and the colour of a live node.
 */
module Slots {
  import opened RedBlack
  import opened Search
  import opened Arena

  datatype Owner = Free(i: nat) | Live(key: int, i: nat)

  type Chains = map<int, seq<nat>>

  /** The link stored in the i-th free slot. */
  function NextFree(free: seq<nat>, i: nat): nat
    requires i < |free|
  {
    if i == 0 then NULL else free[i - 1]
  }

  /** The free list from `head`; its most recently freed slot is the last of `free`. */
  predicate FreeChain(m: seq<Cell>, head: nat, free: seq<nat>) {
    && head == (if free == [] then NULL else free[|free| - 1])
    && (forall i :: 0 <= i < |free| ==> FIRST <= free[i] < |m|)
    && (forall i {:trigger NextFree(free, i)} :: 0 <= i < |free| ==> m[free[i]].parent == NextFree(free, i))
  }

  /** The `list` link of the i-th slot of a chain. */
  function ListLink(chain: seq<nat>, i: nat): nat
    requires i < |chain|
  {
    if i == 0 then (if |chain| == 1 then NULL else chain[|chain| - 1])
    else if i == 1 then NULL
    else chain[i - 1]
  }

  predicate ChainOk(m: seq<Cell>, key: int, chain: seq<nat>) {
    && chain != []
    && (forall i :: 0 <= i < |chain| ==> FIRST <= chain[i] < |m| && m[chain[i]].value.key == key)
    && (forall i {:trigger ListLink(chain, i)} :: 0 <= i < |chain| ==> m[chain[i]].list == ListLink(chain, i))
  }

  predicate ChainsOk(m: seq<Cell>, chains: Chains) {
    forall k :: k in chains ==> ChainOk(m, k, chains[k])
  }

  /** `o` names the place in the lists that holds slot `p`. */
  predicate PlaceOf(p: nat, o: Owner, free: seq<nat>, chains: Chains) {
    match o
    case Free(i) => i < |free| && free[i] == p
    case Live(k, i) => k in chains && i < |chains[k]| && chains[k][i] == p
  }

  predicate FreeOwned(free: seq<nat>, owner: seq<Owner>) {
    forall i :: 0 <= i < |free| ==> FIRST <= free[i] < |owner| && owner[free[i]] == Free(i)
  }

  predicate ChainOwned(k: int, chain: seq<nat>, owner: seq<Owner>) {
    forall i :: 0 <= i < |chain| ==> FIRST <= chain[i] < |owner| && owner[chain[i]] == Live(k, i)
  }

  /** Exactly one owner per slot, and every place in the lists is the owner of its slot. */
  predicate Owned(n: nat, free: seq<nat>, chains: Chains, owner: seq<Owner>) {
    && |owner| == n
    && (forall p {:trigger owner[p]} :: FIRST <= p < n ==> PlaceOf(p, owner[p], free, chains))
    && FreeOwned(free, owner)
    && (forall k :: k in chains ==> ChainOwned(k, chains[k], owner))
  }

  /** The tree's nodes are exactly the first slots of the chains. */
  predicate Rooted(t: Tree, chains: Chains) {
    && (forall e :: e in Inorder(t) ==> e.key in chains && chains[e.key] != [] && chains[e.key][0] == e.id)
    && (forall k :: k in chains ==> chains[k] != [] && Elem(chains[k][0], k) in Inorder(t))
  }

  // ---------------------------------------------------------------- ownership steps

  function ChainOf(chains: Chains, k: int): seq<nat> {
    if k in chains then chains[k] else []
  }

  function Pushed(chains: Chains, k: int, p: nat): Chains {
    chains[k := ChainOf(chains, k) + [p]]
  }

  function Popped(chains: Chains, k: int): Chains
    requires k in chains && chains[k] != []
  {
    var chain := chains[k][..|chains[k]| - 1];
    if chain == [] then chains - {k} else chains[k := chain]
  }

  /** A free slot goes to the end of a chain. */
  lemma ChainGrows(k: int, chain: seq<nat>, owner: seq<Owner>, p: nat)
    requires ChainOwned(k, chain, owner) && FIRST <= p < |owner| && owner[p].Free?
    ensures ChainOwned(k, chain + [p], owner[p := Live(k, |chain|)])
  {
  }

  /** A chain does not notice that a slot outside it changes owners. */
  lemma ChainStays(k: int, chain: seq<nat>, owner: seq<Owner>, p: nat, o: Owner)
    requires ChainOwned(k, chain, owner) && p < |owner| && (owner[p].Live? ==> owner[p].key != k)
    ensures ChainOwned(k, chain, owner[p := o])
  {
  }

  lemma FreeShrinks(free: seq<nat>, owner: seq<Owner>, o: Owner)
    requires FreeOwned(free, owner) && free != []
    ensures FreeOwned(free[..|free| - 1], owner[free[|free| - 1] := o])
  {
    var f, p := free[..|free| - 1], free[|free| - 1];
    forall i | 0 <= i < |f| ensures FIRST <= f[i] < |owner| && owner[p := o][f[i]] == Free(i) {
      assert f[i] == free[i] && owner[free[i]] == Free(i);
    }
  }

  lemma FreeGrows(free: seq<nat>, owner: seq<Owner>, p: nat)
    requires FreeOwned(free, owner) && FIRST <= p < |owner| && owner[p].Live?
    ensures FreeOwned(free + [p], owner[p := Free(|free|)])
  {
    var f := free + [p];
    forall i | 0 <= i < |f| ensures FIRST <= f[i] < |owner| && owner[p := Free(|free|)][f[i]] == Free(i) {
      if i < |free| { assert f[i] == free[i]; }
    }
  }

  /** The newest free slot becomes the newest slot of key `k`. */
  lemma OwnedPush(n: nat, free: seq<nat>, chains: Chains, owner: seq<Owner>, k: int)
    requires Owned(n, free, chains, owner) && free != []
    ensures var p := free[|free| - 1];
            p < |owner| && Owned(n, free[..|free| - 1], Pushed(chains, k, p), owner[p := Live(k, |ChainOf(chains, k)|)])
  {
    var p, chain := free[|free| - 1], ChainOf(chains, k);
    var free', chains', owner' := free[..|free| - 1], Pushed(chains, k, p), owner[p := Live(k, |chain|)];
    assert owner[p] == Free(|free| - 1);
    FreeShrinks(free, owner, Live(k, |chain|));
    forall j | j in chains' ensures ChainOwned(j, chains'[j], owner') {
      if j == k { ChainGrows(k, chain, owner, p); } else { ChainStays(j, chains[j], owner, p, Live(k, |chain|)); }
    }
    forall q | FIRST <= q < n ensures PlaceOf(q, owner'[q], free', chains') {
      assert PlaceOf(q, owner[q], free, chains);
    }
  }

  /** The newest slot of key `k` is freed; with its last slot the key goes too. */
  lemma OwnedPop(n: nat, free: seq<nat>, chains: Chains, owner: seq<Owner>, k: int)
    requires Owned(n, free, chains, owner) && k in chains && chains[k] != []
    ensures var p := chains[k][|chains[k]| - 1];
            p < |owner| && Owned(n, free + [p], Popped(chains, k), owner[p := Free(|free|)])
  {
    var last := |chains[k]| - 1;
    var p := chains[k][last];
    var free', chains', owner' := free + [p], Popped(chains, k), owner[p := Free(|free|)];
    assert ChainOwned(k, chains[k], owner) && owner[p] == Live(k, last);
    FreeGrows(free, owner, p);
    forall j | j in chains' ensures ChainOwned(j, chains'[j], owner') {
      if j == k { ChainShrinks(k, chains[k], owner, Free(|free|)); } else { ChainStays(j, chains[j], owner, p, Free(|free|)); }
    }
    forall q | FIRST <= q < n ensures PlaceOf(q, owner'[q], free', chains') {
      assert PlaceOf(q, owner[q], free, chains);
    }
  }

  lemma ChainShrinks(k: int, chain: seq<nat>, owner: seq<Owner>, o: Owner)
    requires ChainOwned(k, chain, owner) && chain != []
    ensures var n := |chain| - 1; ChainOwned(k, chain[..n], owner[chain[n] := o])
  {
    var n := |chain| - 1;
    forall i | 0 <= i < n ensures owner[chain[n] := o][chain[i]] == Live(k, i) {
      assert owner[chain[i]] == Live(k, i) && owner[chain[n]] == Live(k, n);
    }
  }

  /** No two places hold the same slot. */
  lemma OneOwner(n: nat, free: seq<nat>, chains: Chains, owner: seq<Owner>)
    requires Owned(n, free, chains, owner)
    ensures forall i, j :: 0 <= i < j < |free| ==> free[i] != free[j]
    ensures forall k, i, j :: k in chains && 0 <= i < |chains[k]| && 0 <= j < |free| ==> chains[k][i] != free[j]
    ensures forall k, i, l, j ::
              (k in chains && l in chains && 0 <= i < |chains[k]| && 0 <= j < |chains[l]| && (k != l || i != j))
              ==> chains[k][i] != chains[l][j]
  {
    forall i, j | 0 <= i < j < |free| ensures free[i] != free[j] {
      assert owner[free[i]] != owner[free[j]];
    }
    forall k, i, l, j | k in chains && l in chains && 0 <= i < |chains[k]| && 0 <= j < |chains[l]|
                        && (k != l || i != j)
      ensures chains[k][i] != chains[l][j]
    {
      assert owner[chains[k][i]] == Live(k, i) && owner[chains[l][j]] == Live(l, j);
    }
  }

  predicate TreeOwned(ids: set<nat>, owner: seq<Owner>) {
    forall i :: i in ids ==> i < |owner| && owner[i].Live? && owner[i].i == 0
  }

  /** The slots linked in the tree are those in first place of a chain. */
  lemma {:induction false} IdsOwner(t: Tree, owner: seq<Owner>)
    requires forall e :: e in Inorder(t) ==> e.id < |owner| && owner[e.id] == Live(e.key, 0)
    ensures TreeOwned(Ids(t), owner)
  {
    if t.Node? {
      assert t.e in Inorder(t);
      IdsOwner(t.left, owner);
      IdsOwner(t.right, owner);
    }
  }

  /** Everything about slots: the free list, the chains, one owner each, and the tree on top. */
  predicate SlotsOk(m: seq<Cell>, head: nat, free: seq<nat>, chains: Chains, owner: seq<Owner>, t: Tree) {
    && FreeChain(m, head, free) && ChainsOk(m, chains)
    && Owned(|m|, free, chains, owner) && Rooted(t, chains)
  }

  lemma TreeSlots(m: seq<Cell>, head: nat, free: seq<nat>, chains: Chains, owner: seq<Owner>, t: Tree)
    requires SlotsOk(m, head, free, chains, owner, t)
    ensures TreeOwned(Ids(t), owner) && FreeOwned(free, owner)
  {
    IdsOwner(t, owner);
  }

  // ---------------------------------------------------------------- contents

  predicate InRange(m: seq<Cell>, chain: seq<nat>) {
    forall i :: 0 <= i < |chain| ==> chain[i] < |m|
  }

  function Values(m: seq<Cell>, chain: seq<nat>): (v: seq<Value>)
    requires InRange(m, chain)
    ensures |v| == |chain| && forall i :: 0 <= i < |v| ==> v[i] == m[chain[i]].value
  {
    seq(|chain|, i requires 0 <= i < |chain| => m[chain[i]].value)
  }

  /** The values stored under each key, oldest first. */
  function Stacks(m: seq<Cell>, chains: Chains): map<int, seq<Value>>
    requires ChainsOk(m, chains)
  {
    map k | k in chains :: Values(m, chains[k])
  }

  // ---------------------------------------------------------------- storing a value

  /** The cells of a chain keep their list links and values. */
  predicate SameOn(m: seq<Cell>, m': seq<Cell>, chain: seq<nat>) {
    && |m'| == |m| && InRange(m, chain)
    && forall i :: 0 <= i < |chain| ==>
         m'[chain[i]].list == m[chain[i]].list && m'[chain[i]].value == m[chain[i]].value
  }

  lemma ChainFrame(m: seq<Cell>, m': seq<Cell>, k: int, chain: seq<nat>)
    requires ChainOk(m, k, chain) && SameOn(m, m', chain)
    ensures ChainOk(m', k, chain) && Values(m', chain) == Values(m, chain)
  {
  }

  lemma PushLink(chain: seq<nat>, p: nat, i: nat)
    requires chain != [] && i <= |chain|
    ensures ListLink(chain + [p], i) ==
            if i == 0 then p else if i < |chain| then ListLink(chain, i) else ListLink(chain, 0)
  {
  }

  /** Attaching: the new slot goes to the end of the chain, next to the node in its list. */
  lemma PushChain(m: seq<Cell>, m': seq<Cell>, k: int, chain: seq<nat>, p: nat, v: Value)
    requires ChainOk(m, k, chain) && v.key == k && FIRST <= p < |m| == |m'|
    requires m'[p].value == v && m'[p].list == m[chain[0]].list
    requires m'[chain[0]].list == p && m'[chain[0]].value == m[chain[0]].value
    requires SameOn(m, m', chain[1..])
    ensures ChainOk(m', k, chain + [p]) && Values(m', chain + [p]) == Values(m, chain) + [v]
  {
    var chain' := chain + [p];
    forall i | 0 <= i < |chain'|
      ensures FIRST <= chain'[i] < |m'| && m'[chain'[i]].value.key == k
      ensures m'[chain'[i]].list == ListLink(chain', i)
      ensures m'[chain'[i]].value == (if i < |chain| then m[chain[i]].value else v)
    {
      PushLink(chain, p, i);
      if 0 < i < |chain| {
        assert chain'[i] == chain[1..][i - 1] == chain[i] && m[chain[i]].list == ListLink(chain, i);
      } else {
        assert m[chain[0]].list == ListLink(chain, 0);
      }
    }
  }

  /** Detaching: the newest slot leaves the chain, and the node's list skips it. */
  lemma PopChain(m: seq<Cell>, m': seq<Cell>, k: int, chain: seq<nat>)
    requires ChainOk(m, k, chain) && |chain| > 1 && |m'| == |m|
    requires m[chain[0]].list == chain[|chain| - 1]
    requires m'[chain[0]].list == m[chain[|chain| - 1]].list && m'[chain[0]].value == m[chain[0]].value
    requires SameOn(m, m', chain[1..|chain| - 1])
    ensures var chain' := chain[..|chain| - 1];
            ChainOk(m', k, chain') && Values(m', chain') == Values(m, chain)[..|chain| - 1]
  {
    var chain' := chain[..|chain| - 1];
    forall i | 0 <= i < |chain'|
      ensures m'[chain'[i]].list == ListLink(chain', i) && m'[chain'[i]].value == m[chain[i]].value
    {
      assert m[chain[i]].list == ListLink(chain, i);
      assert m[chain[|chain| - 1]].list == ListLink(chain, |chain| - 1);
      if 0 < i { assert chain[1..|chain| - 1][i - 1] == chain[i]; }
    }
  }

  /** The given free slots keep their links. */
  predicate FreeSame(m: seq<Cell>, m': seq<Cell>, free: seq<nat>) {
    && |m'| == |m|
    && forall i :: 0 <= i < |free| ==> free[i] < |m| && m'[free[i]].parent == m[free[i]].parent
  }

  /** Taking the top off the free list, when the other free slots keep their links. */
  lemma FreePop(m: seq<Cell>, m': seq<Cell>, head: nat, free: seq<nat>)
    requires FreeChain(m, head, free) && free != [] && FreeSame(m, m', free[..|free| - 1])
    ensures FreeChain(m', m[free[|free| - 1]].parent, free[..|free| - 1])
  {
    var j := |free| - 1;
    assert m[free[j]].parent == NextFree(free, j);
    assert forall i :: 0 <= i < j ==> free[..j][i] == free[i] && NextFree(free[..j], i) == NextFree(free, i);
  }

  /** Putting a slot on top of the free list. */
  lemma FreePush(m: seq<Cell>, m': seq<Cell>, head: nat, free: seq<nat>, p: nat)
    requires FreeChain(m, head, free) && FreeSame(m, m', free) && FIRST <= p < |m| && m'[p].parent == head
    ensures FreeChain(m', p, free + [p])
  {
    var free' := free + [p];
    forall i | 0 <= i < |free'| ensures m'[free'[i]].parent == NextFree(free', i) {
      if i < |free| { assert m[free[i]].parent == NextFree(free, i); }
    }
  }

  // ---------------------------------------------------------------- one value in, one value out

  /** Slots owned by other keys keep their list links and values. */
  predicate OthersSame(m: seq<Cell>, m': seq<Cell>, owner: seq<Owner>, k: int) {
    && |m'| == |m| == |owner|
    && forall q :: FIRST <= q < |m| && owner[q].Live? && owner[q].key != k ==>
         m'[q].list == m[q].list && m'[q].value == m[q].value
  }

  lemma OthersFrame(m: seq<Cell>, m': seq<Cell>, free: seq<nat>, chains: Chains, owner: seq<Owner>, k: int, j: int)
    requires Owned(|m|, free, chains, owner) && ChainsOk(m, chains) && OthersSame(m, m', owner, k)
    requires j in chains && j != k
    ensures ChainOk(m', j, chains[j]) && Values(m', chains[j]) == Values(m, chains[j])
  {
    var chain := chains[j];
    assert ChainOk(m, j, chain);
    forall i | 0 <= i < |chain|
      ensures chain[i] < |m| && m'[chain[i]].list == m[chain[i]].list && m'[chain[i]].value == m[chain[i]].value
    {
      assert owner[chain[i]] == Live(j, i);
    }
    ChainFrame(m, m', j, chain);
  }

  /** One key has a new chain; the others keep theirs. */
  lemma ChainsReplace(m: seq<Cell>, m': seq<Cell>, free: seq<nat>, chains: Chains, owner: seq<Owner>, k: int,
                      chain': seq<nat>, vs: seq<Value>)
    requires Owned(|m|, free, chains, owner) && ChainsOk(m, chains) && OthersSame(m, m', owner, k)
    requires ChainOk(m', k, chain') && Values(m', chain') == vs
    ensures ChainsOk(m', chains[k := chain']) && Stacks(m', chains[k := chain']) == Stacks(m, chains)[k := vs]
  {
    var chains' := chains[k := chain'];
    forall j | j in chains' ensures ChainOk(m', j, chains'[j]) {
      if j != k { OthersFrame(m, m', free, chains, owner, k, j); }
    }
    var stacks, stacks' := Stacks(m, chains)[k := vs], Stacks(m', chains');
    assert stacks.Keys == stacks'.Keys;
    forall j | j in stacks ensures stacks[j] == stacks'[j] {
      if j != k { OthersFrame(m, m', free, chains, owner, k, j); }
    }
  }

  lemma ChainsPush(m: seq<Cell>, m': seq<Cell>, free: seq<nat>, chains: Chains, owner: seq<Owner>, k: int, p: nat, v: Value)
    requires Owned(|m|, free, chains, owner) && ChainsOk(m, chains) && OthersSame(m, m', owner, k)
    requires InRange(m, ChainOf(chains, k)) && ChainOk(m', k, ChainOf(chains, k) + [p])
    requires Values(m', ChainOf(chains, k) + [p]) == Values(m, ChainOf(chains, k)) + [v]
    ensures ChainsOk(m', Pushed(chains, k, p))
    ensures Stacks(m', Pushed(chains, k, p)) ==
            Stacks(m, chains)[k := (if k in chains then Stacks(m, chains)[k] else []) + [v]]
  {
    ChainsReplace(m, m', free, chains, owner, k, ChainOf(chains, k) + [p], Values(m, ChainOf(chains, k)) + [v]);
  }

  /** The last value of a key is gone: so is the key, and nothing else. */
  lemma ChainsDrop(m: seq<Cell>, m': seq<Cell>, free: seq<nat>, chains: Chains, owner: seq<Owner>, k: int)
    requires Owned(|m|, free, chains, owner) && ChainsOk(m, chains) && OthersSame(m, m', owner, k)
    requires k in chains && |chains[k]| == 1
    ensures Popped(chains, k) == chains - {k} && ChainsOk(m', Popped(chains, k))
    ensures Stacks(m', Popped(chains, k)) == Stacks(m, chains) - {k}
  {
    forall j | j in chains - {k}
      ensures ChainOk(m', j, chains[j]) && Values(m', chains[j]) == Values(m, chains[j])
    {
      OthersFrame(m, m', free, chains, owner, k, j);
    }
  }

  lemma ChainsShorten(m: seq<Cell>, m': seq<Cell>, free: seq<nat>, chains: Chains, owner: seq<Owner>, k: int)
    requires Owned(|m|, free, chains, owner) && ChainsOk(m, chains) && OthersSame(m, m', owner, k)
    requires k in chains && |chains[k]| > 1 && InRange(m, chains[k])
    requires var chain := chains[k][..|chains[k]| - 1];
             ChainOk(m', k, chain) && Values(m', chain) == Values(m, chains[k])[..|chains[k]| - 1]
    ensures var chain := chains[k][..|chains[k]| - 1];
            && Popped(chains, k) == chains[k := chain] && ChainsOk(m', chains[k := chain])
            && Stacks(m', chains[k := chain]) == Stacks(m, chains)[k := Stacks(m, chains)[k][..|chains[k]| - 1]]
  {
    var chain := chains[k][..|chains[k]| - 1];
    ChainsReplace(m, m', free, chains, owner, k, chain, Values(m, chains[k])[..|chains[k]| - 1]);
  }

  /** The newest free slot, filled with `v`, has joined the chain of `v`'s key. */
  lemma StorePush(m: seq<Cell>, m': seq<Cell>, head: nat, free: seq<nat>, chains: Chains, owner: seq<Owner>,
                  t: Tree, t': Tree, k: int)
    requires SlotsOk(m, head, free, chains, owner, t) && free != [] && FreeSame(m, m', free[..|free| - 1])
    requires ChainsOk(m', Pushed(chains, k, free[|free| - 1]))
    requires Rooted(t', Pushed(chains, k, free[|free| - 1]))
    ensures var p := free[|free| - 1];
            && p < |m| == |owner|
            && SlotsOk(m', m[p].parent, free[..|free| - 1], Pushed(chains, k, p),
                       owner[p := Live(k, |ChainOf(chains, k)|)], t')
  {
    OwnedPush(|m|, free, chains, owner, k);
    FreePop(m, m', head, free);
  }

  /** The newest slot of key `k` has been taken out of its chain and freed. */
  lemma StorePop(m: seq<Cell>, m': seq<Cell>, head: nat, free: seq<nat>, chains: Chains, owner: seq<Owner>,
                 t: Tree, t': Tree, k: int)
    requires SlotsOk(m, head, free, chains, owner, t) && k in chains && chains[k] != [] && FreeSame(m, m', free)
    requires var p := chains[k][|chains[k]| - 1]; FIRST <= p < |m| && m'[p].parent == head
    requires ChainsOk(m', Popped(chains, k)) && Rooted(t', Popped(chains, k))
    ensures var p := chains[k][|chains[k]| - 1];
            && p < |m| == |owner|
            && SlotsOk(m', p, free + [p], Popped(chains, k), owner[p := Free(|free|)], t')
  {
    OwnedPop(|m|, free, chains, owner, k);
    FreePush(m, m', head, free, chains[k][|chains[k]| - 1]);
  }

  // ---------------------------------------------------------------- the tree on top of the chains

  lemma RootedAttach(t: Tree, chains: Chains, k: int, p: nat)
    requires Rooted(t, chains) && k in chains
    ensures Rooted(t, Pushed(chains, k, p))
  {
    assert Pushed(chains, k, p)[k][0] == chains[k][0];
  }

  lemma RootedShorten(t: Tree, chains: Chains, k: int)
    requires Rooted(t, chains) && k in chains && |chains[k]| > 1
    ensures Rooted(t, Popped(chains, k))
  {
    assert Popped(chains, k)[k][0] == chains[k][0];
  }

  lemma RootedInsert(t: Tree, t': Tree, chains: Chains, k: int, p: nat, a: seq<Elem>, b: seq<Elem>)
    requires Rooted(t, chains) && k !in chains
    requires Inorder(t) == a + b && Inorder(t') == a + [Elem(p, k)] + b
    ensures Rooted(t', Pushed(chains, k, p))
  {
    var chains' := Pushed(chains, k, p);
    assert chains'[k] == [p];
    forall e | e in Inorder(t') ensures e.key in chains' && chains'[e.key] != [] && chains'[e.key][0] == e.id {
      if e != Elem(p, k) { assert e in a + b; }
    }
    forall j | j in chains' ensures chains'[j] != [] && Elem(chains'[j][0], j) in Inorder(t') {
      if j != k { assert Elem(chains[j][0], j) in a + b; }
    }
  }

  lemma RootedDelete(t: Tree, t': Tree, chains: Chains, e: Elem, a: seq<Elem>, b: seq<Elem>)
    requires Rooted(t, chains) && Ordered(Inorder(t))
    requires Inorder(t) == a + [e] + b && Inorder(t') == a + b
    requires e.key in chains && |chains[e.key]| == 1
    ensures Rooted(t', Popped(chains, e.key))
  {
    var chains' := Popped(chains, e.key);
    OrderedParts(a, e, b);
    forall x | x in Inorder(t') ensures x.key in chains' && chains'[x.key] != [] && chains'[x.key][0] == x.id {
      assert x in Inorder(t) && x.key != e.key;
    }
    forall j | j in chains' ensures chains'[j] != [] && Elem(chains'[j][0], j) in Inorder(t') {
      assert Elem(chains[j][0], j) in a + [e] + b;
    }
  }

  // ---------------------------------------------------------------- the four things a request can do

  function AttachCells(m: seq<Cell>, p: nat, base: nat, v: Value): seq<Cell>
    requires p < |m| && base < |m|
  {
    m[p := m[p].(value := v, list := m[base].list)][base := m[base].(list := p)]
  }

  lemma AttachFrame(m: seq<Cell>, free: seq<nat>, owner: seq<Owner>, ids: set<nat>, base: nat, v: Value)
    requires |owner| == |m| && FreeOwned(free, owner) && TreeOwned(ids, owner) && free != []
    requires base < |m| && owner[base].Live? && owner[base].key == v.key
    ensures var m' := AttachCells(m, free[|free| - 1], base, v);
            && OthersSame(m, m', owner, v.key) && AgreeOn(m, m', ids) && FreeSame(m, m', free[..|free| - 1])
  {
    var p, f := free[|free| - 1], free[..|free| - 1];
    var m' := AttachCells(m, p, base, v);
    assert owner[p] == Free(|free| - 1);
    forall i | 0 <= i < |f| ensures f[i] < |m| && m'[f[i]].parent == m[f[i]].parent {
      assert f[i] == free[i] && owner[free[i]] == Free(i);
    }
  }

  lemma AttachChain(m: seq<Cell>, free: seq<nat>, chains: Chains, owner: seq<Owner>, v: Value)
    requires Owned(|m|, free, chains, owner) && free != [] && v.key in chains && ChainOk(m, v.key, chains[v.key])
    requires free[|free| - 1] < |m|
    ensures var p, chain := free[|free| - 1], chains[v.key];
            var m' := AttachCells(m, p, chain[0], v);
            ChainOk(m', v.key, chain + [p]) && Values(m', chain + [p]) == Values(m, chain) + [v]
  {
    var k, p, chain := v.key, free[|free| - 1], chains[v.key];
    var m' := AttachCells(m, p, chain[0], v);
    assert owner[p] == Free(|free| - 1) && owner[chain[0]] == Live(k, 0);
    var tail := chain[1..];
    forall i | 0 <= i < |tail| ensures tail[i] < |m| && m'[tail[i]] == m[tail[i]] {
      assert owner[chain[i + 1]] == Live(k, i + 1);
    }
    PushChain(m, m', k, chain, p, v);
  }

  /** Attaching the newest free slot, holding `v`, to the node of a key that is there. */
  lemma AttachStep(m: seq<Cell>, head: nat, free: seq<nat>, chains: Chains, owner: seq<Owner>, t: Tree, v: Value)
    requires SlotsOk(m, head, free, chains, owner, t) && free != [] && v.key in chains
    requires free[|free| - 1] < |m| && chains[v.key] != [] && chains[v.key][0] < |m| == |owner|
    ensures var p := free[|free| - 1];
            var m' := AttachCells(m, p, chains[v.key][0], v);
            && SlotsOk(m', m[p].parent, free[..|free| - 1], Pushed(chains, v.key, p),
                       owner[p := Live(v.key, |ChainOf(chains, v.key)|)], t)
            && Stacks(m', Pushed(chains, v.key, p)) ==
               Stacks(m, chains)[v.key := Stacks(m, chains)[v.key] + [v]]
            && AgreeOn(m, m', Ids(t))
  {
    var p := free[|free| - 1];
    var m' := AttachCells(m, p, chains[v.key][0], v);
    TreeSlots(m, head, free, chains, owner, t);
    AttachFrame(m, free, owner, Ids(t), chains[v.key][0], v);
    AttachChain(m, free, chains, owner, v);
    ChainsPush(m, m', free, chains, owner, v.key, p, v);
    RootedAttach(t, chains, v.key, p);
    StorePush(m, m', head, free, chains, owner, t, t, v.key);
  }

  lemma LinkFrame(m: seq<Cell>, m': seq<Cell>, free: seq<nat>, owner: seq<Owner>, ids: set<nat>, v: Value)
    requires |owner| == |m| && FreeOwned(free, owner) && TreeOwned(ids, owner) && free != []
    requires var p := free[|free| - 1]; Kept(m[p := m[p].(value := v, list := NULL)], m', ids + {p})
    ensures OthersSame(m, m', owner, v.key) && FreeSame(m, m', free[..|free| - 1])
    ensures ChainOk(m', v.key, [free[|free| - 1]]) && Values(m', [free[|free| - 1]]) == [v]
  {
    var p, f := free[|free| - 1], free[..|free| - 1];
    assert owner[p] == Free(|free| - 1);
    forall i | 0 <= i < |f| ensures f[i] < |m| && m'[f[i]].parent == m[f[i]].parent {
      assert f[i] == free[i] && owner[free[i]] == Free(i);
    }
  }

  /** The newest free slot, holding `v`, has been linked into the tree as the node of a new key. */
  lemma LinkStep(m: seq<Cell>, m': seq<Cell>, head: nat, free: seq<nat>, chains: Chains, owner: seq<Owner>,
                 t: Tree, t': Tree, v: Value, a: seq<Elem>, b: seq<Elem>)
    requires SlotsOk(m, head, free, chains, owner, t) && free != [] && v.key !in chains
    requires free[|free| - 1] < |m| == |owner|
    requires var p := free[|free| - 1];
             Kept(m[p := m[p].(value := v, list := NULL)], m', Ids(t) + {p})
    requires Inorder(t) == a + b && Inorder(t') == a + [Elem(free[|free| - 1], v.key)] + b
    ensures var p := free[|free| - 1];
            && SlotsOk(m', m[p].parent, free[..|free| - 1], Pushed(chains, v.key, p),
                       owner[p := Live(v.key, |ChainOf(chains, v.key)|)], t')
            && Stacks(m', Pushed(chains, v.key, p)) == Stacks(m, chains)[v.key := [v]]
  {
    var p := free[|free| - 1];
    TreeSlots(m, head, free, chains, owner, t);
    LinkFrame(m, m', free, owner, Ids(t), v);
    assert ChainOf(chains, v.key) + [p] == [p] && [] + [v] == [v];
    ChainsPush(m, m', free, chains, owner, v.key, p, v);
    RootedInsert(t, t', chains, v.key, p, a, b);
    StorePush(m, m', head, free, chains, owner, t, t', v.key);
  }

  function DetachCells(m: seq<Cell>, base: nat, p: nat, head: nat): seq<Cell>
    requires p < |m| && base < |m|
  {
    m[base := m[base].(list := m[p].list)][p := m[p].(parent := head, color := Red)]
  }

  lemma DetachFrame(m: seq<Cell>, head: nat, free: seq<nat>, owner: seq<Owner>, ids: set<nat>, base: nat, p: nat, k: int)
    requires |owner| == |m| && FreeOwned(free, owner) && TreeOwned(ids, owner)
    requires base < |m| && owner[base] == Live(k, 0) && p < |m| && owner[p].Live? && owner[p].key == k && owner[p].i > 0
    ensures var m' := DetachCells(m, base, p, head);
            OthersSame(m, m', owner, k) && AgreeOn(m, m', ids) && FreeSame(m, m', free)
  {
    var m' := DetachCells(m, base, p, head);
    forall i | 0 <= i < |free| ensures free[i] < |m| && m'[free[i]].parent == m[free[i]].parent {
      assert owner[free[i]] == Free(i);
    }
  }

  lemma DetachChain(m: seq<Cell>, head: nat, free: seq<nat>, chains: Chains, owner: seq<Owner>, k: int)
    requires Owned(|m|, free, chains, owner) && k in chains && |chains[k]| > 1 && ChainOk(m, k, chains[k])
    ensures var chain, n := chains[k], |chains[k]| - 1;
            var m' := DetachCells(m, chain[0], chain[n], head);
            && m[chain[0]].list == chain[n]
            && ChainOk(m', k, chain[..n]) && Values(m', chain[..n]) == Values(m, chain)[..n]
  {
    var chain, n := chains[k], |chains[k]| - 1;
    var m' := DetachCells(m, chain[0], chain[n], head);
    assert owner[chain[0]] == Live(k, 0) && owner[chain[n]] == Live(k, n);
    var mid := chain[1..n];
    forall i | 0 <= i < |mid| ensures mid[i] < |m| && m'[mid[i]] == m[mid[i]] {
      assert owner[chain[i + 1]] == Live(k, i + 1);
    }
    assert m[chain[0]].list == ListLink(chain, 0);
    PopChain(m, m', k, chain);
  }

  /** Detaching the newest duplicate of a key and freeing its slot. */
  lemma DetachStep(m: seq<Cell>, head: nat, free: seq<nat>, chains: Chains, owner: seq<Owner>, t: Tree, k: int)
    requires SlotsOk(m, head, free, chains, owner, t) && k in chains && |chains[k]| > 1 && InRange(m, chains[k])
    requires |owner| == |m|
    ensures var p := chains[k][|chains[k]| - 1];
            var m' := DetachCells(m, chains[k][0], p, head);
            && SlotsOk(m', p, free + [p], Popped(chains, k), owner[p := Free(|free|)], t)
            && Stacks(m', Popped(chains, k)) == Stacks(m, chains)[k := Stacks(m, chains)[k][..|chains[k]| - 1]]
            && AgreeOn(m, m', Ids(t))
  {
    var p := chains[k][|chains[k]| - 1];
    var m' := DetachCells(m, chains[k][0], p, head);
    TreeSlots(m, head, free, chains, owner, t);
    assert owner[p] == Live(k, |chains[k]| - 1);
    DetachFrame(m, head, free, owner, Ids(t), chains[k][0], p, k);
    DetachChain(m, head, free, chains, owner, k);
    ChainsShorten(m, m', free, chains, owner, k);
    RootedShorten(t, chains, k);
    StorePop(m, m', head, free, chains, owner, t, t, k);
  }

  lemma DropFrame(m: seq<Cell>, m1: seq<Cell>, m': seq<Cell>, head: nat, free: seq<nat>, chains: Chains,
                  owner: seq<Owner>, t: Tree, e: Elem)
    requires SlotsOk(m, head, free, chains, owner, t) && e.key in chains && chains[e.key] == [e.id]
    requires Kept(m, m1, Ids(t) - {e.id} + {NIL}) && e.id < |m|
    requires m' == m1[e.id := m1[e.id].(parent := head, color := Red)]
    ensures OthersSame(m, m', owner, e.key) && FreeSame(m, m', free)
  {
    assert owner[chains[e.key][0]] == Live(e.key, 0);
    TreeSlots(m, head, free, chains, owner, t);
    forall i | 0 <= i < |free| ensures m'[free[i]].parent == m[free[i]].parent {
      assert owner[free[i]] == Free(i);
    }
  }

  /** The last value of a key: its node has been deleted from the tree and its slot freed. */
  lemma DropStep(m: seq<Cell>, m1: seq<Cell>, m': seq<Cell>, head: nat, free: seq<nat>, chains: Chains,
                 owner: seq<Owner>, t: Tree, t': Tree, e: Elem, a: seq<Elem>, b: seq<Elem>)
    requires SlotsOk(m, head, free, chains, owner, t) && e.key in chains && chains[e.key] == [e.id]
    requires Kept(m, m1, Ids(t) - {e.id} + {NIL}) && e.id < |m| == |owner|
    requires m' == m1[e.id := m1[e.id].(parent := head, color := Red)]
    requires Ordered(Inorder(t)) && Inorder(t) == a + [e] + b && Inorder(t') == a + b
    ensures SlotsOk(m', e.id, free + [e.id], Popped(chains, e.key), owner[e.id := Free(|free|)], t')
    ensures Stacks(m', Popped(chains, e.key)) == Stacks(m, chains) - {e.key}
  {
    DropFrame(m, m1, m', head, free, chains, owner, t, e);
    ChainsDrop(m, m', free, chains, owner, e.key);
    RootedDelete(t, t', chains, e, a, b);
    StorePop(m, m', head, free, chains, owner, t, t', e.key);
  }

  // ---------------------------------------------------------------- views

  lemma StacksFiled(m: seq<Cell>, chains: Chains)
    requires ChainsOk(m, chains)
    ensures forall k :: k in Stacks(m, chains) ==>
              && Stacks(m, chains)[k] != []
              && forall i :: 0 <= i < |Stacks(m, chains)[k]| ==> Stacks(m, chains)[k][i].key == k
  {
    forall k | k in chains ensures chains[k] != [] && forall i :: 0 <= i < |chains[k]| ==> Values(m, chains[k])[i].key == k {
      assert ChainOk(m, k, chains[k]);
    }
  }

  /** The node of a key: where its chain starts, and whether anything is attached to it. */
  lemma NodeOf(m: seq<Cell>, head: nat, free: seq<nat>, chains: Chains, owner: seq<Owner>, t: Tree, e: Elem)
    requires SlotsOk(m, head, free, chains, owner, t) && e in Inorder(t)
    ensures e.key in chains && chains[e.key] != [] && chains[e.key][0] == e.id && InRange(m, chains[e.key])
    ensures FIRST <= e.id < |m| == |owner| && m[e.id].list < |m|
    ensures m[e.id].list == NULL <==> |chains[e.key]| == 1
    ensures m[e.id].list == NULL ==> chains[e.key] == [e.id]
    ensures |chains[e.key]| > 1 ==> m[e.id].list == chains[e.key][|chains[e.key]| - 1]
  {
    var chain := chains[e.key];
    assert ChainOk(m, e.key, chain);
    assert m[chain[0]].list == ListLink(chain, 0);
  }

  /** A node with something attached: the attached list starts at the newest slot of its key. */
  lemma NewestOf(m: seq<Cell>, head: nat, free: seq<nat>, chains: Chains, owner: seq<Owner>, t: Tree, e: Elem)
    requires SlotsOk(m, head, free, chains, owner, t) && e in Inorder(t) && e.id < |m| && m[e.id].list != NULL
    ensures var p := m[e.id].list;
            && e.key in chains && |chains[e.key]| > 1 && chains[e.key][0] == e.id && InRange(m, chains[e.key])
            && p == chains[e.key][|chains[e.key]| - 1] && FIRST <= p < |m| == |owner| && p != e.id
  {
    NodeOf(m, head, free, chains, owner, t, e);
    var n := |chains[e.key]| - 1;
    assert owner[chains[e.key][n]] == Live(e.key, n) && owner[chains[e.key][0]] == Live(e.key, 0);
  }

  lemma FreeIsNotNode(m: seq<Cell>, head: nat, free: seq<nat>, chains: Chains, owner: seq<Owner>, t: Tree, e: Elem)
    requires SlotsOk(m, head, free, chains, owner, t) && e in Inorder(t)
    ensures forall i :: 0 <= i < |free| ==> free[i] != e.id
  {
    assert owner[chains[e.key][0]] == Live(e.key, 0);
  }

  lemma FreeNotInTree(m: seq<Cell>, head: nat, free: seq<nat>, chains: Chains, owner: seq<Owner>, t: Tree)
    requires SlotsOk(m, head, free, chains, owner, t)
    ensures forall i :: 0 <= i < |free| ==> free[i] !in Ids(t)
  {
    TreeSlots(m, head, free, chains, owner, t);
  }

  lemma KeyAbsent(t: Tree, chains: Chains, k: int)
    requires Rooted(t, chains) && forall e :: e in Inorder(t) ==> e.key != k
    ensures k !in chains
  {
  }

  /** The top of the free list is a free slot, outside the tree. */
  lemma FreeTop(m: seq<Cell>, head: nat, free: seq<nat>, chains: Chains, owner: seq<Owner>, t: Tree)
    requires SlotsOk(m, head, free, chains, owner, t) && free != []
    ensures FIRST <= head == free[|free| - 1] < |m| == |owner| && head !in Ids(t)
  {
    FreeNotInTree(m, head, free, chains, owner, t);
  }

  /** No node is on its own list: a detached slot equal to the node means that the list was empty. */
  lemma SelfListFree(m: seq<Cell>, head: nat, free: seq<nat>, chains: Chains, owner: seq<Owner>, t: Tree, e: Elem)
    requires SlotsOk(m, head, free, chains, owner, t) && e in Inorder(t)
    ensures e.id < |m| && m[e.id].list != e.id
  {
    NodeOf(m, head, free, chains, owner, t, e);
    if m[e.id].list != NULL { NewestOf(m, head, free, chains, owner, t, e); }
  }
}
