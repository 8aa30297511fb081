/**
 * Recency lists: which keys a least-recently-used cache holds after a trace of accesses.
 */
module Recency {
  import opened Sequences

  function First<T>(s: seq<T>, n: nat): (r: seq<T>)
    ensures |r| <= n && |r| <= |s|
  {
    if |s| <= n then s else s[..n]
  }

  function Without(s: seq<int>, k: int): seq<int> {
    if s == [] then [] else (if s[0] == k then [] else [s[0]]) + Without(s[1..], k)
  }

  /** One access to a cache of capacity `cap` holding `keys`, most recent first. */
  function Touch(keys: seq<int>, cap: nat, k: int): seq<int>
    requires cap > 0
  {
    [k] + if k in keys then Without(keys, k) else First(keys, cap - 1)
  }

  /** The keys held after a trace of accesses to an empty cache. */
  function Held(trace: seq<int>, cap: nat): seq<int>
    requires cap > 0
  {
    if trace == [] then []
    else Touch(Held(trace[..|trace| - 1], cap), cap, trace[|trace| - 1])
  }

  /** All keys of the trace, most recently accessed first. */
  function MostRecent(trace: seq<int>): seq<int> {
    if trace == [] then []
    else [trace[|trace| - 1]] + Without(MostRecent(trace[..|trace| - 1]), trace[|trace| - 1])
  }

  // ---------------------------------------------------------------- what MostRecent means

  /** The position of the last access to `k`, or -1. */
  function LastAt(trace: seq<int>, k: int): (i: int)
    ensures -1 <= i < |trace|
    ensures i >= 0 ==> trace[i] == k
    ensures forall j :: i < j < |trace| ==> trace[j] != k
  {
    if trace == [] then -1
    else if trace[|trace| - 1] == k then |trace| - 1
    else LastAt(trace[..|trace| - 1], k)
  }

  predicate Later(trace: seq<int>, k: int, j: int) {
    LastAt(trace, k) > LastAt(trace, j)
  }

  predicate Descending(r: seq<int>, trace: seq<int>) {
    forall i, j :: 0 <= i < j < |r| ==> Later(trace, r[i], r[j])
  }

  /** Every key accessed, each once, in the order of their last accesses, latest first. */
  ghost predicate IsRecency(r: seq<int>, trace: seq<int>) {
    && (forall k :: k in r <==> k in trace)
    && Descending(r, trace)
  }

  lemma {:induction false} WithoutElems(s: seq<int>, k: int)
    ensures forall x :: x in Without(s, k) <==> x in s && x != k
    ensures |Without(s, k)| <= |s|
    ensures k !in s ==> Without(s, k) == s
    ensures NoDup(s) && k in s ==> |Without(s, k)| == |s| - 1
  {
    if s != [] { WithoutElems(s[1..], k); }
  }

  /** Removing a key keeps whatever order holds between later and earlier elements. */
  lemma {:induction false} WithoutOrdered(s: seq<int>, k: int, trace: seq<int>)
    requires Descending(s, trace)
    ensures Descending(Without(s, k), trace)
  {
    if s != [] {
      var rest := Without(s[1..], k);
      WithoutOrdered(s[1..], k, trace);
      WithoutElems(s[1..], k);
      if s[0] != k {
        forall j | 0 <= j < |rest| ensures Later(trace, s[0], rest[j]) {
          assert rest[j] in rest;
          assert rest[j] in s[1..];
        }
        DescendingCons(s[0], rest, trace);
      }
    }
  }

  lemma DescendingCons(k: int, rest: seq<int>, trace: seq<int>)
    requires Descending(rest, trace) && forall j :: 0 <= j < |rest| ==> Later(trace, k, rest[j])
    ensures Descending([k] + rest, trace)
  {
  }

  lemma {:induction false} MostRecentIsRecency(trace: seq<int>)
    ensures IsRecency(MostRecent(trace), trace)
  {
    if trace != [] {
      var n := |trace| - 1;
      var init, k := trace[..n], trace[n];
      var m := MostRecent(init);
      MostRecentIsRecency(init);
      WithoutElems(m, k);
      WithoutOrdered(m, k, init);
      var rest := Without(m, k);
      assert trace == init + [k];
      forall j | 0 <= j < |rest| ensures LastAt(trace, rest[j]) == LastAt(init, rest[j]) < n {
        assert rest[j] in rest && rest[j] != k;
      }
      assert LastAt(trace, k) == n;
      assert Descending(rest, trace) by {
        forall i, j | 0 <= i < j < |rest| ensures Later(trace, rest[i], rest[j]) {
          assert Later(init, rest[i], rest[j]);
        }
      }
      DescendingCons(k, rest, trace);
    }
  }

  lemma {:induction false} WithoutAt(s: seq<int>, i: nat)
    requires NoDup(s) && i < |s|
    ensures Without(s, s[i]) == s[..i] + s[i + 1..]
  {
    if i == 0 {
      WithoutElems(s[1..], s[0]);
    } else {
      WithoutAt(s[1..], i - 1);
      assert s[..i] + s[i + 1..] == [s[0]] + (s[1..][..i - 1] + s[1..][i..]);
    }
  }

  /** There is only one such list, so `MostRecent` is it. */
  lemma {:induction false} RecencyUnique(r: seq<int>, s: seq<int>, trace: seq<int>)
    requires Descending(r, trace) && Descending(s, trace)
    requires forall k :: k in r <==> k in s
    ensures r == s
    decreases |r|
  {
    assert (r != [] ==> r[0] in r) && (s != [] ==> s[0] in s);
    if r != [] {
      var i :| 0 <= i < |s| && s[i] == r[0];
      var j :| 0 <= j < |r| && r[j] == s[0];
      assert r[0] == s[0];
      forall k ensures k in r[1..] <==> k in s[1..] {
        if k in r[1..] {
          var x :| 1 <= x < |r| && r[x] == k;
          assert k in s && k != s[0];
        }
        if k in s[1..] {
          var x :| 1 <= x < |s| && s[x] == k;
          assert k in r && k != r[0];
        }
      }
      RecencyUnique(r[1..], s[1..], trace);
    }
  }

  lemma RecencyNoDup(r: seq<int>, trace: seq<int>)
    requires IsRecency(r, trace)
    ensures NoDup(r)
  {
  }

  // ---------------------------------------------------------------- the cache holds a prefix of it

  lemma {:induction false} FirstWithout(s: seq<int>, k: int, n: nat)
    requires NoDup(s)
    ensures k in First(s, n + 1) ==> Without(First(s, n + 1), k) == First(Without(s, k), n)
    ensures k !in First(s, n + 1) ==> First(Without(s, k), n) == First(s, n)
    decreases n
  {
    if s != [] {
      var x, rest := s[0], s[1..];
      assert s == [x] + rest && x !in rest;
      if x == k {
        FirstWithoutHead(k, rest, n);
      } else if n > 0 {
        FirstWithout(rest, k, n - 1);
        FirstWithoutTail(x, rest, k, n - 1);
      } else {
        FirstCons(x, rest, 0);
      }
    }
  }

  lemma FirstWithoutHead(k: int, rest: seq<int>, n: nat)
    requires k !in rest
    ensures k in First([k] + rest, n + 1)
    ensures Without(First([k] + rest, n + 1), k) == First(Without([k] + rest, k), n)
  {
    FirstCons(k, rest, n);
    WithoutCons(k, rest, k);
    WithoutCons(k, First(rest, n), k);
    WithoutElems(rest, k);
    WithoutElems(First(rest, n), k);
  }

  lemma FirstWithoutTail(x: int, rest: seq<int>, k: int, n: nat)
    requires x != k
    requires k in First(rest, n + 1) ==> Without(First(rest, n + 1), k) == First(Without(rest, k), n)
    requires k !in First(rest, n + 1) ==> First(Without(rest, k), n) == First(rest, n)
    ensures var s := [x] + rest;
            && (k in First(s, n + 2) ==> Without(First(s, n + 2), k) == First(Without(s, k), n + 1))
            && (k !in First(s, n + 2) ==> First(Without(s, k), n + 1) == First(s, n + 1))
  {
    FirstCons(x, rest, n + 1);
    FirstCons(x, rest, n);
    WithoutCons(x, rest, k);
    WithoutCons(x, First(rest, n + 1), k);
    FirstCons(x, Without(rest, k), n);
  }

  lemma FirstCons(k: int, w: seq<int>, n: nat)
    ensures First([k] + w, n + 1) == [k] + First(w, n)
  {
  }

  lemma WithoutCons(x: int, rest: seq<int>, k: int)
    ensures Without([x] + rest, k) == if x == k then Without(rest, k) else [x] + Without(rest, k)
  {
    assert ([x] + rest)[1..] == rest;
  }

  lemma TouchFirst(m: seq<int>, k: int, cap: nat)
    requires NoDup(m) && cap > 0
    ensures Touch(First(m, cap), cap, k) == First([k] + Without(m, k), cap)
  {
    FirstWithout(m, k, cap - 1);
    FirstCons(k, Without(m, k), cap - 1);
    assert First(First(m, cap), cap - 1) == First(m, cap - 1);
  }

  /** After any trace a cache of capacity `cap` holds the `cap` most recently accessed keys, in order. */
  lemma {:induction false} HeldIsMostRecent(trace: seq<int>, cap: nat)
    requires cap > 0
    ensures Held(trace, cap) == First(MostRecent(trace), cap)
    decreases |trace|
  {
    if trace != [] {
      var init, k := trace[..|trace| - 1], trace[|trace| - 1];
      var m := MostRecent(init);
      HeldIsMostRecent(init, cap);
      MostRecentIsRecency(init);
      RecencyNoDup(m, init);
      TouchFirst(m, k, cap);
    }
  }

  // ---------------------------------------------------------------- larger caches

  /** Inclusion: what a smaller cache holds is the front part of what a larger one holds. */
  lemma HeldInclusion(trace: seq<int>, cap: nat, cap': nat)
    requires 0 < cap <= cap'
    ensures Held(trace, cap) == First(Held(trace, cap'), cap)
  {
    HeldIsMostRecent(trace, cap);
    HeldIsMostRecent(trace, cap');
  }

  function Misses(trace: seq<int>, cap: nat): nat
    requires cap > 0
  {
    if trace == [] then 0
    else
      var init, k := trace[..|trace| - 1], trace[|trace| - 1];
      Misses(init, cap) + if k in Held(init, cap) then 0 else 1
  }

  /** A larger cache never misses more often. */
  lemma {:induction false} MissesMonotone(trace: seq<int>, cap: nat, cap': nat)
    requires 0 < cap <= cap'
    ensures Misses(trace, cap') <= Misses(trace, cap)
    decreases |trace|
  {
    if trace != [] {
      var init := trace[..|trace| - 1];
      MissesMonotone(init, cap, cap');
      HeldInclusion(init, cap, cap');
    }
  }
}

/**
 * What the slots and the callbacks amount to over a trace: which keys are held, and that every
 * load is matched by an eviction or an entry still held.
 */
module Accounting {
  import opened Sequences
  import opened MemoryBlock
  import opened Recency

  /** The accesses made, the keys loaded and the keys evicted, in order. */
  datatype History = History(trace: seq<int>, loaded: seq<int>, evicted: seq<int>)

  /** Every key ever loaded is either still held or has been evicted. */
  ghost predicate Balanced(loaded: seq<int>, evicted: seq<int>, keys: seq<int>) {
    multiset(loaded) == multiset(evicted) + multiset(keys)
  }

  /**
   * The slots hold exactly the keys that least-recently-used replacement keeps, in order; loads
   * and evictions balance; a load is a miss.
   */
  ghost predicate Accounts(keys: seq<int>, h: History, cap: nat) {
    && cap > 0 && keys == Held(h.trace, cap)
    && Balanced(h.loaded, h.evicted, keys)
    && |h.loaded| == Misses(h.trace, cap)
  }

  /**
   * What holds after any accesses: the slots have distinct keys, the most recently accessed ones
   * first, and loads equal evictions plus what is held.
   */
  lemma AccountsMean(keys: seq<int>, h: History, cap: nat)
    requires Accounts(keys, h, cap)
    ensures NoDup(keys) && IsRecency(MostRecent(h.trace), h.trace)
    ensures keys == First(MostRecent(h.trace), cap)
    ensures Misses(h.trace, cap) == |h.loaded| == |h.evicted| + |keys|
  {
    HeldNoDup(h.trace, cap);
    HeldIsMostRecent(h.trace, cap);
    MostRecentIsRecency(h.trace);
    BalancedCount(h.loaded, h.evicted, keys);
  }

  lemma BalancedCount(loaded: seq<int>, evicted: seq<int>, keys: seq<int>)
    requires Balanced(loaded, evicted, keys)
    ensures |loaded| == |evicted| + |keys|
  {
    assert |multiset(loaded)| == |multiset(evicted)| + |multiset(keys)|;
  }

  lemma HeldNoDup(trace: seq<int>, cap: nat)
    requires cap > 0
    ensures NoDup(Held(trace, cap))
  {
    HeldIsMostRecent(trace, cap);
    MostRecentIsRecency(trace);
    RecencyNoDup(MostRecent(trace), trace);
  }

  // ---------------------------------------------------------------- one more access

  lemma NextAccess(trace: seq<int>, k: int, cap: nat)
    requires cap > 0
    ensures Held(trace + [k], cap) == Touch(Held(trace, cap), cap, k)
    ensures Misses(trace + [k], cap) == Misses(trace, cap) + if k in Held(trace, cap) then 0 else 1
  {
    assert (trace + [k])[..|trace|] == trace;
  }

  /** The key in slot `i` is accessed: its slot is moved to the front. */
  lemma HitAccounts(keys: seq<int>, i: nat, h: History, cap: nat)
    requires Accounts(keys, h, cap) && i < |keys|
    ensures Accounts(Rotated(keys, i), h.(trace := h.trace + [keys[i]]), cap)
  {
    NextAccess(h.trace, keys[i], cap);
    HeldNoDup(h.trace, cap);
    WithoutAt(keys, i);
    RotatedFront(keys, i);
    RotatedSame(keys, i);
  }

  lemma RotatedFront(s: seq<int>, i: nat)
    requires i < |s|
    ensures Rotated(s, i) == [s[i]] + (s[..i] + s[i + 1..]) && s[i] in s
  {
  }

  lemma RotatedSame(s: seq<int>, i: nat)
    requires i < |s|
    ensures multiset(Rotated(s, i)) == multiset(s)
  {
    var a, b := s[..i], s[i + 1..];
    assert s == a + ([s[i]] + b);
    assert Rotated(s, i) == ([s[i]] + a) + b;
  }

  /** A key that is not held is loaded into a slot not in use. */
  lemma FreshAccounts(keys: seq<int>, k: int, h: History, cap: nat)
    requires Accounts(keys, h, cap) && k !in keys && |keys| < cap
    ensures Accounts([k] + keys, History(h.trace + [k], h.loaded + [k], h.evicted), cap)
  {
    NextAccess(h.trace, k, cap);
    BalancedLoad(h.loaded, h.evicted, keys, k);
  }

  /** A key that is not held is loaded over the last one, which is evicted. */
  lemma OverAccounts(keys: seq<int>, k: int, h: History, cap: nat)
    requires Accounts(keys, h, cap) && k !in keys && |keys| == cap
    ensures Accounts([k] + keys[..cap - 1],
                     History(h.trace + [k], h.loaded + [k], h.evicted + [keys[cap - 1]]), cap)
  {
    NextAccess(h.trace, k, cap);
    BalancedEvict(h.loaded, h.evicted, keys);
    BalancedLoad(h.loaded, h.evicted + [keys[cap - 1]], keys[..cap - 1], k);
  }

  lemma BalancedLoad(loaded: seq<int>, evicted: seq<int>, keys: seq<int>, k: int)
    requires Balanced(loaded, evicted, keys)
    ensures Balanced(loaded + [k], evicted, [k] + keys)
  {
    assert multiset(loaded + [k]) == multiset(loaded) + multiset{k};
    assert multiset([k] + keys) == multiset{k} + multiset(keys);
  }

  lemma BalancedEvict(loaded: seq<int>, evicted: seq<int>, keys: seq<int>)
    requires Balanced(loaded, evicted, keys) && keys != []
    ensures var n := |keys| - 1; Balanced(loaded, evicted + [keys[n]], keys[..n])
  {
    var n := |keys| - 1;
    assert keys == keys[..n] + [keys[n]];
    assert multiset(keys) == multiset(keys[..n]) + multiset{keys[n]};
    assert multiset(evicted + [keys[n]]) == multiset(evicted) + multiset{keys[n]};
  }

  // ---------------------------------------------------------------- slots and their keys

  function KeysOf(e: seq<Bytes>, keyOf: Bytes -> int): (k: seq<int>)
    ensures |k| == |e| && forall i :: 0 <= i < |e| ==> k[i] == keyOf(e[i])
  {
    seq(|e|, i requires 0 <= i < |e| => keyOf(e[i]))
  }

  lemma KeysCons(x: Bytes, e: seq<Bytes>, keyOf: Bytes -> int)
    ensures KeysOf([x] + e, keyOf) == [keyOf(x)] + KeysOf(e, keyOf)
  {
  }

  lemma KeysPrefix(e: seq<Bytes>, n: nat, keyOf: Bytes -> int)
    requires n <= |e|
    ensures KeysOf(e[..n], keyOf) == KeysOf(e, keyOf)[..n]
  {
  }

  /** A slot rewritten with the same key and moved to the front. */
  lemma KeysRotated(e: seq<Bytes>, i: nat, x: Bytes, keyOf: Bytes -> int)
    requires i < |e| && keyOf(x) == keyOf(e[i])
    ensures KeysOf(Rotated(e[i := x], i), keyOf) == Rotated(KeysOf(e, keyOf), i)
  {
  }

  lemma HitSlots(e: seq<Bytes>, i: nat, x: Bytes, keyOf: Bytes -> int, h: History, cap: nat)
    requires Accounts(KeysOf(e, keyOf), h, cap) && i < |e| && keyOf(x) == keyOf(e[i])
    ensures Accounts(KeysOf(Rotated(e[i := x], i), keyOf), h.(trace := h.trace + [keyOf(x)]), cap)
  {
    KeysRotated(e, i, x, keyOf);
    HitAccounts(KeysOf(e, keyOf), i, h, cap);
  }

  lemma FreshSlots(e: seq<Bytes>, x: Bytes, keyOf: Bytes -> int, h: History, cap: nat)
    requires Accounts(KeysOf(e, keyOf), h, cap) && |e| < cap && keyOf(x) !in KeysOf(e, keyOf)
    ensures Accounts(KeysOf([x] + e, keyOf), History(h.trace + [keyOf(x)], h.loaded + [keyOf(x)], h.evicted), cap)
  {
    KeysCons(x, e, keyOf);
    FreshAccounts(KeysOf(e, keyOf), keyOf(x), h, cap);
  }

  lemma OverSlots(e: seq<Bytes>, x: Bytes, keyOf: Bytes -> int, h: History, cap: nat)
    requires Accounts(KeysOf(e, keyOf), h, cap) && |e| == cap && keyOf(x) !in KeysOf(e, keyOf)
    ensures Accounts(KeysOf([x] + e[..cap - 1], keyOf),
                     History(h.trace + [keyOf(x)], h.loaded + [keyOf(x)], h.evicted + [keyOf(e[cap - 1])]), cap)
  {
    KeysPrefix(e, cap - 1, keyOf);
    KeysCons(x, e[..cap - 1], keyOf);
    OverAccounts(KeysOf(e, keyOf), keyOf(x), h, cap);
  }

  /** The first `n` slots after a callback has been given each of them. */
  function Given(s: seq<Bytes>, n: nat, f: Bytes -> Bytes): (r: seq<Bytes>)
    ensures |r| == |s|
  {
    seq(|s|, i requires 0 <= i < |s| => if i < n then f(s[i]) else s[i])
  }

  lemma GivenNone(s: seq<Bytes>, f: Bytes -> Bytes)
    ensures Given(s, 0, f) == s
  {
  }

  lemma GivenNext(s: seq<Bytes>, n: nat, f: Bytes -> Bytes)
    requires n < |s|
    ensures Given(s, n, f)[n] == s[n] && Given(s, n, f)[n := f(s[n])] == Given(s, n + 1, f)
  {
  }

  lemma KeysNext(e: seq<Bytes>, n: nat, keyOf: Bytes -> int)
    requires n < |e|
    ensures KeysOf(e, keyOf)[..n + 1] == KeysOf(e, keyOf)[..n] + [keyOf(e[n])]
  {
  }

  lemma RotatedOver(s: seq<Bytes>, i: nat, x: Bytes)
    requires i < |s|
    ensures Rotated(s[i := x], i) == [x] + s[..i] + s[i + 1..]
  {
  }

  lemma RotatedPrefix(s: seq<Bytes>, i: nat, n: nat)
    requires i < n <= |s|
    ensures Rotated(s, i)[..n] == Rotated(s[..n], i)
  {
  }

  lemma InstalledPrefix(s: seq<Bytes>, i: nat, x: Bytes)
    requires i < |s|
    ensures Rotated(s[i := x], i)[..i + 1] == [x] + s[..i]
  {
  }
}

/**
 * The least-recently-used cache: slots in a byte block, searched from the front, promoted by
 * moving bytes. The user's callbacks appear as functions on the bytes of a slot.
 */
module LruCache {
  import opened MemoryBlock
  import opened Recency
  import opened Accounting

  class Lru {
    const bytes: array<bv8>
    const base: nat
    const size: nat
    const capacity: nat
    /** The key that the comparator sees in a slot. */
    const keyOf: Bytes -> int
    var count: nat

    /** The contents of the occupied slots, front first. */
    ghost var entries: seq<Bytes>
    ghost var h: History

    /** The byte block holds the entries. */
    ghost predicate BlockOk()
      reads this, bytes
    {
      && Fits(bytes[..], base, size, capacity) && count <= capacity
      && entries == SlotsOf(bytes[..], base, size, capacity)[..count]
    }

    ghost predicate Valid()
      reads this, bytes
    {
      BlockOk() && Accounts(KeysOf(entries, keyOf), h, capacity)
    }

    ghost predicate KeepsSize(f: Bytes -> Bytes) {
      forall b: Bytes {:trigger f(b)} :: |b| == size ==> |f(b)| == size
    }

    ghost predicate KeepsKey(f: Bytes -> Bytes) {
      forall b: Bytes {:trigger f(b)} :: |b| == size ==> keyOf(f(b)) == keyOf(b)
    }

    ghost predicate SetsKey(f: Bytes -> Bytes, key: int) {
      forall b: Bytes {:trigger f(b)} :: |b| == size ==> keyOf(f(b)) == key
    }

    /** What the cache asks of its callbacks: a hit keeps the slot's key, a miss installs the requested one. */
    ghost predicate Callbacks(key: int, hit: Bytes -> Bytes, miss: Bytes -> Bytes, evict: Bytes -> Bytes) {
      KeepsSize(hit) && KeepsKey(hit) && KeepsSize(miss) && SetsKey(miss, key) && KeepsSize(evict)
    }

    constructor (a: array<bv8>, base0: nat, size0: nat, capacity0: nat, key: Bytes -> int)
      requires capacity0 > 0 && Fits(a[..], base0, size0, capacity0)
      ensures bytes == a && base == base0 && size == size0 && capacity == capacity0 && keyOf == key
      ensures Valid() && entries == [] && h == History([], [], [])
    {
      bytes, base, size, capacity, keyOf := a, base0, size0, capacity0, key;
      count := 0;
      entries, h := [], History([], [], []);
    }

    /** Linear search from the front. */
    method FindSlot(key: int) returns (i: nat)
      requires BlockOk()
      ensures i <= count && (i < count ==> keyOf(entries[i]) == key)
      ensures i == count ==> key !in KeysOf(entries, keyOf)
    {
      i := 0;
      while i < count
        invariant i <= count && forall j :: 0 <= j < i ==> keyOf(entries[j]) != key
      {
        var slot := ReadSlot(bytes, base, size, capacity, i);
        if keyOf(slot) == key { return; }
        i := i + 1;
      }
    }

    // -------------------------------------------------------------- the callbacks

    /** What is in a slot, in use or not. */
    ghost function SlotAt(i: nat): Bytes
      requires Fits(bytes[..], base, size, capacity) && i < capacity
      reads bytes
    {
      SlotsOf(bytes[..], base, size, capacity)[i]
    }

    /** Only slot `i` changes, to `x`. */
    twostate predicate Wrote(i: nat, x: Bytes)
      reads bytes
    {
      && Fits(bytes[..], base, size, capacity) && Fits(old(bytes[..]), base, size, capacity) && i < capacity
      && SlotsOf(bytes[..], base, size, capacity) == SlotsOf(old(bytes[..]), base, size, capacity)[i := x]
      && OutsideSame(old(bytes[..]), bytes[..], base, Index(base, size, capacity))
    }

    /** The callback may rewrite the slot it is given. */
    method CallHit(i: nat, hit: Bytes -> Bytes)
      requires Fits(bytes[..], base, size, capacity) && i < capacity && KeepsSize(hit)
      modifies bytes
      ensures Wrote(i, hit(old(SlotAt(i))))
    {
      var slot := ReadSlot(bytes, base, size, capacity, i);
      WriteSlot(bytes, base, size, capacity, i, hit(slot));
    }

    /** The callback fills the slot; what it loads is on record. */
    method CallMiss(i: nat, miss: Bytes -> Bytes)
      requires Fits(bytes[..], base, size, capacity) && i < capacity && KeepsSize(miss)
      modifies bytes, this`h
      ensures Wrote(i, miss(old(SlotAt(i))))
      ensures h == old(h).(loaded := old(h).loaded + [keyOf(SlotAt(i))])
    {
      var slot := ReadSlot(bytes, base, size, capacity, i);
      slot := miss(slot);
      h := h.(loaded := h.loaded + [keyOf(slot)]);
      WriteSlot(bytes, base, size, capacity, i, slot);
    }

    /** The callback disposes of what is in the slot and may leave anything there; what it is given is on record. */
    method CallEvict(i: nat, evict: Bytes -> Bytes)
      requires Fits(bytes[..], base, size, capacity) && i < capacity && KeepsSize(evict)
      modifies bytes, this`h
      ensures Wrote(i, evict(old(SlotAt(i))))
      ensures h == old(h).(evicted := old(h).evicted + [keyOf(old(SlotAt(i)))])
    {
      var slot := ReadSlot(bytes, base, size, capacity, i);
      h := h.(evicted := h.evicted + [keyOf(slot)]);
      WriteSlot(bytes, base, size, capacity, i, evict(slot));
    }

    // -------------------------------------------------------------- the block

    /** The hit slot is rewritten by the callback and moved to the front. */
    method TouchSlot(i: nat, hit: Bytes -> Bytes)
      requires BlockOk() && i < count && KeepsSize(hit)
      modifies bytes, this`entries
      ensures BlockOk() && var e := old(entries); entries == Rotated(e[i := hit(e[i])], i)
      ensures OutsideSame(old(bytes[..]), bytes[..], base, Index(base, size, capacity))
    {
      entries := Rotated(entries[i := hit(entries[i])], i);
      CallHit(i, hit);
      ghost var b, s := bytes[..], SlotsOf(bytes[..], base, size, capacity);
      RotatedPrefix(s, i, count);
      if i != 0 {
        Promote(bytes, base, size, capacity, i);
        OutsideTrans(old(bytes[..]), b, bytes[..], base, Index(base, size, capacity));
      }
    }

    /** The last slot in use is filled by the callback and moved to the front. */
    method Install(miss: Bytes -> Bytes)
      requires Fits(bytes[..], base, size, capacity) && 0 < count <= capacity && KeepsSize(miss)
      requires entries == SlotsOf(bytes[..], base, size, capacity)[..count - 1]
      modifies bytes, this`entries, this`h
      ensures BlockOk() && entries == [miss(old(SlotAt(count - 1)))] + old(entries)
      ensures h == old(h).(loaded := old(h).loaded + [keyOf(entries[0])])
      ensures OutsideSame(old(bytes[..]), bytes[..], base, Index(base, size, capacity))
    {
      ghost var s := SlotsOf(bytes[..], base, size, capacity);
      entries := [miss(s[count - 1])] + entries;
      CallMiss(count - 1, miss);
      ghost var b := bytes[..];
      InstalledPrefix(s, count - 1, miss(s[count - 1]));
      Promote(bytes, base, size, capacity, count - 1);
      OutsideTrans(old(bytes[..]), b, bytes[..], base, Index(base, size, capacity));
    }

    /** A slot not in use so far takes the new key. */
    method InstallFresh(miss: Bytes -> Bytes)
      requires BlockOk() && count < capacity && KeepsSize(miss)
      modifies bytes, this`entries, this`count, this`h
      ensures BlockOk() && entries == [miss(old(SlotAt(count)))] + old(entries)
      ensures h == old(h).(loaded := old(h).loaded + [keyOf(entries[0])])
      ensures OutsideSame(old(bytes[..]), bytes[..], base, Index(base, size, capacity))
    {
      ghost var b := bytes[..];
      count := count + 1;
      assert bytes[..] == b;
      Install(miss);
    }

    /** The least recently used slot is handed to the evict callback, and what that leaves to the miss callback. */
    method InstallOver(miss: Bytes -> Bytes, evict: Bytes -> Bytes)
      requires BlockOk() && 0 < count == capacity && KeepsSize(miss) && KeepsSize(evict)
      modifies bytes, this`entries, this`h
      ensures BlockOk() && var e, n := old(entries), count - 1; entries == [miss(evict(e[n]))] + e[..n]
      ensures var e, n := old(entries), count - 1;
              h == old(h).(loaded := old(h).loaded + [keyOf(entries[0])], evicted := old(h).evicted + [keyOf(e[n])])
      ensures OutsideSame(old(bytes[..]), bytes[..], base, Index(base, size, capacity))
    {
      entries := entries[..count - 1];
      CallEvict(count - 1, evict);
      ghost var b := bytes[..];
      Install(miss);
      OutsideTrans(old(bytes[..]), b, bytes[..], base, Index(base, size, capacity));
    }

    // -------------------------------------------------------------- accesses

    /** The access is on the trace, and the accounts hold again. */
    ghost method Traced(key: int)
      requires BlockOk() && Accounts(KeysOf(entries, keyOf), h.(trace := h.trace + [key]), capacity)
      modifies this`h
      ensures Valid() && h == old(h).(trace := old(h).trace + [key])
    {
      h := h.(trace := h.trace + [key]);
    }

    /** Where the entries were `e` and the history `h0`, slot `i` has been hit. */
    ghost method TracedHit(e: seq<Bytes>, i: nat, x: Bytes)
      requires BlockOk() && i < |e| && keyOf(x) == keyOf(e[i]) && entries == Rotated(e[i := x], i)
      requires Accounts(KeysOf(e, keyOf), h, capacity)
      modifies this`h
      ensures Valid() && h == old(h).(trace := old(h).trace + [keyOf(x)])
    {
      HitSlots(e, i, x, keyOf, h, capacity);
      Traced(keyOf(x));
    }

    /** Where the entries were `e` and the history `h0`, `x` has been loaded into a slot not in use. */
    ghost method TracedFresh(e: seq<Bytes>, x: Bytes, h0: History)
      requires BlockOk() && |e| < capacity && keyOf(x) !in KeysOf(e, keyOf) && entries == [x] + e
      requires Accounts(KeysOf(e, keyOf), h0, capacity) && h == h0.(loaded := h0.loaded + [keyOf(x)])
      modifies this`h
      ensures Valid() && h == History(h0.trace + [keyOf(x)], h0.loaded + [keyOf(x)], h0.evicted)
    {
      FreshSlots(e, x, keyOf, h0, capacity);
      Traced(keyOf(x));
    }

    /** Where the entries were `e` and the history `h0`, `x` has been loaded over the last entry. */
    ghost method TracedOver(e: seq<Bytes>, x: Bytes, h0: History)
      requires BlockOk() && 0 < |e| == capacity && keyOf(x) !in KeysOf(e, keyOf) && entries == [x] + e[..capacity - 1]
      requires Accounts(KeysOf(e, keyOf), h0, capacity)
      requires h == h0.(loaded := h0.loaded + [keyOf(x)], evicted := h0.evicted + [keyOf(e[capacity - 1])])
      modifies this`h
      ensures Valid()
      ensures h == History(h0.trace + [keyOf(x)], h0.loaded + [keyOf(x)], h0.evicted + [keyOf(e[capacity - 1])])
    {
      OverSlots(e, x, keyOf, h0, capacity);
      Traced(keyOf(x));
    }

    method AccessHit(i: nat, key: int, hit: Bytes -> Bytes)
      requires Valid() && i < count && keyOf(entries[i]) == key
      requires KeepsSize(hit) && KeepsKey(hit)
      modifies this`entries, this`h, bytes
      ensures Valid() && h == old(h).(trace := old(h).trace + [key])
      ensures var e := old(entries); entries == Rotated(e[i := hit(e[i])], i)
      ensures OutsideSame(old(bytes[..]), bytes[..], base, Index(base, size, capacity))
    {
      ghost var e := entries;
      assert |e[i]| == size;
      TouchSlot(i, hit);
      TracedHit(e, i, hit(e[i]));
    }

    /** A miss while there is room: one load, no eviction. */
    method AccessFresh(key: int, miss: Bytes -> Bytes)
      requires Valid() && key !in KeysOf(entries, keyOf) && count < capacity
      requires KeepsSize(miss) && SetsKey(miss, key)
      modifies this`entries, this`count, this`h, bytes
      ensures Valid() && entries == [miss(old(SlotAt(count)))] + old(entries)
      ensures h == History(old(h).trace + [key], old(h).loaded + [key], old(h).evicted)
      ensures OutsideSame(old(bytes[..]), bytes[..], base, Index(base, size, capacity))
    {
      ghost var e, x, h0 := entries, miss(SlotAt(count)), h;
      assert |SlotAt(count)| == size;
      InstallFresh(miss);
      TracedFresh(e, x, h0);
    }

    /** A miss in a full cache: one eviction, of the last entry, and one load. */
    method AccessOver(key: int, miss: Bytes -> Bytes, evict: Bytes -> Bytes)
      requires Valid() && key !in KeysOf(entries, keyOf) && count == capacity
      requires KeepsSize(miss) && SetsKey(miss, key) && KeepsSize(evict)
      modifies this`entries, this`h, bytes
      ensures Valid() && var e, n := old(entries), capacity - 1; entries == [miss(evict(e[n]))] + e[..n]
      ensures h == History(old(h).trace + [key], old(h).loaded + [key],
                           old(h).evicted + [keyOf(old(entries)[capacity - 1])])
      ensures OutsideSame(old(bytes[..]), bytes[..], base, Index(base, size, capacity))
    {
      ghost var e, last, h0 := entries, entries[capacity - 1], h;
      ghost var x := miss(evict(last));
      assert |last| == size && |evict(last)| == size && keyOf(x) == key;
      InstallOver(miss, evict);
      assert entries[0] == x && e[capacity - 1] == last;
      TracedOver(e, x, h0);
    }

    /** One access: a hit is promoted; a miss takes a fresh slot or the least recently used one. */
    method Access(key: int, hit: Bytes -> Bytes, miss: Bytes -> Bytes, evict: Bytes -> Bytes)
      requires Valid() && Callbacks(key, hit, miss, evict)
      modifies this`entries, this`count, this`h, bytes
      ensures Valid() && h.trace == old(h).trace + [key]
      ensures key in old(KeysOf(entries, keyOf)) ==>
                && h.loaded == old(h).loaded && h.evicted == old(h).evicted
                && exists i :: 0 <= i < |old(entries)| && keyOf(old(entries)[i]) == key
                     && entries == [hit(old(entries)[i])] + old(entries)[..i] + old(entries)[i + 1..]
      ensures key !in old(KeysOf(entries, keyOf)) && old(count) < capacity ==>
                && entries == [miss(old(SlotAt(count)))] + old(entries)
                && h.loaded == old(h).loaded + [key] && h.evicted == old(h).evicted
      ensures key !in old(KeysOf(entries, keyOf)) && old(count) == capacity ==>
                && entries == [miss(evict(old(entries)[capacity - 1]))] + old(entries)[..capacity - 1]
                && h.loaded == old(h).loaded + [key]
                && h.evicted == old(h).evicted + [keyOf(old(entries)[capacity - 1])]
      ensures OutsideSame(old(bytes[..]), bytes[..], base, Index(base, size, capacity))
    {
      var i := FindSlot(key);
      if i < count {
        RotatedOver(entries, i, hit(entries[i]));
        assert KeysOf(entries, keyOf)[i] == key;
        AccessHit(i, key, hit);
      } else if count < capacity {
        AccessFresh(key, miss);
      } else {
        AccessOver(key, miss, evict);
      }
    }

    /** Releasing the cache evicts what it still holds: every load has then been evicted once. */
    method Release(evict: Bytes -> Bytes)
      requires Valid() && KeepsSize(evict)
      modifies this`h, bytes
      ensures h == old(h).(evicted := old(h).evicted + KeysOf(old(entries), keyOf))
      ensures multiset(h.evicted) == multiset(h.loaded)
      ensures Fits(bytes[..], base, size, capacity)
      ensures forall i :: 0 <= i < count ==> SlotAt(i) == evict(old(SlotAt(i)))
      ensures forall i :: count <= i < capacity ==> SlotAt(i) == old(SlotAt(i))
      ensures OutsideSame(old(bytes[..]), bytes[..], base, Index(base, size, capacity))
    {
      ghost var s, keys, b0 := SlotsOf(bytes[..], base, size, capacity), KeysOf(entries, keyOf), bytes[..];
      IndexMonotone(base, size, 0, capacity);
      GivenNone(s, evict);
      for i := 0 to count
        invariant Fits(bytes[..], base, size, capacity)
        invariant h == old(h).(evicted := old(h).evicted + keys[..i])
        invariant SlotsOf(bytes[..], base, size, capacity) == Given(s, i, evict)
        invariant OutsideSame(b0, bytes[..], base, Index(base, size, capacity))
      {
        ghost var b := bytes[..];
        GivenNext(s, i, evict);
        KeysNext(entries, i, keyOf);
        CallEvict(i, evict);
        OutsideTrans(b0, b, bytes[..], base, Index(base, size, capacity));
      }
      assert keys[..count] == keys;
    }
  }
}
