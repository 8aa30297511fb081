/**
 * What the tree is for: a sorted multimap of bounded size that keeps, per key, a stack of values.
 */
module Multimap {
  import opened Arena

  datatype State = State(stacks: map<int, seq<Value>>, room: nat)

  datatype Op = Put(value: Value) | Take(key: int) | TakeSmallest | TakeLargest

  datatype Outcome = Stored | Got(value: Value) | Full | Empty | BadKey

  ghost predicate IsLeast(k: int, keys: set<int>) {
    k in keys && forall j :: j in keys ==> k <= j
  }

  ghost predicate IsGreatest(k: int, keys: set<int>) {
    k in keys && forall j :: j in keys ==> j <= k
  }

  lemma EmptyOrNot(keys: set<int>)
    ensures keys == {} || exists k :: k in keys
  {
    if !exists k :: k in keys { assert keys == {}; }
  }

  ghost function Any(keys: set<int>): (k: int)
    requires keys != {}
    ensures k in keys
  {
    EmptyOrNot(keys);
    var j :| j in keys;
    j
  }

  lemma {:induction false} HasExtremes(keys: set<int>)
    requires keys != {}
    ensures (exists k :: IsLeast(k, keys)) && (exists k :: IsGreatest(k, keys))
    decreases keys
  {
    var k := Any(keys);
    var rest := keys - {k};
    assert keys == rest + {k};
    if rest == {} {
      assert IsLeast(k, keys) && IsGreatest(k, keys);
    } else {
      HasExtremes(rest);
      var i :| IsLeast(i, rest);
      var j :| IsGreatest(j, rest);
      assert IsLeast(if i < k then i else k, keys);
      assert IsGreatest(if j > k then j else k, keys);
    }
  }

  ghost function LeastKey(keys: set<int>): (k: int)
    requires keys != {}
    ensures IsLeast(k, keys)
  {
    HasExtremes(keys);
    var k :| IsLeast(k, keys);
    k
  }

  ghost function GreatestKey(keys: set<int>): (k: int)
    requires keys != {}
    ensures IsGreatest(k, keys)
  {
    HasExtremes(keys);
    var k :| IsGreatest(k, keys);
    k
  }

  function StackOf(s: State, key: int): seq<Value> {
    if key in s.stacks then s.stacks[key] else []
  }

  function Push(s: State, v: Value): State
    requires s.room > 0
  {
    State(s.stacks[v.key := StackOf(s, v.key) + [v]], s.room - 1)
  }

  /** The newest value of the key leaves; the key leaves with its last value. */
  function Pop(s: State, key: int): (State, Outcome)
    requires key in s.stacks && s.stacks[key] != []
  {
    var stack := s.stacks[key];
    var n := |stack| - 1;
    (State(if n == 0 then s.stacks - {key} else s.stacks[key := stack[..n]], s.room + 1), Got(stack[n]))
  }

  /** Every key present has a value, and values are filed under their own key. */
  predicate Wf(s: State) {
    forall k :: k in s.stacks ==>
      s.stacks[k] != [] && forall i :: 0 <= i < |s.stacks[k]| ==> s.stacks[k][i].key == k
  }

  ghost function Apply(s: State, op: Op): (r: (State, Outcome))
    requires Wf(s)
    ensures Wf(r.0)
  {
    match op
    case Put(v) => if s.room == 0 then (s, Full) else (Push(s, v), Stored)
    case Take(k) =>
      if s.stacks == map[] then (s, Empty)
      else if k !in s.stacks then (s, BadKey)
      else Pop(s, k)
    case TakeSmallest => if s.stacks == map[] then (s, Empty) else Pop(s, LeastKey(s.stacks.Keys))
    case TakeLargest => if s.stacks == map[] then (s, Empty) else Pop(s, GreatestKey(s.stacks.Keys))
  }

  // ---------------------------------------------------------------- what each request does

  /** Apart from `key`, the multimaps hold the same. */
  ghost predicate OthersKept(s: State, s': State, key: int) {
    forall k :: k != key ==> (k in s'.stacks <==> k in s.stacks) && StackOf(s', k) == StackOf(s, k)
  }

  /** The newest value of `key`, which is there, has been given out, and its slot is free. */
  ghost predicate Taken(s: State, s': State, o: Outcome, key: int) {
    && key in s.stacks && s.stacks[key] != []
    && o == Got(s.stacks[key][|s.stacks[key]| - 1])
    && StackOf(s', key) == s.stacks[key][..|s.stacks[key]| - 1]
    && (key in s'.stacks <==> |s.stacks[key]| > 1)
    && s'.room == s.room + 1 && OthersKept(s, s', key)
  }

  /** A put is refused if there is no room, and otherwise adds its value as the newest of its key. */
  ghost predicate PutDone(s: State, s': State, o: Outcome, v: Value) {
    if s.room == 0 then s' == s && o == Full
    else
      && o == Stored && s'.room == s.room - 1
      && v.key in s'.stacks && s'.stacks[v.key] == StackOf(s, v.key) + [v] && OthersKept(s, s', v.key)
  }

  /** A take of a key that is not there changes nothing. */
  ghost predicate TakeDone(s: State, s': State, o: Outcome, key: int) {
    if key in s.stacks then Taken(s, s', o, key)
    else s' == s && o == if s.stacks.Keys == {} then Empty else BadKey
  }

  /** A take of an end takes from the least, or the greatest, of the keys there are. */
  ghost predicate EndDone(s: State, s': State, o: Outcome, least: bool) {
    if s.stacks.Keys == {} then s' == s && o == Empty
    else exists k :: Taken(s, s', o, k) && forall j :: j in s.stacks ==> if least then k <= j else j <= k
  }

  ghost predicate Done(s: State, s': State, o: Outcome, op: Op) {
    match op
    case Put(v) => PutDone(s, s', o, v)
    case Take(k) => TakeDone(s, s', o, k)
    case TakeSmallest => EndDone(s, s', o, true)
    case TakeLargest => EndDone(s, s', o, false)
  }

  lemma PopTaken(s: State, key: int)
    requires Wf(s) && key in s.stacks
    ensures Taken(s, Pop(s, key).0, Pop(s, key).1, key)
  {
  }

  /** Every request does what it is for. */
  lemma ApplyDone(s: State, op: Op)
    requires Wf(s)
    ensures Done(s, Apply(s, op).0, Apply(s, op).1, op)
  {
    assert s.stacks.Keys == {} <==> s.stacks == map[];
    match op
    case Put(_) =>
    case Take(k) => if k in s.stacks { PopTaken(s, k); }
    case TakeSmallest => if s.stacks != map[] { PopTaken(s, LeastKey(s.stacks.Keys)); }
    case TakeLargest => if s.stacks != map[] { PopTaken(s, GreatestKey(s.stacks.Keys)); }
  }

  /** There is only one outcome and one new state that fit a request. */
  lemma DoneOnce(s: State, op: Op, s1: State, o1: Outcome, s2: State, o2: Outcome)
    requires Wf(s) && Done(s, s1, o1, op) && Done(s, s2, o2, op)
    ensures s1 == s2 && o1 == o2
  {
    match op
    case Put(v) => if s.room > 0 { SameStacks(s, s1, s2, v.key); }
    case Take(k) => if k in s.stacks { SameStacks(s, s1, s2, k); }
    case TakeSmallest => EndOnce(s, s1, o1, s2, o2, true);
    case TakeLargest => EndOnce(s, s1, o1, s2, o2, false);
  }

  lemma EndOnce(s: State, s1: State, o1: Outcome, s2: State, o2: Outcome, least: bool)
    requires EndDone(s, s1, o1, least) && EndDone(s, s2, o2, least)
    ensures s1 == s2 && o1 == o2
  {
    if s.stacks.Keys != {} {
      var k :| Taken(s, s1, o1, k) && forall j :: j in s.stacks ==> if least then k <= j else j <= k;
      var l :| Taken(s, s2, o2, l) && forall j :: j in s.stacks ==> if least then l <= j else j <= l;
      assert k == l;
      SameStacks(s, s1, s2, k);
    }
  }

  lemma SameStacks(s: State, s1: State, s2: State, key: int)
    requires OthersKept(s, s1, key) && OthersKept(s, s2, key) && s1.room == s2.room
    requires (key in s1.stacks <==> key in s2.stacks) && StackOf(s1, key) == StackOf(s2, key)
    ensures s1 == s2
  {
    forall k ensures k in s1.stacks.Keys <==> k in s2.stacks.Keys {
      if k != key { assert k in s1.stacks <==> k in s.stacks; }
    }
    assert s1.stacks.Keys == s2.stacks.Keys;
    forall k | k in s1.stacks ensures s1.stacks[k] == s2.stacks[k] {
      assert StackOf(s1, k) == StackOf(s2, k);
    }
    assert s1.stacks == s2.stacks;
  }

  lemma PutPushes(s: State, v: Value)
    requires Wf(s) && s.room > 0
    ensures Apply(s, Put(v)) == (Push(s, v), Stored) && Push(s, v).stacks != map[]
  {
    assert v.key in Push(s, v).stacks;
  }

  /** A take that leaves everything in place is not the take of any key. */
  lemma TakeRemoves(s: State, key: int, v: Value)
    requires Wf(s)
    ensures Apply(s, Take(key)) != (s, Got(v))
  {
    if s.stacks != map[] && key in s.stacks { assert Pop(s, key).0.room == s.room + 1; }
  }

  ghost function Run(s: State, ops: seq<Op>): (r: (State, seq<Outcome>))
    requires Wf(s)
    ensures Wf(r.0) && |r.1| == |ops|
    decreases ops
  {
    if ops == [] then (s, [])
    else
      var (s1, o) := Apply(s, ops[0]);
      var (s2, os) := Run(s1, ops[1..]);
      (s2, [o] + os)
  }

  /** The run goes from state to state, each request doing what it is for. */
  ghost predicate AllDone(states: seq<State>, ops: seq<Op>, outs: seq<Outcome>) {
    && |states| == |ops| + 1 && |outs| == |ops|
    && forall i :: 0 <= i < |ops| ==> Wf(states[i]) && Done(states[i], states[i + 1], outs[i], ops[i])
  }

  lemma {:induction false} RunDone(s: State, ops: seq<Op>) returns (states: seq<State>)
    requires Wf(s)
    ensures var (s', outs) := Run(s, ops);
            AllDone(states, ops, outs) && states[0] == s && states[|ops|] == s'
    decreases ops
  {
    if ops == [] {
      states := [s];
    } else {
      var (s1, o) := Apply(s, ops[0]);
      ApplyDone(s, ops[0]);
      var rest := RunDone(s1, ops[1..]);
      states := [s] + rest;
      AllDoneCons(s, rest, ops[0], ops[1..], o, Run(s1, ops[1..]).1);
      assert [ops[0]] + ops[1..] == ops;
    }
  }

  lemma AllDoneCons(s: State, states: seq<State>, op: Op, ops: seq<Op>, o: Outcome, outs: seq<Outcome>)
    requires AllDone(states, ops, outs) && Wf(s) && Done(s, states[0], o, op)
    ensures AllDone([s] + states, [op] + ops, [o] + outs)
  {
  }

  lemma {:induction false} RunAppend(s: State, a: seq<Op>, b: seq<Op>)
    requires Wf(s)
    ensures var (s1, o1) := Run(s, a);
            var (s2, o2) := Run(s1, b);
            Run(s, a + b) == (s2, o1 + o2)
    decreases a
  {
    if a == [] {
      assert a + b == b && [] + Run(s, b).1 == Run(s, b).1;
    } else {
      assert (a + b)[0] == a[0] && (a + b)[1..] == a[1..] + b;
      var (s0, o) := Apply(s, a[0]);
      RunAppend(s0, a[1..], b);
      var (s1, o1) := Run(s0, a[1..]);
      var (s2, o2) := Run(s1, b);
      assert [o] + (o1 + o2) == ([o] + o1) + o2;
    }
  }

  // ---------------------------------------------------------------- conservation

  /** The number of values stored. */
  ghost function Total(stacks: map<int, seq<Value>>): nat
    decreases stacks.Keys
  {
    if stacks.Keys == {} then 0
    else
      var k := Any(stacks.Keys);
      assert (stacks - {k}).Keys == stacks.Keys - {k};
      |stacks[k]| + Total(stacks - {k})
  }

  lemma {:induction false} TotalWithout(stacks: map<int, seq<Value>>, k: int)
    requires k in stacks
    ensures Total(stacks) == |stacks[k]| + Total(stacks - {k})
    decreases stacks.Keys
  {
    var j := Any(stacks.Keys);
    if j != k {
      assert (stacks - {j}).Keys == stacks.Keys - {j};
      TotalWithout(stacks - {j}, k);
      TotalWithout(stacks - {k}, j);
      assert stacks - {j} - {k} == stacks - {k} - {j};
    }
  }

  lemma ApplyConserves(s: State, op: Op)
    requires Wf(s)
    ensures var s' := Apply(s, op).0; s'.room + Total(s'.stacks) == s.room + Total(s.stacks)
  {
    var s' := Apply(s, op).0;
    if s' != s {
      var k := match op
        case Put(v) => v.key
        case Take(k) => k
        case TakeSmallest => LeastKey(s.stacks.Keys)
        case TakeLargest => GreatestKey(s.stacks.Keys);
      assert s'.stacks - {k} == s.stacks - {k};
      if k in s.stacks { TotalWithout(s.stacks, k); } else { assert s.stacks - {k} == s.stacks; }
      if k in s'.stacks { TotalWithout(s'.stacks, k); } else { assert s'.stacks - {k} == s'.stacks; }
    }
  }

  /** Over any run, free slots plus stored values stay the initial number of slots. */
  lemma {:induction false} RunConserves(s: State, ops: seq<Op>)
    requires Wf(s)
    ensures var s' := Run(s, ops).0; s'.room + Total(s'.stacks) == s.room + Total(s.stacks)
    decreases ops
  {
    if ops != [] {
      ApplyConserves(s, ops[0]);
      RunConserves(Apply(s, ops[0]).0, ops[1..]);
    }
  }

  // ---------------------------------------------------------------- newest first

  function Repeat(op: Op, n: nat): (ops: seq<Op>)
    ensures |ops| == n
  {
    if n == 0 then [] else [op] + Repeat(op, n - 1)
  }

  function Puts(vs: seq<Value>): seq<Op> {
    seq(|vs|, i requires 0 <= i < |vs| => Put(vs[i]))
  }

  /** The outcomes of taking `vs` back, last put first. */
  function Backwards(vs: seq<Value>): seq<Outcome> {
    if vs == [] then [] else [Got(vs[|vs| - 1])] + Backwards(vs[..|vs| - 1])
  }

  lemma PushThenPop(s: State, v: Value)
    requires Wf(s) && s.room > 0
    ensures Apply(Push(s, v), Take(v.key)) == (s, Got(v))
  {
    var s' := Push(s, v);
    assert v.key in s'.stacks;
    if v.key in s.stacks {
      assert s'.stacks[v.key][..|s.stacks[v.key]|] == s.stacks[v.key];
      assert s'.stacks[v.key := s.stacks[v.key]] == s.stacks;
    } else {
      assert s'.stacks - {v.key} == s.stacks;
    }
  }

  lemma {:induction false} PutsSucceed(s: State, vs: seq<Value>)
    requires Wf(s) && |vs| <= s.room
    ensures var (s', os) := Run(s, Puts(vs));
            s'.room == s.room - |vs| && os == seq(|vs|, _ => Stored)
    decreases vs
  {
    if vs != [] {
      assert Puts(vs)[1..] == Puts(vs[1..]);
      PutsSucceed(Push(s, vs[0]), vs[1..]);
    }
  }

  /** Values put under one key come back newest first, and leave everything as it was. */
  lemma {:induction false} NewestFirst(s: State, vs: seq<Value>, key: int)
    requires Wf(s) && |vs| <= s.room && forall i :: 0 <= i < |vs| ==> vs[i].key == key
    ensures Run(Run(s, Puts(vs)).0, Repeat(Take(key), |vs|)) == (s, Backwards(vs))
    decreases vs
  {
    if vs == [] {
      assert Puts(vs) == [];
    } else {
      var n := |vs| - 1;
      var init, v := vs[..n], vs[n];
      assert Puts(vs) == Puts(init) + [Put(v)];
      RunAppend(s, Puts(init), [Put(v)]);
      PutsSucceed(s, init);
      var s1 := Run(s, Puts(init)).0;
      RunOne(s1, Put(v));
      assert Run(s, Puts(vs)).0 == Push(s1, v);
      PushThenPop(s1, v);
      var takes := Repeat(Take(key), |vs|);
      assert takes[1..] == Repeat(Take(key), n);
      NewestFirst(s, init, key);
    }
  }

  /** Running nothing does nothing, and running one request is that request. */
  lemma RunOne(s: State, op: Op)
    requires Wf(s)
    ensures Run(s, []) == (s, [])
    ensures Run(s, [op]) == (Apply(s, op).0, [Apply(s, op).1])
  {
    assert [op][1..] == [] && [Apply(s, op).1] + [] == [Apply(s, op).1];
  }

  /** Taking a value brings in no key, and takes away a key with its last value. */
  lemma PopKeys(s: State, key: int)
    requires Wf(s) && key in s.stacks
    ensures var s' := Pop(s, key).0;
            && s'.room > 0 && (forall k :: k in s'.stacks ==> k in s.stacks)
            && (|s.stacks[key]| == 1 ==> key !in s'.stacks)
  {
  }

  /** After the last value of the greatest key is taken, the key is gone and there is room. */
  lemma LargestGone(s: State)
    requires Wf(s) && s.stacks != map[] && |s.stacks[GreatestKey(s.stacks.Keys)]| == 1
    ensures var s' := Apply(s, TakeLargest).0; s'.room > 0 && GreatestKey(s.stacks.Keys) !in s'.stacks
  {
    PopKeys(s, GreatestKey(s.stacks.Keys));
  }

  /** There are more than two values under the least key. */
  ghost predicate Crowded(s: State) {
    s.stacks != map[] && |s.stacks[LeastKey(s.stacks.Keys)]| > 2
  }

  /** Taking from the least key brings in no other key, and makes room. */
  lemma SmallestTaken(s: State, key: int) returns (s': State)
    requires Wf(s) && Crowded(s) && key !in s.stacks
    ensures s' == Apply(s, TakeSmallest).0 && s'.room > 0 && key !in s'.stacks
  {
    s' := Apply(s, TakeSmallest).0;
    PopKeys(s, LeastKey(s.stacks.Keys));
  }

  /** Two keys put into an empty multimap: the second, if larger, is the greatest. */
  lemma TwoPuts(s: State, a: Value, b: Value)
    requires s.stacks == map[] && s.room >= 2 && a.key < b.key
    ensures Push(Push(s, a), b).stacks == map[a.key := [a], b.key := [b]]
    ensures GreatestKey(Push(Push(s, a), b).stacks.Keys) == b.key
  {
    assert [] + [a] == [a] && [] + [b] == [b];
    assert Push(Push(s, a), b).stacks.Keys == {a.key, b.key};
  }

  lemma ThreeUnder(s: State, a: Value, b: Value, c: Value)
    requires s.stacks == map[] && s.room >= 3 && a.key == b.key == c.key
    ensures Push(Push(Push(s, a), b), c).stacks == map[a.key := [a, b, c]]
    ensures Crowded(Push(Push(Push(s, a), b), c))
  {
    assert [] + [a] == [a] && [a] + [b] == [a, b] && [a, b] + [c] == [a, b, c];
    assert Push(Push(Push(s, a), b), c).stacks.Keys == {a.key};
  }

  lemma ThreePuts(s: State, a: Value, b: Value, c: Value)
    requires s.stacks == map[] && s.room >= 3 && a.key != b.key && a.key != c.key && b.key != c.key
    ensures var s2 := Run(s, [Put(a), Put(b)]).0;
            && s2.room == s.room - 2 && c.key !in s2.stacks
            && Push(s2, c) == State(map[a.key := [a], c.key := [c], b.key := [b]], s.room - 3)
  {
    var s1 := Push(s, a);
    assert [Put(a), Put(b)][1..] == [Put(b)];
    RunOne(s1, Put(b));
    assert [] + [a] == [a] && [] + [b] == [b] && [] + [c] == [c];
  }

  // ---------------------------------------------------------------- in key order

  predicate KeysAtLeast(s: State, low: int) {
    forall k :: k in s.stacks ==> low <= k
  }

  /** The values among the outcomes have keys from `low` up, in ascending order. */
  predicate Ascending(os: seq<Outcome>, low: int) {
    && (forall i :: 0 <= i < |os| && os[i].Got? ==> low <= os[i].value.key)
    && (forall i, j :: 0 <= i < j < |os| && os[i].Got? && os[j].Got? ==> os[i].value.key <= os[j].value.key)
  }

  /** Draining by the smallest key yields the values in key order. */
  lemma {:induction false} DrainInOrder(s: State, n: nat, low: int)
    requires Wf(s) && KeysAtLeast(s, low)
    ensures Ascending(Run(s, Repeat(TakeSmallest, n)).1, low)
    decreases n
  {
    if n > 0 {
      var ops := Repeat(TakeSmallest, n);
      assert ops[1..] == Repeat(TakeSmallest, n - 1);
      var (s1, o) := Apply(s, TakeSmallest);
      assert o.Got? ==> o.value.key in s.stacks;
      DrainInOrder(s1, n - 1, if o.Got? then o.value.key else low);
      assert Run(s, ops).1 == [o] + Run(s1, ops[1..]).1;
    }
  }
}
