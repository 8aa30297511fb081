/**
 * A node's parent address and colour share one word: nodes lie at even addresses, so the lowest bit
 * is free for the colour. While a node is on the free list the same word is the link to the next.
 */
module PackedWord {
  import opened Words
  import opened RedBlack
  import opened Arena

  type Word = w: nat | w < WORD

  function Bit(k: Color): Word {
    if k.Red? then 0 else 1
  }

  predicate Even(a: Word) {
    a % 2 == 0
  }

  // ---------------------------------------------------------------- one word

  lemma LowBit(w: Word)
    ensures And(w, 1) == w % 2 && And(w, Not(1)) == w - w % 2
  {
    assert Pow2(1) == 2;
    MaskLow(w, 1);
    MaskWord(w, 1);
  }

  /** An even word takes a bit in its lowest place; an odd one has no room for it. */
  lemma OrBit(a: Word, b: nat)
    requires b <= 1
    ensures Or(a, b) == a - a % 2 + (if a % 2 == 1 then 1 else b) < WORD
  {
    assert b / 2 == 0;
    assert Or(a / 2, 0) == a / 2;
  }

  /** `w & ~1` */
  function ParentOf(w: Word): Word {
    LowBit(w);
    And(w, Not(1))
  }

  /** `w & 1` */
  function HueOf(w: Word): Color {
    if And(w, 1) == 0 then Red else Black
  }

  /** `parent | (w & 1)` */
  function WithParent(w: Word, parent: Word): Word {
    LowBit(w);
    OrBit(parent, And(w, 1));
    Or(parent, And(w, 1))
  }

  /** `(w & ~1) | color` */
  function WithColor(w: Word, k: Color): Word {
    LowBit(w);
    OrBit(And(w, Not(1)), Bit(k));
    Or(And(w, Not(1)), Bit(k))
  }

  /** `parent | color` */
  function Packed(parent: Word, k: Color): Word {
    OrBit(parent, Bit(k));
    Or(parent, Bit(k))
  }

  /** The word of an even address and a colour, and only that word, gives back both. */
  lemma PackedIff(w: Word, parent: Word, k: Color)
    requires Even(parent)
    ensures w == Packed(parent, k) <==> ParentOf(w) == parent && HueOf(w) == k
  {
    OrBit(parent, Bit(k));
    LowBit(w);
    LowBit(Packed(parent, k));
  }

  lemma ParentEven(w: Word)
    ensures Even(ParentOf(w))
  {
    LowBit(w);
    TwiceHalf(w);
  }

  lemma TwiceHalf(w: nat)
    ensures (w - w % 2) % 2 == 0
  {
    assert w - w % 2 == 2 * (w / 2);
  }

  /** Every word is the word of its parent and colour. */
  lemma Unpacked(w: Word)
    ensures Even(ParentOf(w)) && w == Packed(ParentOf(w), HueOf(w))
  {
    ParentEven(w);
    PackedIff(w, ParentOf(w), HueOf(w));
  }

  /** Setting the parent keeps the colour. */
  lemma ParentSet(w: Word, parent: Word)
    requires Even(parent)
    ensures ParentOf(WithParent(w, parent)) == parent && HueOf(WithParent(w, parent)) == HueOf(w)
  {
    LowBit(w);
    PackedIff(WithParent(w, parent), parent, HueOf(w));
  }

  /** Setting the colour keeps the parent. */
  lemma ColorSet(w: Word, k: Color)
    ensures ParentOf(WithColor(w, k)) == ParentOf(w) && HueOf(WithColor(w, k)) == k
  {
    ParentEven(w);
    PackedIff(WithColor(w, k), ParentOf(w), k);
  }

  /** Parent and colour as numbers: the address is the word without its lowest bit, which is set for black. */
  lemma WordMeans(w: Word)
    ensures ParentOf(w) == w - w % 2 && (HueOf(w) == Black <==> w % 2 == 1)
    ensures w == ParentOf(w) + if HueOf(w) == Black then 1 else 0
  {
    LowBit(w);
  }

  /** An odd address leaves no room for the colour. */
  lemma OddParentForgetsColor(parent: Word)
    requires !Even(parent)
    ensures Packed(parent, Red) == Packed(parent, Black) && ParentOf(Packed(parent, Red)) != parent
  {
    OrBit(parent, 0);
    OrBit(parent, 1);
    LowBit(parent);
  }

  // ---------------------------------------------------------------- programs over nodes

  /** One access to the shared word; nodes are named by slot. */
  datatype Op =
    | GetParent(node: nat)
    | GetColor(node: nat)
    | SetParent(node: nat, parent: nat)
    | SetColor(node: nat, color: Color)
    | SetParentColor(node: nat, parent: nat, color: Color)
    | SetNext(node: nat, next: nat)

  datatype Seen = Nothing | Address(addr: Word) | Hue(color: Color)

  predicate InRange(op: Op, n: nat) {
    && op.node < n
    && (op.SetParent? || op.SetParentColor? ==> op.parent < n)
    && (op.SetNext? ==> op.next < n)
  }

  /** A program chooses its next access from everything it has read so far. */
  type Program = seq<Seen> -> Op

  ghost predicate Runs(program: Program, n: nat) {
    forall seen :: InRange(program(seen), n)
  }

  /** Where the slots are: even, different addresses. */
  predicate Placing(addr: seq<Word>) {
    && (forall i :: 0 <= i < |addr| ==> Even(addr[i]))
    && (forall i, j :: 0 <= i < j < |addr| ==> addr[i] != addr[j])
  }

  predicate Linked(m: seq<Cell>) {
    forall i :: 0 <= i < |m| ==> m[i].parent < |m|
  }

  /** The access on cells that keep parent and colour apart. */
  function Step(m: seq<Cell>, addr: seq<Word>, op: Op): (r: (seq<Cell>, Seen))
    requires |addr| == |m| && Linked(m) && InRange(op, |m|)
    ensures |r.0| == |m| && Linked(r.0)
  {
    var cell := m[op.node];
    match op
    case GetParent(_) => (m, Address(addr[cell.parent]))
    case GetColor(_) => (m, Hue(cell.color))
    case SetParent(p, parent) => (m[p := cell.(parent := parent)], Nothing)
    case SetColor(p, k) => (m[p := cell.(color := k)], Nothing)
    case SetParentColor(p, parent, k) => (m[p := cell.(parent := parent, color := k)], Nothing)
    case SetNext(p, next) => (m[p := cell.(parent := next, color := Red)], Nothing)
  }

  /** `m'` differs from `m` at most in the parent and the colour of `p`. */
  predicate Changed(m: seq<Cell>, m': seq<Cell>, p: nat, parent: nat, k: Color)
    requires p < |m|
  {
    && |m'| == |m| && (forall i :: 0 <= i < |m| && i != p ==> m'[i] == m[i])
    && m'[p].parent == parent && m'[p].color == k
    && m'[p].left == m[p].left && m'[p].right == m[p].right && m'[p].list == m[p].list && m'[p].value == m[p].value
  }

  /** What each kind of access does to the node it names, and what it shows; no other node is touched. */
  lemma StepMeans(m: seq<Cell>, addr: seq<Word>, op: Op)
    requires |addr| == |m| && Linked(m) && InRange(op, |m|)
    ensures var (m', seen) := Step(m, addr, op);
            var p := op.node;
            match op
            case GetParent(_) => m' == m && seen == Address(addr[m[p].parent])
            case GetColor(_) => m' == m && seen == Hue(m[p].color)
            case SetParent(_, parent) => Changed(m, m', p, parent, m[p].color) && seen == Nothing
            case SetColor(_, k) => Changed(m, m', p, m[p].parent, k) && seen == Nothing
            case SetParentColor(_, parent, k) => Changed(m, m', p, parent, k) && seen == Nothing
            case SetNext(_, next) => Changed(m, m', p, next, Red) && seen == Nothing
  {
  }

  /** What is set at a node is what the next accesses read there, and what other nodes show stays. */
  lemma SetThenGet(m: seq<Cell>, addr: seq<Word>, op: Op, q: nat)
    requires |addr| == |m| && Linked(m) && InRange(op, |m|) && q < |m|
    ensures var m' := Step(m, addr, op).0;
            var parent, color := Step(m', addr, GetParent(q)).1, Step(m', addr, GetColor(q)).1;
            var parent0, color0 := Step(m, addr, GetParent(q)).1, Step(m, addr, GetColor(q)).1;
            && (op.node != q || op.GetParent? || op.GetColor? ==> parent == parent0 && color == color0)
            && (op.node == q && op.SetParent? ==> parent == Address(addr[op.parent]) && color == color0)
            && (op.node == q && op.SetColor? ==> parent == parent0 && color == Hue(op.color))
            && (op.node == q && op.SetParentColor? ==> parent == Address(addr[op.parent]) && color == Hue(op.color))
            && (op.node == q && op.SetNext? ==> parent == Address(addr[op.next]) && color == Hue(Red))
  {
    StepMeans(m, addr, op);
    StepMeans(Step(m, addr, op).0, addr, GetParent(q));
  }

  function Run(m: seq<Cell>, addr: seq<Word>, program: Program, steps: nat): (r: (seq<Cell>, seq<Seen>))
    requires |addr| == |m| && Linked(m) && Runs(program, |m|)
    ensures |r.0| == |m| && Linked(r.0)
  {
    if steps == 0 then (m, [])
    else
      var (m', seen) := Run(m, addr, program, steps - 1);
      var (m'', s) := Step(m', addr, program(seen));
      (m'', seen + [s])
  }

  lemma RunNext(m: seq<Cell>, addr: seq<Word>, program: Program, steps: nat)
    requires |addr| == |m| && Linked(m) && Runs(program, |m|)
    ensures var (m', seen) := Run(m, addr, program, steps);
            && InRange(program(seen), |m'|)
            && Run(m, addr, program, steps + 1) ==
               (Step(m', addr, program(seen)).0, seen + [Step(m', addr, program(seen)).1])
  {
  }

  /** A run goes through a sequence of memories, each one access away from the one before. */
  ghost predicate Passes(states: seq<seq<Cell>>, seen: seq<Seen>, addr: seq<Word>, program: Program, steps: nat) {
    && |states| == steps + 1 && |seen| == steps
    && (forall i :: 0 <= i <= steps ==> |states[i]| == |addr| && Linked(states[i]))
    && forall i :: 0 <= i < steps ==> Next(states[i], states[i + 1], seen[..i], seen[i], addr, program)
  }

  ghost predicate Next(m: seq<Cell>, m': seq<Cell>, before: seq<Seen>, s: Seen, addr: seq<Word>, program: Program)
    requires |addr| == |m| && Linked(m)
  {
    InRange(program(before), |m|) && Step(m, addr, program(before)) == (m', s)
  }

  lemma {:induction false} RunPasses(m: seq<Cell>, addr: seq<Word>, program: Program, steps: nat) returns (states: seq<seq<Cell>>)
    requires |addr| == |m| && Linked(m) && Runs(program, |m|)
    ensures var (m', seen) := Run(m, addr, program, steps);
            Passes(states, seen, addr, program, steps) && states[0] == m && states[steps] == m'
  {
    if steps == 0 {
      states := [m];
    } else {
      var (m', seen') := Run(m, addr, program, steps - 1);
      var before := RunPasses(m, addr, program, steps - 1);
      RunNext(m, addr, program, steps - 1);
      var (m'', seen'') := Run(m, addr, program, steps);
      states := before + [m''];
      forall i | 0 <= i < steps ensures Next(states[i], states[i + 1], seen''[..i], seen''[i], addr, program) {
        if i < steps - 1 {
          assert Next(before[i], before[i + 1], seen'[..i], seen'[i], addr, program);
          assert seen''[..i] == seen'[..i];
        } else {
          assert seen''[..i] == seen';
        }
      }
    }
  }

  /** Every word packs its cell's parent address and colour. */
  ghost predicate Packs(words: seq<Word>, addr: seq<Word>, m: seq<Cell>) {
    && |words| == |m| == |addr| && Placing(addr) && Linked(m)
    && forall i :: 0 <= i < |m| ==> Shows(words[i], addr, m[i])
  }

  predicate Shows(w: Word, addr: seq<Word>, cell: Cell) {
    cell.parent < |addr| && ParentOf(w) == addr[cell.parent] && HueOf(w) == cell.color
  }

  /** The words determine the cells' parents and colours: nothing is lost by packing. */
  lemma PacksDetermines(words: seq<Word>, addr: seq<Word>, m: seq<Cell>, m': seq<Cell>, i: nat)
    requires Packs(words, addr, m) && Packs(words, addr, m') && i < |m|
    ensures m[i].parent == m'[i].parent && m[i].color == m'[i].color
  {
    assert Shows(words[i], addr, m[i]) && Shows(words[i], addr, m'[i]);
  }

  lemma PacksNext(words: seq<Word>, words': seq<Word>, addr: seq<Word>, m: seq<Cell>, op: Op)
    requires Packs(words, addr, m) && InRange(op, |m|) && |words'| == |words|
    requires forall i :: 0 <= i < |words| && i != op.node ==> words'[i] == words[i]
    requires Shows(words'[op.node], addr, Step(m, addr, op).0[op.node])
    ensures Packs(words', addr, Step(m, addr, op).0)
  {
    var m' := Step(m, addr, op).0;
    forall i | 0 <= i < |m| ensures Shows(words'[i], addr, m'[i]) {
      if i != op.node { assert Shows(words[i], addr, m[i]) && m'[i] == m[i]; }
    }
  }

  /**
   * What an access does to the words, in numbers: the word of its node holds an address and, in the
   * lowest bit, one for black; the words of other nodes stay.
   */
  predicate Done(op: Op, addr: seq<Word>, words: seq<Word>, words': seq<Word>, seen: Seen)
    requires |words| == |words'| == |addr| && InRange(op, |addr|)
  {
    var p := op.node;
    var w, w' := words[p], words'[p];
    && (forall i :: 0 <= i < |words| && i != p ==> words'[i] == words[i])
    && match op
       case GetParent(_) => w' == w && seen.Address? && seen.addr == w - w % 2
       case GetColor(_) => w' == w && seen == Hue(if w % 2 == 0 then Red else Black)
       case SetParent(_, parent) => w' == addr[parent] as nat + w % 2
       case SetColor(_, k) => w' == w - w % 2 + (if k == Red then 0 else 1)
       case SetParentColor(_, parent, k) => w' == addr[parent] as nat + (if k == Red then 0 else 1)
       case SetNext(_, next) => w' == addr[next]
  }

  /** Words that pack cells change as `Done` says if each shows its cell before and after. */
  lemma ShowsDone(op: Op, addr: seq<Word>, words: seq<Word>, words': seq<Word>, m: seq<Cell>)
    requires Packs(words, addr, m) && InRange(op, |m|) && Packs(words', addr, Step(m, addr, op).0)
    requires forall i :: 0 <= i < |words| && i != op.node ==> words'[i] == words[i]
    ensures Done(op, addr, words, words', Step(m, addr, op).1)
  {
    var p := op.node;
    StepMeans(m, addr, op);
    assert Shows(words[p], addr, m[p]) && Shows(words'[p], addr, Step(m, addr, op).0[p]);
    WordMeans(words[p]);
    WordMeans(words'[p]);
  }

  /** The packed words of all nodes. */
  class Nodes {
    const words: array<Word>

    constructor (words: array<Word>)
      ensures this.words == words
    {
      this.words := words;
    }

    method Parent(p: nat) returns (a: Word)
      requires p < words.Length
      ensures Even(a) && words[p] == Packed(a, HueOf(words[p]))
    {
      a := ParentOf(words[p]);
      Unpacked(words[p]);
    }

    method Color(p: nat) returns (k: Color)
      requires p < words.Length
      ensures words[p] == Packed(ParentOf(words[p]), k)
    {
      k := HueOf(words[p]);
      Unpacked(words[p]);
    }

    /** No other word than `p`'s changes. */
    twostate predicate Only(p: nat)
      reads words
    {
      forall i :: 0 <= i < words.Length && i != p ==> words[i] == old(words[i])
    }

    method SetParent(p: nat, parent: Word)
      requires p < words.Length && Even(parent)
      modifies words
      ensures Only(p) && ParentOf(words[p]) == parent && HueOf(words[p]) == old(HueOf(words[p]))
    {
      ParentSet(words[p], parent);
      words[p] := WithParent(words[p], parent);
    }

    method SetColor(p: nat, k: Color)
      requires p < words.Length
      modifies words
      ensures Only(p) && ParentOf(words[p]) == old(ParentOf(words[p])) && HueOf(words[p]) == k
    {
      ColorSet(words[p], k);
      words[p] := WithColor(words[p], k);
    }

    method SetParentColor(p: nat, parent: Word, k: Color)
      requires p < words.Length && Even(parent)
      modifies words
      ensures Only(p) && ParentOf(words[p]) == parent && HueOf(words[p]) == k
    {
      PackedIff(Packed(parent, k), parent, k);
      words[p] := Packed(parent, k);
    }

    /** The free list's link, read as a parent: red. */
    method SetNext(p: nat, next: Word)
      requires p < words.Length && Even(next)
      modifies words
      ensures Only(p) && words[p] == next && ParentOf(next) == next && HueOf(next) == Red
    {
      LowBit(next);
      words[p] := next;
    }

    /** One access, seen from cells that keep parent and colour apart. */
    method Access(op: Op, addr: seq<Word>, ghost m: seq<Cell>) returns (seen: Seen)
      requires Packs(words[..], addr, m) && InRange(op, |m|)
      modifies words
      ensures Packs(words[..], addr, Step(m, addr, op).0) && seen == Step(m, addr, op).1
      ensures Done(op, addr, old(words[..]), words[..], seen)
    {
      assert Shows(words[..][op.node], addr, m[op.node]);
      seen := Nothing;
      match op {
        case GetParent(p) =>
          var a := Parent(p);
          PackedIff(words[p], a, HueOf(words[p]));
          seen := Address(a);
        case GetColor(p) =>
          var k := Color(p);
          ParentEven(words[p]);
          PackedIff(words[p], ParentOf(words[p]), k);
          seen := Hue(k);
        case SetParent(p, parent) => SetParent(p, addr[parent]);
        case SetColor(p, k) => SetColor(p, k);
        case SetParentColor(p, parent, k) => SetParentColor(p, addr[parent], k);
        case SetNext(p, next) => SetNext(p, addr[next]);
      }
      PacksNext(old(words[..]), words[..], addr, m, op);
      ShowsDone(op, addr, old(words[..]), words[..], m);
    }

    /** A program reads from packed words exactly what it reads from cells, however long it runs. */
    method Execute(program: Program, steps: nat, addr: seq<Word>, ghost m: seq<Cell>) returns (seen: seq<Seen>)
      requires Packs(words[..], addr, m) && Runs(program, |m|)
      modifies words
      ensures Packs(words[..], addr, Run(m, addr, program, steps).0)
      ensures seen == Run(m, addr, program, steps).1
    {
      seen := [];
      ghost var now := m;
      for i := 0 to steps
        invariant Packs(words[..], addr, now) && |now| == |m|
        invariant (now, seen) == Run(m, addr, program, i)
      {
        RunNext(m, addr, program, i);
        var op := program(seen);
        var s := Access(op, addr, now);
        now := Step(now, addr, op).0;
        seen := seen + [s];
      }
    }
  }

  // ---------------------------------------------------------------- the tree in packed memory

  /** The fields of a node beside the packed word. */
  datatype Rest = Rest(left: nat, right: nat, list: nat, value: Value)

  function RestOf(cell: Cell): Rest {
    Rest(cell.left, cell.right, cell.list, cell.value)
  }

  predicate Beside(rest: seq<Rest>, m: seq<Cell>) {
    |rest| == |m| && forall i :: 0 <= i < |m| ==> rest[i] == RestOf(m[i])
  }

  /** Words do not notice a cell that changes in other fields. */
  lemma Relink(words: seq<Word>, addr: seq<Word>, m: seq<Cell>, p: nat, cell: Cell)
    requires Packs(words, addr, m) && p < |m| && cell.parent == m[p].parent && cell.color == m[p].color
    ensures Packs(words, addr, m[p := cell])
  {
    forall i | 0 <= i < |m| ensures Shows(words[i], addr, m[p := cell][i]) {
      assert Shows(words[i], addr, m[i]);
    }
  }

  /** A tree whose nodes pack parent and colour; `cells` is what its memory stands for. */
  class PackedTree {
    const nodes: Nodes
    const rest: array<Rest>
    const addr: seq<Word>
    var root: nat

    ghost var cells: seq<Cell>

    ghost predicate Valid()
      reads this, nodes.words, rest
    {
      Packs(nodes.words[..], addr, cells) && Beside(rest[..], cells)
    }

    constructor (nodes0: Nodes, rest0: array<Rest>, addr0: seq<Word>, root0: nat, ghost m: seq<Cell>)
      requires Packs(nodes0.words[..], addr0, m) && Beside(rest0[..], m)
      ensures Valid() && cells == m && root == root0 && nodes == nodes0 && rest == rest0 && addr == addr0
    {
      nodes, rest, addr, root, cells := nodes0, rest0, addr0, root0, m;
    }

    /** The slot at an address. */
    method SlotAt(a: Word, ghost p: nat) returns (q: nat)
      requires Placing(addr) && p < |addr| && addr[p] == a
      ensures q == p
    {
      q := 0;
      while addr[q] != a
        invariant q <= p
        decreases p - q
      {
        q := q + 1;
      }
    }

    method Parent(p: nat) returns (q: nat)
      requires Valid() && p < |cells|
      modifies nodes.words
      ensures Valid() && q == cells[p].parent
    {
      var seen := nodes.Access(GetParent(p), addr, cells);
      q := SlotAt(seen.addr, cells[p].parent);
    }

    method SetParent(p: nat, q: nat)
      requires Valid() && p < |cells| && q < |cells|
      modifies nodes.words, this`cells
      ensures Valid() && cells == old(cells)[p := old(cells)[p].(parent := q)]
    {
      var seen := nodes.Access(Op.SetParent(p, q), addr, cells);
      cells := cells[p := cells[p].(parent := q)];
    }

    method SetLeft(p: nat, q: nat)
      requires Valid() && p < |cells|
      modifies rest, this`cells
      ensures Valid() && cells == old(cells)[p := old(cells)[p].(left := q)]
    {
      rest[p] := rest[p].(left := q);
      Relink(nodes.words[..], addr, cells, p, cells[p].(left := q));
      cells := cells[p := cells[p].(left := q)];
    }

    method SetRight(p: nat, q: nat)
      requires Valid() && p < |cells|
      modifies rest, this`cells
      ensures Valid() && cells == old(cells)[p := old(cells)[p].(right := q)]
    {
      rest[p] := rest[p].(right := q);
      Relink(nodes.words[..], addr, cells, p, cells[p].(right := q));
      cells := cells[p := cells[p].(right := q)];
    }

    method SetChild(p: nat, onLeft: bool, q: nat)
      requires Valid() && p < |cells|
      modifies rest, this`cells
      ensures Valid() && cells == old(cells)[p := WithChild(old(cells)[p], onLeft, q)]
    {
      if onLeft { SetLeft(p, q); } else { SetRight(p, q); }
    }

    /** The first writes of a rotation, on packed nodes: the subtree that changes sides, and the parent of `y`. */
    method WriteBelow(x: nat, y: nat, b: nat, xParent: nat, toLeft: bool)
      requires Valid() && x < |cells| && y < |cells| && b < |cells| && xParent < |cells|
      modifies this`cells, nodes.words, rest
      ensures Valid() && cells == WritesBelow(old(cells), x, y, b, xParent, toLeft)
    {
      SetChild(x, !toLeft, b);
      if b != NIL { SetParent(b, x); }
      SetParent(y, xParent);
    }

    /** The link from above to what takes the place of `x`. */
    method Hang(x: nat, y: nat, xParent: nat)
      requires Valid() && y < |cells| && xParent < |cells|
      modifies this`root, this`cells, rest
      ensures Valid() && cells == Hung(old(cells), x, y, xParent)
      ensures root == if xParent == NIL then y else old(root)
    {
      if xParent == NIL {
        root := y;
      } else if x == rest[xParent].left {
        SetLeft(xParent, y);
      } else {
        SetRight(xParent, y);
      }
    }

    /** The remaining writes of a rotation: the link from above, and the link between `y` and `x`. */
    method WriteAbove(x: nat, y: nat, xParent: nat, toLeft: bool)
      requires Valid() && x < |cells| && y < |cells| && xParent < |cells|
      modifies this`root, this`cells, nodes.words, rest
      ensures Valid() && cells == WritesAbove(old(cells), x, y, xParent, toLeft)
      ensures root == if xParent == NIL then y else old(root)
    {
      Hang(x, y, xParent);
      SetChild(y, toLeft, x);
      SetParent(x, y);
    }

    /** The left rotation on packed nodes rotates the tree that the memory stands for. */
    method RotateLeft(x: nat, ghost c: Ctx, ghost t: Tree, ghost m0: seq<Cell>, ghost s: set<nat>)
      requires Valid() && FIRST <= |cells| && At(cells, root, c, t, m0, s)
      requires t.Node? && t.right.Node? && x == t.e.id
      modifies this`root, this`cells, nodes.words, rest
      ensures Valid() && At(cells, root, c, RotatedLeft(t), m0, s)
    {
      RotateLeftCells(cells, root, c, t);
      LeftRotationWritten(cells, root, c, t, m0, s);
      var y := rest[x].right;
      var xParent := Parent(x);
      WriteBelow(x, y, rest[y].left, xParent, true);
      WriteAbove(x, y, xParent, true);
    }

    method RotateRight(x: nat, ghost c: Ctx, ghost t: Tree, ghost m0: seq<Cell>, ghost s: set<nat>)
      requires Valid() && FIRST <= |cells| && At(cells, root, c, t, m0, s)
      requires t.Node? && t.left.Node? && x == t.e.id
      modifies this`root, this`cells, nodes.words, rest
      ensures Valid() && At(cells, root, c, RotatedRight(t), m0, s)
    {
      RotateRightCells(cells, root, c, t);
      RightRotationWritten(cells, root, c, t, m0, s);
      var y := rest[x].left;
      var xParent := Parent(x);
      WriteBelow(x, y, rest[y].right, xParent, false);
      WriteAbove(x, y, xParent, false);
    }

    /** The transplant on packed nodes moves the links as the one on separate fields does. */
    method Transplant(old_: nat, new_: nat, ghost c: Ctx)
      requires Valid() && old_ < |cells| && new_ < |cells| && cells[old_].parent == Above(c)
      requires c != Top ==> FIRST <= c.e.id < |cells| && c.e.id != new_ && (cells[c.e.id].left == old_ <==> c.InLeft?)
      modifies this`root, this`cells, nodes.words, rest
      ensures Valid() && Moved(old(cells), cells, c, new_)
      ensures root == if c.Top? then new_ else old(root)
    {
      var oldParent := Parent(old_);
      Hang(old_, new_, oldParent);
      SetParent(new_, oldParent);
    }
  }

  function WithChild(cell: Cell, onLeft: bool, q: nat): Cell {
    if onLeft then cell.(left := q) else cell.(right := q)
  }

  /** The writes of a rotation that puts `y` above `x`, one after another, on cells; `x` goes to the given side. */
  function WritesBelow(m: seq<Cell>, x: nat, y: nat, b: nat, xParent: nat, toLeft: bool): (m': seq<Cell>)
    requires x < |m| && y < |m| && b < |m|
    ensures |m'| == |m|
  {
    var m1 := m[x := WithChild(m[x], !toLeft, b)];
    var m2 := if b != NIL then m1[b := m1[b].(parent := x)] else m1;
    m2[y := m2[y].(parent := xParent)]
  }

  function Hung(m: seq<Cell>, x: nat, y: nat, xParent: nat): (m': seq<Cell>)
    requires y < |m| && xParent < |m|
    ensures |m'| == |m|
  {
    if xParent == NIL then m
    else m[xParent := WithChild(m[xParent], x == m[xParent].left, y)]
  }

  function WritesAbove(m: seq<Cell>, x: nat, y: nat, xParent: nat, toLeft: bool): (m': seq<Cell>)
    requires x < |m| && y < |m| && xParent < |m|
    ensures |m'| == |m|
  {
    var m1 := Hung(m, x, y, xParent);
    var m2 := m1[y := WithChild(m1[y], toLeft, x)];
    m2[x := m2[x].(parent := y)]
  }

  function RotationWrites(m: seq<Cell>, x: nat, y: nat, b: nat, xParent: nat, toLeft: bool): (m': seq<Cell>)
    requires x < |m| && y < |m| && b < |m| && xParent < |m|
    ensures |m'| == |m|
  {
    WritesAbove(WritesBelow(m, x, y, b, xParent, toLeft), x, y, xParent, toLeft)
  }

  lemma LeftRotationWritten(m: seq<Cell>, root: nat, c: Ctx, t: Tree, m0: seq<Cell>, s: set<nat>)
    requires FIRST <= |m| && At(m, root, c, t, m0, s) && t.Node? && t.right.Node?
    ensures var x, y, b := t.e.id, t.right.e.id, Ptr(t.right.left);
            && x < |m| && y < |m| && b < |m| && Above(c) < |m|
            && m[x].right == y && m[y].left == b && m[x].parent == Above(c)
            && At(RotationWrites(m, x, y, b, Above(c), true), if Above(c) == NIL then y else root, c, RotatedLeft(t), m0, s)
  {
    var x, y, b := t.e.id, t.right.e.id, Ptr(t.right.left);
    RotateLeftCells(m, root, c, t);
    var m' := RotationWrites(m, x, y, b, Above(c), true);
    RotateLeftDone(m, m', root, if Above(c) == NIL then y else root, c, t, m0, s);
  }

  lemma RightRotationWritten(m: seq<Cell>, root: nat, c: Ctx, t: Tree, m0: seq<Cell>, s: set<nat>)
    requires FIRST <= |m| && At(m, root, c, t, m0, s) && t.Node? && t.left.Node?
    ensures var x, y, b := t.e.id, t.left.e.id, Ptr(t.left.right);
            && x < |m| && y < |m| && b < |m| && Above(c) < |m|
            && m[x].left == y && m[y].right == b && m[x].parent == Above(c)
            && At(RotationWrites(m, x, y, b, Above(c), false), if Above(c) == NIL then y else root, c, RotatedRight(t), m0, s)
  {
    var x, y, b := t.e.id, t.left.e.id, Ptr(t.left.right);
    RotateRightCells(m, root, c, t);
    var m' := RotationWrites(m, x, y, b, Above(c), false);
    RotateRightDone(m, m', root, if Above(c) == NIL then y else root, c, t, m0, s);
  }
}
