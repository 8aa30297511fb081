/**
 * A block of equal-sized slots in a byte array, as the LRU cache uses it.
 */
module MemoryBlock {

  type Bytes = seq<bv8>

  /** Where slot `i` starts: `i` times the slot size past the base. */
  function Index(base: nat, size: nat, i: nat): (at: nat)
    ensures at >= base
  {
    if i == 0 then base else Index(base, size, i - 1) + size
  }

  lemma {:induction false} IndexIsProduct(base: nat, size: nat, i: nat)
    ensures Index(base, size, i) == base + i * size
  {
    if i > 0 {
      IndexIsProduct(base, size, i - 1);
      assert i * size == (i - 1) * size + size;
    }
  }

  lemma {:induction false} IndexMonotone(base: nat, size: nat, i: nat, j: nat)
    requires i <= j
    ensures Index(base, size, i) <= Index(base, size, j)
    ensures i < j ==> Index(base, size, i) + size <= Index(base, size, j)
    decreases j
  {
    if i < j { IndexMonotone(base, size, i, j - 1); }
  }

  /** `n` slots further on is as many bytes as `n` slots hold. */
  lemma {:induction false} IndexSpan(base: nat, size: nat, i: nat, n: nat)
    ensures Index(base, size, i + n) == Index(base, size, i) + Index(0, size, n)
    decreases n
  {
    if n > 0 { IndexSpan(base, size, i, n - 1); }
  }

  predicate Fits(bytes: Bytes, base: nat, size: nat, n: nat) {
    Index(base, size, n) <= |bytes|
  }

  function Slot(bytes: Bytes, base: nat, size: nat, i: nat): (s: Bytes)
    requires Fits(bytes, base, size, i + 1)
    ensures |s| == size
  {
    bytes[Index(base, size, i)..Index(base, size, i) + size]
  }

  /** The first `n` slots of the block. */
  function SlotsOf(bytes: Bytes, base: nat, size: nat, n: nat): (s: seq<Bytes>)
    requires Fits(bytes, base, size, n)
    ensures |s| == n
    ensures forall i {:trigger s[i]} :: 0 <= i < n ==> Fits(bytes, base, size, i + 1) && s[i] == Slot(bytes, base, size, i)
  {
    FitsAll(bytes, base, size, n);
    seq(n, i requires 0 <= i < n && Fits(bytes, base, size, i + 1) => Slot(bytes, base, size, i))
  }

  lemma FitsAll(bytes: Bytes, base: nat, size: nat, n: nat)
    requires Fits(bytes, base, size, n)
    ensures forall j :: 0 <= j <= n ==> Fits(bytes, base, size, j)
  {
    forall j | 0 <= j <= n ensures Fits(bytes, base, size, j) {
      IndexMonotone(base, size, j, n);
    }
  }

  // ---------------------------------------------------------------- copying bytes

  /** `n` bytes from `src` written at `dst`, read before anything is overwritten. */
  function Copied(bytes: Bytes, dst: nat, src: nat, n: nat): (b: Bytes)
    requires dst + n <= |bytes| && src + n <= |bytes|
    ensures |b| == |bytes|
  {
    bytes[..dst] + bytes[src..src + n] + bytes[dst + n..]
  }

  function Written(bytes: Bytes, dst: nat, obj: Bytes): (b: Bytes)
    requires dst + |obj| <= |bytes|
    ensures |b| == |bytes|
  {
    bytes[..dst] + obj + bytes[dst + |obj|..]
  }

  /** The overlapping copy: towards higher addresses it runs backwards, otherwise forwards. */
  method MemMove(a: array<bv8>, dst: nat, src: nat, n: nat)
    requires dst + n <= a.Length && src + n <= a.Length
    modifies a
    ensures a[..] == Copied(old(a[..]), dst, src, n)
  {
    if src < dst {
      CopyBackwards(a, dst, src, n);
    } else {
      CopyForwards(a, dst, src, n);
    }
  }

  method CopyBackwards(a: array<bv8>, dst: nat, src: nat, n: nat)
    requires dst + n <= a.Length && src < dst
    modifies a
    ensures a[..] == Copied(old(a[..]), dst, src, n)
  {
    ghost var b := a[..];
    var i := n;
    while i > 0
      invariant 0 <= i <= n
      invariant forall k :: 0 <= k < a.Length && !(dst + i <= k < dst + n) ==> a[k] == b[k]
      invariant forall k :: dst + i <= k < dst + n ==> a[k] == b[k - dst + src]
    {
      i := i - 1;
      a[dst + i] := a[src + i];
    }
    CopiedWhole(b, a[..], dst, src, n);
  }

  lemma CopiedWhole(b: Bytes, b': Bytes, dst: nat, src: nat, n: nat)
    requires dst + n <= |b| == |b'| && src + n <= |b|
    requires forall k :: 0 <= k < |b| && !(dst <= k < dst + n) ==> b'[k] == b[k]
    requires forall k :: dst <= k < dst + n ==> b'[k] == b[k - dst + src]
    ensures b' == Copied(b, dst, src, n)
  {
  }

  method CopyForwards(a: array<bv8>, dst: nat, src: nat, n: nat)
    requires src + n <= a.Length && dst <= src
    modifies a
    ensures a[..] == Copied(old(a[..]), dst, src, n)
  {
    ghost var b := a[..];
    for i := 0 to n
      invariant forall k :: 0 <= k < a.Length && !(dst <= k < dst + i) ==> a[k] == b[k]
      invariant forall k :: dst <= k < dst + i ==> a[k] == b[k - dst + src]
    {
      a[dst + i] := a[src + i];
    }
    CopiedWhole(b, a[..], dst, src, n);
  }

  method MemWrite(a: array<bv8>, dst: nat, obj: Bytes)
    requires dst + |obj| <= a.Length
    modifies a
    ensures a[..] == Written(old(a[..]), dst, obj)
  {
    ghost var b := a[..];
    for i := 0 to |obj|
      invariant forall k :: 0 <= k < a.Length && !(dst <= k < dst + i) ==> a[k] == b[k]
      invariant forall k :: dst <= k < dst + i ==> a[k] == obj[k - dst]
    {
      a[dst + i] := obj[i];
    }
    assert a[..] == Written(b, dst, obj);
  }

  // ---------------------------------------------------------------- slot operations

  /** Slots written and moved: what each does to the sequence of slots. */
  lemma WrittenSlots(bytes: Bytes, base: nat, size: nat, n: nat, i: nat, obj: Bytes)
    requires Fits(bytes, base, size, n) && i < n && |obj| == size
    requires Index(base, size, i) + |obj| <= |bytes|
    ensures var b := Written(bytes, Index(base, size, i), obj);
            Fits(b, base, size, n) && SlotsOf(b, base, size, n) == SlotsOf(bytes, base, size, n)[i := obj]
  {
    var b := Written(bytes, Index(base, size, i), obj);
    forall j | 0 <= j < n
      ensures Fits(b, base, size, j + 1) && Fits(bytes, base, size, j + 1)
      ensures Slot(b, base, size, j) == if j == i then obj else Slot(bytes, base, size, j)
    {
      IndexMonotone(base, size, j + 1, n);
      var at := Index(base, size, j);
      if j < i {
        IndexMonotone(base, size, j, i);
        WrittenOutside(bytes, Index(base, size, i), obj, at, at + size);
      } else if i < j {
        IndexMonotone(base, size, i, j);
        WrittenOutside(bytes, Index(base, size, i), obj, at, at + size);
      } else {
        assert b[at..at + size] == obj;
      }
    }
  }

  lemma CopiedInside(bytes: Bytes, dst: nat, src: nat, n: nat, at: nat, len: nat)
    requires dst + n <= |bytes| && src + n <= |bytes| && dst <= at && at + len <= dst + n
    ensures Copied(bytes, dst, src, n)[at..at + len] == bytes[at - dst + src..at - dst + src + len]
  {
    var b := Copied(bytes, dst, src, n);
    forall k | at <= k < at + len ensures b[k] == bytes[k - dst + src] {
      assert b[k] == bytes[src..src + n][k - dst];
    }
  }

  lemma CopiedOutside(bytes: Bytes, dst: nat, src: nat, n: nat, at: nat, end: nat)
    requires dst + n <= |bytes| && src + n <= |bytes| && at <= end <= |bytes| && (end <= dst || dst + n <= at)
    ensures Copied(bytes, dst, src, n)[at..end] == bytes[at..end]
  {
    var b := Copied(bytes, dst, src, n);
    forall k | at <= k < end ensures b[k] == bytes[k] {
      if k >= dst + n { assert b[k] == bytes[dst + n..][k - dst - n]; }
    }
  }

  lemma WrittenOutside(bytes: Bytes, dst: nat, obj: Bytes, at: nat, end: nat)
    requires dst + |obj| <= |bytes| && at <= end <= |bytes| && (end <= dst || dst + |obj| <= at)
    ensures Written(bytes, dst, obj)[at..end] == bytes[at..end]
  {
  }

  /** Moving the slots [0, i) up by one place. */
  function ShiftUp(bytes: Bytes, base: nat, size: nat, i: nat): (b: Bytes)
    requires Fits(bytes, base, size, i + 1)
    ensures |b| == |bytes|
  {
    IndexSpan(base, size, 1, i);
    IndexSpan(base, size, 0, i);
    Copied(bytes, Index(base, size, 1), Index(base, size, 0), Index(0, size, i))
  }

  lemma ShiftedSlot(bytes: Bytes, base: nat, size: nat, i: nat, j: nat)
    requires Fits(bytes, base, size, i + 1) && Fits(bytes, base, size, j + 1)
    ensures 1 <= j <= i ==> Slot(ShiftUp(bytes, base, size, i), base, size, j) == Slot(bytes, base, size, j - 1)
    ensures j > i || j == 0 ==> Slot(ShiftUp(bytes, base, size, i), base, size, j) == Slot(bytes, base, size, j)
  {
    if 1 <= j <= i { SlotMoved(bytes, base, size, i, j); } else { SlotStays(bytes, base, size, i, j); }
  }

  lemma SlotMoved(bytes: Bytes, base: nat, size: nat, i: nat, j: nat)
    requires Fits(bytes, base, size, i + 1) && Fits(bytes, base, size, j + 1) && 1 <= j <= i
    ensures Slot(ShiftUp(bytes, base, size, i), base, size, j) == Slot(bytes, base, size, j - 1)
  {
    IndexSpan(base, size, 1, i);
    IndexSpan(base, size, 0, i);
    SlotInside(base, size, i, j);
    CopiedInside(bytes, Index(base, size, 1), Index(base, size, 0), Index(0, size, i), Index(base, size, j), size);
  }

  /** Among the slots moved up, slot `j` lies where slot `j - 1` was, one slot further. */
  lemma SlotInside(base: nat, size: nat, i: nat, j: nat)
    requires 1 <= j <= i
    ensures Index(base, size, 1) <= Index(base, size, j)
    ensures Index(base, size, j) + size <= Index(base, size, 1) + Index(0, size, i)
    ensures Index(base, size, j) - Index(base, size, 1) + Index(base, size, 0) == Index(base, size, j - 1)
  {
    IndexSpan(base, size, 1, i);
    IndexMonotone(base, size, 1, j);
    IndexMonotone(base, size, j, i);
  }

  lemma SlotStays(bytes: Bytes, base: nat, size: nat, i: nat, j: nat)
    requires Fits(bytes, base, size, i + 1) && Fits(bytes, base, size, j + 1) && (j > i || j == 0)
    ensures Slot(ShiftUp(bytes, base, size, i), base, size, j) == Slot(bytes, base, size, j)
  {
    IndexSpan(base, size, 1, i);
    IndexSpan(base, size, 0, i);
    if j > i { IndexMonotone(base, size, i + 1, j); }
    var at := Index(base, size, j);
    CopiedOutside(bytes, Index(base, size, 1), Index(base, size, 0), Index(0, size, i), at, at + size);
  }

  lemma ShiftedAt(bytes: Bytes, base: nat, size: nat, n: nat, i: nat, j: nat)
    requires Fits(bytes, base, size, n) && Fits(bytes, base, size, i + 1) && j < n
    ensures var s, s' := SlotsOf(bytes, base, size, n), SlotsOf(ShiftUp(bytes, base, size, i), base, size, n);
            s'[j] == if 1 <= j <= i then s[j - 1] else s[j]
  {
    IndexMonotone(base, size, j + 1, n);
    ShiftedSlot(bytes, base, size, i, j);
  }

  lemma ShiftedSlots(bytes: Bytes, base: nat, size: nat, n: nat, i: nat)
    requires Fits(bytes, base, size, n) && i < n
    ensures Fits(bytes, base, size, i + 1)
    ensures var b := ShiftUp(bytes, base, size, i);
            var s := SlotsOf(bytes, base, size, n);
            Fits(b, base, size, n) && SlotsOf(b, base, size, n) == [s[0]] + s[..i] + s[i + 1..]
  {
    IndexMonotone(base, size, i + 1, n);
    var b := ShiftUp(bytes, base, size, i);
    var s, s' := SlotsOf(bytes, base, size, n), SlotsOf(b, base, size, n);
    forall j | 0 <= j < n ensures s'[j] == if 1 <= j <= i then s[j - 1] else s[j] {
      ShiftedAt(bytes, base, size, n, i, j);
    }
    ShiftedSeq(s, s', i);
  }

  lemma ShiftedSeq(s: seq<Bytes>, s': seq<Bytes>, i: nat)
    requires |s'| == |s| && i < |s|
    requires forall j {:trigger s'[j]} :: 0 <= j < |s| ==> s'[j] == if 1 <= j <= i then s[j - 1] else s[j]
    ensures s' == [s[0]] + s[..i] + s[i + 1..]
  {
  }

  // ---------------------------------------------------------------- promotion

  /** Slot `i` moved to the front, the slots before it each one place back. */
  function Rotated<T>(s: seq<T>, i: nat): seq<T>
    requires i < |s|
  {
    [s[i]] + s[..i] + s[i + 1..]
  }

  /** The bytes before and after the block are the same. */
  predicate OutsideSame(b: Bytes, b': Bytes, base: nat, end: nat) {
    && |b'| == |b| && base <= end <= |b|
    && b'[0..base] == b[0..base] && b'[end..|b|] == b[end..|b|]
  }

  lemma ShiftOutside(b: Bytes, base: nat, size: nat, n: nat, i: nat)
    requires Fits(b, base, size, n) && i < n && Fits(b, base, size, i + 1)
    ensures OutsideSame(b, ShiftUp(b, base, size, i), base, Index(base, size, n))
  {
    IndexSpan(base, size, 1, i);
    IndexSpan(base, size, 0, i);
    IndexMonotone(base, size, i + 1, n);
    var dst, len, end := Index(base, size, 1), Index(0, size, i), Index(base, size, n);
    CopiedOutside(b, dst, base, len, 0, base);
    CopiedOutside(b, dst, base, len, end, |b|);
  }

  lemma WriteOutside(b: Bytes, base: nat, size: nat, n: nat, i: nat, obj: Bytes)
    requires Fits(b, base, size, n) && i < n && |obj| == size
    requires Index(base, size, i) + size <= Index(base, size, n)
    ensures OutsideSame(b, Written(b, Index(base, size, i), obj), base, Index(base, size, n))
  {
    var at, end := Index(base, size, i), Index(base, size, n);
    WrittenOutside(b, at, obj, 0, base);
    WrittenOutside(b, at, obj, end, |b|);
  }

  lemma OutsideTrans(b0: Bytes, b1: Bytes, b2: Bytes, base: nat, end: nat)
    requires OutsideSame(b0, b1, base, end) && OutsideSame(b1, b2, base, end)
    ensures OutsideSame(b0, b2, base, end)
  {
  }

  method ReadSlot(a: array<bv8>, base: nat, size: nat, n: nat, i: nat) returns (obj: Bytes)
    requires Fits(a[..], base, size, n) && i < n
    ensures obj == SlotsOf(a[..], base, size, n)[i] && |obj| == size
    ensures base + i * size + size <= a.Length && obj == a[base + i * size..base + i * size + size]
  {
    IndexIsProduct(base, size, i);
    IndexMonotone(base, size, i + 1, n);
    var at := Index(base, size, i);
    obj := a[at..at + size];
    assert a[..][at..at + size] == a[at..at + size];
  }

  method WriteSlot(a: array<bv8>, base: nat, size: nat, n: nat, i: nat, obj: Bytes)
    requires Fits(a[..], base, size, n) && i < n && |obj| == size
    modifies a
    ensures Fits(a[..], base, size, n)
    ensures SlotsOf(a[..], base, size, n) == SlotsOf(old(a[..]), base, size, n)[i := obj]
    ensures OutsideSame(old(a[..]), a[..], base, Index(base, size, n))
    ensures base + i * size + size <= a.Length
    ensures a[..] == old(a[..])[..base + i * size] + obj + old(a[..])[base + i * size + size..]
  {
    IndexIsProduct(base, size, i);
    IndexMonotone(base, size, i + 1, n);
    IndexMonotone(base, size, 0, i);
    WrittenSlots(a[..], base, size, n, i, obj);
    WriteOutside(a[..], base, size, n, i, obj);
    MemWrite(a, Index(base, size, i), obj);
  }

  /**
   * Reading slot `i` aside, moving the slots before it up by one and writing it in front rotates
   * the slots, whatever the bytes are; the bytes outside the block stay.
   */
  method Promote(a: array<bv8>, base: nat, size: nat, n: nat, i: nat)
    requires Fits(a[..], base, size, n) && i < n
    modifies a
    ensures Fits(a[..], base, size, n)
    ensures SlotsOf(a[..], base, size, n) == Rotated(SlotsOf(old(a[..]), base, size, n), i)
    ensures OutsideSame(old(a[..]), a[..], base, Index(base, size, n))
  {
    var temp := ReadSlot(a, base, size, n, i);
    ShiftSlots(a, base, size, n, i);
    ghost var b := a[..];
    WriteSlot(a, base, size, n, 0, temp);
    OutsideTrans(old(a[..]), b, a[..], base, Index(base, size, n));
    RotatedInFront(SlotsOf(old(a[..]), base, size, n), i);
  }

  lemma RotatedInFront(s: seq<Bytes>, i: nat)
    requires i < |s|
    ensures ([s[0]] + s[..i] + s[i + 1..])[0 := s[i]] == Rotated(s, i)
  {
  }

  /** The slots before slot `i` moved up by one place, over slot `i`. */
  method ShiftSlots(a: array<bv8>, base: nat, size: nat, n: nat, i: nat)
    requires Fits(a[..], base, size, n) && i < n
    modifies a
    ensures Fits(a[..], base, size, n)
    ensures var s := SlotsOf(old(a[..]), base, size, n);
            SlotsOf(a[..], base, size, n) == [s[0]] + s[..i] + s[i + 1..]
    ensures OutsideSame(old(a[..]), a[..], base, Index(base, size, n))
  {
    ShiftedSlots(a[..], base, size, n, i);
    ShiftOutside(a[..], base, size, n, i);
    IndexSpan(base, size, 1, i);
    IndexSpan(base, size, 0, i);
    MemMove(a, Index(base, size, 1), Index(base, size, 0), Index(0, size, i));
  }
}
