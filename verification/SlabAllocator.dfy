/**
 * Slab sizes and addresses: the size that the page-doubling loop settles on, the aligned block that
 * is left of a reservation of twice that size, and the way back from an object to its slab.
 */
module SlabAllocator {
  import opened Words
  import opened MemoryLayout

  const PAGE: nat := 4096

  /** A power of two that words can hold and that is made of whole pages. */
  ghost predicate SlabSized(s: nat) {
    PAGE <= s < WORD && ValidAlign(s)
  }

  lemma SlabSizedFacts(s: nat)
    requires SlabSized(s)
    ensures s <= WORD / 2 && s % PAGE == 0
  {
    ValidAlignHalf(s);
    WordIsPow2();
    ValidAlignIff(PAGE);
    LargerIsMultiple(PAGE, s);
  }

  // ---------------------------------------------------------------- the size of a slab

  lemma DoubledIsPow2(p: nat)
    requires ValidAlign(p)
    ensures ValidAlign(2 * p)
  {
    ValidAlignIff(p);
    assert 2 * p == Pow2(Log2(p) + 1);
    ValidAlignIff(2 * p);
  }

  /** A power of two above half of another is at least as large as that one. */
  lemma NextPow2(p: nat, q: nat)
    requires ValidAlign(p) && ValidAlign(q) && p < 2 * q
    ensures p <= q
  {
    if Log2(q) < Log2(p) {
      Pow2Divides(Log2(q) + 1, Log2(p));
    } else {
      Pow2Divides(Log2(p), Log2(q));
    }
  }

  lemma PagesToBytes(p: nat)
    requires ValidAlign(p) && p < 0x10_0000_0000_0000
    ensures SlabSized(p * PAGE)
  {
    WordIsPow2();
    Pow2Split(12, Log2(p) + 12);
    assert p * PAGE == Pow2(Log2(p) + 12);
    ValidAlignIff(p * PAGE);
  }

  /** The least size of a slab that holds `needed` bytes. */
  ghost predicate LeastSlab(size: nat, needed: nat) {
    SlabSized(size) && size >= needed && forall s: nat :: SlabSized(s) && s >= needed ==> size <= s
  }

  /** `(needed + PAGE_SIZE - 1) / PAGE_SIZE`, in words. */
  function Pages(needed: nat): nat {
    ((needed + PAGE - 1) % WORD) / PAGE
  }

  lemma PagesBound(needed: nat)
    requires needed < WORD
    ensures Pages(needed) <= WORD / PAGE - 1
    ensures needed <= WORD / 2 ==> needed <= Pages(needed) * PAGE < needed + PAGE && Pages(needed) <= WORD / 2 / PAGE
    ensures WORD / 2 < needed < WORD - PAGE + 1 ==> Pages(needed) > WORD / 2 / PAGE
    ensures needed >= WORD - PAGE + 1 ==> Pages(needed) == 0
  {
    if needed < WORD - PAGE + 1 {
      WordRemainder(needed + PAGE - 1);
    } else {
      DivModUnique(needed + PAGE - 1, WORD, 1, needed + PAGE - 1 - WORD);
    }
  }

  /**
   * The size of a slab that should hold `needed` bytes: the least power of two pages that does,
   * if `needed` is at most half the address range, and a size that is too small otherwise.
   */
  method SlabSize(needed: nat) returns (size: nat)
    requires needed < WORD
    ensures size >= needed <==> needed <= WORD / 2
    ensures size >= needed ==> LeastSlab(size, needed)
    ensures size < needed ==> size == if needed < WORD - PAGE + 1 then 0 else PAGE
  {
    var minPages := Pages(needed);
    PagesBound(needed);
    OneValid();
    var pages := 1;
    while pages < minPages
      invariant ValidAlign(pages) && pages <= 0x10_0000_0000_0000
      invariant pages == 1 || pages < 2 * minPages
      decreases 0x10_0000_0000_0000 - pages
    {
      DoubledIsPow2(pages);
      HalfRange(pages);
      pages := (pages * 2) % WORD;
    }
    size := (pages * PAGE) % WORD;
    SizeSound(needed, pages);
  }

  lemma HalfRange(pages: nat)
    requires ValidAlign(pages) && pages < 0x10_0000_0000_0000
    ensures 2 * pages <= 0x10_0000_0000_0000 && (pages * 2) % WORD == 2 * pages
  {
    WordIsPow2();
    Pow2Split(12, 64);
    ValidAlignIff(0x10_0000_0000_0000);
    DoubledIsPow2(pages);
    NextPow2(2 * pages, 0x10_0000_0000_0000);
    WordRemainder(pages * 2);
  }

  lemma SizeSound(needed: nat, pages: nat)
    requires needed < WORD && ValidAlign(pages) && pages <= 0x10_0000_0000_0000
    requires Pages(needed) <= pages && (pages == 1 || pages < 2 * Pages(needed))
    ensures needed <= WORD / 2 ==> LeastSlab((pages * PAGE) % WORD, needed)
    ensures WORD / 2 < needed < WORD - PAGE + 1 ==> (pages * PAGE) % WORD == 0
    ensures WORD - PAGE + 1 <= needed ==> (pages * PAGE) % WORD == PAGE
  {
    PagesBound(needed);
    if needed <= WORD / 2 {
      UsableSize(needed, pages);
    } else if needed < WORD - PAGE + 1 {
      WrappedSize(pages);
    } else {
      WordRemainder(PAGE);
    }
  }

  lemma WholePages(needed: nat, s: nat)
    requires SlabSized(s) && needed <= s && needed <= WORD / 2
    ensures Pages(needed) * PAGE <= s
  {
    PagesBound(needed);
    SlabSizedFacts(s);
    FewerPages(Pages(needed), s / PAGE, needed, s);
  }

  lemma FewerPages(p: nat, q: nat, needed: nat, s: nat)
    requires p * PAGE < needed + PAGE && needed <= s == q * PAGE
    ensures p * PAGE <= s
  {
  }

  lemma UsableSize(needed: nat, pages: nat)
    requires needed <= WORD / 2 && ValidAlign(pages)
    requires Pages(needed) <= pages && (pages == 1 || pages < 2 * Pages(needed))
    ensures LeastSlab((pages * PAGE) % WORD, needed)
  {
    PagesBound(needed);
    PagesToBytes(pages);
    WordRemainder(pages * PAGE);
    var size := pages * PAGE;
    assert pages == 1 || size < 2 * (needed + PAGE);
    forall s: nat | SlabSized(s) && s >= needed ensures size <= s {
      if pages > 1 {
        WholePages(needed, s);
        NextPow2(size, s);
      }
    }
  }

  /** More than half the range takes all the pages there are, whose size wraps to nothing. */
  lemma WrappedSize(pages: nat)
    requires ValidAlign(pages) && WORD / 2 / PAGE < pages <= 0x10_0000_0000_0000
    ensures (pages * PAGE) % WORD == 0
  {
    WordIsPow2();
    Pow2Split(12, 64);
    ValidAlignIff(0x10_0000_0000_0000);
    NextPow2(0x10_0000_0000_0000, pages);
  }

  /** The configuration check as it is written: it rejects sizes that are large enough. */
  predicate RejectedAsWritten(size: nat, needed: nat) {
    size >= needed
  }

  /** The assertion as it is written: it holds of sizes that are not powers of two. */
  predicate AssertedAsWritten(size: nat) {
    And(size, (size - 1) % WORD) != 0
  }

  /** As written, the check turns down exactly the requests that the loop serves, and the assertion never holds. */
  method ConfigureAsWritten(needed: nat) returns (rejected: bool, size: nat)
    requires needed < WORD
    ensures rejected <==> needed <= WORD / 2
    ensures rejected <==> size >= needed && SlabSized(size)
    ensures rejected ==> LeastSlab(size, needed)
    ensures !rejected ==> size == if needed < WORD - PAGE + 1 then 0 else PAGE
    ensures !AssertedAsWritten(size)
  {
    size := SlabSize(needed);
    rejected := RejectedAsWritten(size, needed);
    PageIsPow2();
    NeverAsserted(size);
  }

  lemma PageIsPow2()
    ensures ValidAlign(PAGE)
  {
    WordIsPow2();
    ValidAlignIff(PAGE);
  }

  lemma NeverAsserted(size: nat)
    requires size == 0 || (ValidAlign(size) && size < WORD)
    ensures !AssertedAsWritten(size)
  {
    if size > 0 {
      WordRemainder(size - 1);
      AndCommutes(size, size - 1);
    }
  }

  lemma {:induction false} AndCommutes(x: nat, y: nat)
    ensures And(x, y) == And(y, x)
  {
    if x > 0 && y > 0 { AndCommutes(x / 2, y / 2); }
  }

  // ---------------------------------------------------------------- the block and its slab

  /** `len` bytes from `addr`. */
  datatype Range = Range(addr: nat, len: nat)

  predicate In(x: nat, r: Range) {
    r.addr <= x < r.addr + r.len
  }

  predicate InAny(x: nat, rs: seq<Range>) {
    exists i :: 0 <= i < |rs| && In(x, rs[i])
  }

  lemma AlignedInside(raw: nat, size: nat)
    requires SlabSized(size) && raw + 2 * size <= WORD
    ensures var a := AlignSize(raw, size); raw <= a < raw + size && a % size == 0 && a % PAGE == 0
  {
    SlabSizedFacts(size);
    AlignSizeIsLeast(raw, size);
    MultipleTrans(AlignSize(raw, size), size, PAGE);
  }

  lemma WholePageTrims(raw: nat, size: nat, a: nat)
    requires raw % PAGE == 0 && size % PAGE == 0 && a % PAGE == 0 && raw <= a <= raw + size
    ensures (a - raw) % PAGE == 0 && (raw + size - a) % PAGE == 0 && (a + size) % PAGE == 0
  {
    var i, j, k := raw / PAGE, size / PAGE, a / PAGE;
    DivModUnique(a - raw, PAGE, k - i, 0);
    DivModUnique(raw + size - a, PAGE, i + j - k, 0);
    DivModUnique(a + size, PAGE, k + j, 0);
  }

  /** Maps twice the size at `raw` and unmaps what is not the aligned block. */
  method AlignedMmap(raw: nat, size: nat) returns (block: nat, unmapped: seq<Range>)
    requires SlabSized(size) && raw % PAGE == 0 && raw + 2 * size <= WORD
    ensures block % size == 0 && raw <= block < raw + size
    ensures forall x: nat :: In(x, Range(block, size)) <==> In(x, Range(raw, 2 * size)) && !InAny(x, unmapped)
    ensures forall i :: 0 <= i < |unmapped| ==>
      unmapped[i].len > 0 && unmapped[i].addr % PAGE == 0 && unmapped[i].len % PAGE == 0
    ensures Lengths(unmapped) == size
    ensures forall obj: nat :: obj < WORD ==> (FindSlab(obj, size) == block <==> In(obj, Range(block, size)))
  {
    AlignedInside(raw, size);
    SlabSizedFacts(size);
    block := AlignSize(raw, size);
    var leading := block - raw;
    var trailing := raw + 2 * size - (block + size);
    WholePageTrims(raw, size, block);
    unmapped := [];
    if leading > 0 {
      unmapped := [Range(raw, leading)];
    }
    ghost var first := unmapped;
    if trailing > 0 {
      LengthsAppend(first, Range(block + size, trailing));
      unmapped := unmapped + [Range(block + size, trailing)];
    }
    assert Lengths(unmapped) == size;
    Unmapped(raw, size, block, unmapped);
    forall obj: nat | obj < WORD ensures FindSlab(obj, size) == block <==> In(obj, Range(block, size)) {
      FindSlabIff(obj, block, size);
    }
  }

  lemma Unmapped(raw: nat, size: nat, block: nat, unmapped: seq<Range>)
    requires raw <= block && block <= raw + size
    requires unmapped == (if block > raw then [Range(raw, block - raw)] else []) +
                         (if raw + size > block then [Range(block + size, raw + size - block)] else [])
    ensures forall x: nat :: In(x, Range(block, size)) <==> In(x, Range(raw, 2 * size)) && !InAny(x, unmapped)
  {
    forall x: nat
      ensures In(x, Range(block, size)) <==> In(x, Range(raw, 2 * size)) && !InAny(x, unmapped)
    {
      if In(x, Range(raw, block - raw)) { assert In(x, unmapped[0]); }
      if In(x, Range(block + size, raw + size - block)) { assert In(x, unmapped[|unmapped| - 1]); }
    }
  }

  function Lengths(rs: seq<Range>): nat {
    if rs == [] then 0 else rs[0].len + Lengths(rs[1..])
  }

  lemma LengthsAppend(rs: seq<Range>, r: Range)
    ensures Lengths(rs + [r]) == Lengths(rs) + r.len
  {
    if rs != [] {
      assert (rs + [r])[1..] == rs[1..] + [r];
      LengthsAppend(rs[1..], r);
    }
  }

  /** `obj & ~(slab_size - 1)` */
  function FindSlab(obj: nat, size: nat): nat
    requires 0 < size <= WORD
  {
    And(obj, Not(size - 1))
  }

  /** Masking an address leads to a block exactly if the address is inside it. */
  lemma FindSlabIff(obj: nat, block: nat, size: nat)
    requires SlabSized(size) && block % size == 0 && obj < WORD
    ensures FindSlab(obj, size) == block <==> In(obj, Range(block, size))
  {
    Log2Below(size);
    MaskWord(obj, Log2(size));
    RoundDown(obj, size);
    if In(obj, Range(block, size)) {
      var r := obj - obj % size;
      NextMultiple(block, r, size);
      NextMultiple(r, block, size);
    }
  }
}
