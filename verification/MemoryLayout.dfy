/**
 * Laying out objects one after another, each at a multiple of its alignment, with the size
 * arithmetic of 64-bit words.
 */
module MemoryLayout {
  import opened Words

  /** `count` objects of `size` bytes in a row. */
  datatype Desc = Desc(size: nat, align: nat, count: nat)

  predicate ValidDesc(d: Desc) {
    0 < d.align < WORD && ValidAlign(d.align) && 0 < d.size < WORD && 0 < d.count < WORD
  }

  predicate AllValid(ds: seq<Desc>) {
    forall i :: 0 <= i < |ds| ==> ValidDesc(ds[i])
  }

  /** `(size + align - 1) & ~(align - 1)` */
  function AlignSize(size: nat, align: nat): nat
    requires 0 < align < WORD
  {
    And((size + align - 1) % WORD, Not(align - 1))
  }

  lemma WordRemainder(x: nat)
    requires x < WORD
    ensures x % WORD == x
  {
    DivModUnique(x, WORD, 0, x);
  }

  lemma Log2Below(a: nat)
    requires ValidAlign(a) && a < WORD
    ensures Log2(a) < 64
  {
    WordIsPow2();
    if Log2(a) > 64 { Pow2Strict(64, Log2(a)); }
  }

  /** Without overflow, the mask form is the least multiple of the alignment not below the size. */
  lemma AlignSizeIsLeast(size: nat, align: nat)
    requires ValidAlign(align) && align < WORD && size + align - 1 < WORD
    ensures var r := AlignSize(size, align);
            && r % align == 0 && size <= r < size + align
            && forall m: nat :: m % align == 0 && size <= m ==> r <= m
  {
    AlignSizeValue(size, align);
    RoundUp(size, align);
  }

  lemma AlignSizeValue(size: nat, align: nat)
    requires ValidAlign(align) && align < WORD && size + align - 1 < WORD
    ensures AlignSize(size, align) == (size + align - 1) - (size + align - 1) % align
  {
    WordRemainder(size + align - 1);
    Log2Below(align);
    MaskWord(size + align - 1, Log2(align));
  }

  lemma RoundUp(size: nat, align: nat)
    requires align > 0
    ensures var r := (size + align - 1) - (size + align - 1) % align;
            && r % align == 0 && size <= r < size + align
            && forall m: nat :: m % align == 0 && size <= m ==> r <= m
  {
    var x := size + align - 1;
    var r := x - x % align;
    RoundDown(x, align);
    forall m: nat | m % align == 0 && size <= m ensures r <= m {
      NextMultiple(r, m, align);
    }
  }

  lemma RoundDown(x: nat, a: nat)
    requires a > 0
    ensures (x - x % a) % a == 0 && x - a < x - x % a <= x
  {
    MultipleMod(x / a, a);
  }

  /** Two multiples less than one step apart are in order. */
  lemma NextMultiple(r: nat, m: nat, a: nat)
    requires a > 0 && r % a == 0 && m % a == 0 && r < m + a
    ensures r <= m
  {
    var i, j := r / a, m / a;
    Quotient(r, a);
    Quotient(m, a);
    Distribute(i, j, a);
    if i > j { MultipleAtLeast(i - j, a); }
    if i < j { MultipleAtLeast(j - i, a); }
  }

  lemma Quotient(x: nat, a: nat)
    requires a > 0 && x % a == 0
    ensures x == (x / a) * a
  {
  }

  // ---------------------------------------------------------------- appending

  function Extent(d: Desc): nat {
    d.size * d.count
  }

  /** Puts `d` behind `base`: the new description and the offset at which `d` starts. */
  function Append(base: Desc, d: Desc): (Desc, nat)
    requires 0 < d.align < WORD
  {
    var offset := AlignSize(base.size, d.align);
    (Desc((offset + Extent(d) % WORD) % WORD, if d.align > base.align then d.align else base.align, base.count),
     offset)
  }

  /** No size computed on the way is too large for a word. */
  predicate Roomy(base: Desc, d: Desc)
    requires 0 < d.align < WORD
  {
    base.size + d.align - 1 < WORD && AlignSize(base.size, d.align) + Extent(d) < WORD
  }

  function AppendAll(base: Desc, ds: seq<Desc>): (Desc, seq<nat>)
    requires AllValid(ds)
  {
    if ds == [] then (base, [])
    else
      var n := |ds| - 1;
      assert ValidDesc(ds[n]);
      var (b, offsets) := AppendAll(base, ds[..n]);
      var (b', offset) := Append(b, ds[n]);
      (b', offsets + [offset])
  }

  predicate RoomyAll(base: Desc, ds: seq<Desc>)
    requires AllValid(ds)
  {
    ds != [] ==>
      var n := |ds| - 1;
      assert ValidDesc(ds[n]);
      RoomyAll(base, ds[..n]) && Roomy(AppendAll(base, ds[..n]).0, ds[n])
  }

  lemma AppendSize(base: Desc, d: Desc)
    requires ValidDesc(d) && Roomy(base, d)
    ensures var (b, offset) := Append(base, d);
            base.size <= offset && Divides(d.align, offset) && b.size == offset + Extent(d)
  {
    AlignSizeIsLeast(base.size, d.align);
    WordRemainder(Extent(d));
    WordRemainder(AlignSize(base.size, d.align) + Extent(d));
  }

  lemma AppendAlign(base: Desc, d: Desc)
    requires ValidDesc(d) && 0 < base.align < WORD && ValidAlign(base.align)
    ensures var b := Append(base, d).0;
            0 < b.align < WORD && ValidAlign(b.align) && Divides(d.align, b.align) && Divides(base.align, b.align)
  {
    if base.align <= d.align { LargerIsMultiple(base.align, d.align); } else { LargerIsMultiple(d.align, base.align); }
    MultipleMod(1, d.align);
    MultipleMod(1, base.align);
  }

  /** Of two powers of two, the larger is a multiple of the smaller. */
  lemma LargerIsMultiple(a: nat, b: nat)
    requires ValidAlign(a) && ValidAlign(b) && a <= b
    ensures b % a == 0
  {
    if Log2(a) > Log2(b) { Pow2Strict(Log2(b), Log2(a)); }
    Pow2Divides(Log2(a), Log2(b));
  }

  // ---------------------------------------------------------------- whole layouts

  predicate Divides(a: nat, x: nat) {
    a > 0 && x % a == 0
  }

  /** A region at or after `low`, ending by `size`, at a multiple of its alignment, which divides `align`. */
  predicate Placed(d: Desc, offset: nat, low: nat, size: nat, align: nat) {
    low <= offset && offset + Extent(d) <= size && Divides(d.align, offset) && Divides(d.align, align)
  }

  predicate AllPlaced(ds: seq<Desc>, offsets: seq<nat>, low: nat, size: nat, align: nat) {
    |offsets| == |ds| && forall i :: 0 <= i < |ds| ==> Placed(ds[i], offsets[i], low, size, align)
  }

  /** Each region ends before the next begins. */
  predicate InSequence(ds: seq<Desc>, offsets: seq<nat>)
    requires |offsets| == |ds|
  {
    forall i, j :: 0 <= i < j < |ds| ==> offsets[i] + Extent(ds[i]) <= offsets[j]
  }

  lemma PlacedGrows(d: Desc, offset: nat, low: nat, size: nat, align: nat, size': nat, align': nat)
    requires Placed(d, offset, low, size, align) && size <= size' && Divides(align, align')
    ensures Placed(d, offset, low, size', align')
  {
    MultipleTrans(align', align, d.align);
  }

  lemma AllPlacedGrows(ds: seq<Desc>, offsets: seq<nat>, low: nat, size: nat, align: nat, size': nat, align': nat)
    requires AllPlaced(ds, offsets, low, size, align) && size <= size' && Divides(align, align')
    ensures AllPlaced(ds, offsets, low, size', align')
  {
    forall i | 0 <= i < |ds| ensures Placed(ds[i], offsets[i], low, size', align') {
      PlacedGrows(ds[i], offsets[i], low, size, align, size', align');
    }
  }

  lemma AppendPlaced(base: Desc, d: Desc)
    requires ValidDesc(d) && 0 < base.align < WORD && ValidAlign(base.align) && Roomy(base, d)
    ensures var (b, offset) := Append(base, d);
            && Placed(d, offset, base.size, b.size, b.align) && base.size <= b.size && offset + Extent(d) == b.size
            && 0 < b.align < WORD && ValidAlign(b.align) && Divides(base.align, b.align)
  {
    AppendSize(base, d);
    AppendAlign(base, d);
  }

  lemma ExtendPlaced(ds: seq<Desc>, offsets: seq<nat>, low: nat, size: nat, align: nat, d: Desc, offset: nat, size0: nat)
    requires AllPlaced(ds, offsets, low, size0, align) && Placed(d, offset, size0, size, align) && low <= size0 <= size
    requires InSequence(ds, offsets)
    ensures AllPlaced(ds + [d], offsets + [offset], low, size, align) && InSequence(ds + [d], offsets + [offset])
  {
    var n := |ds|;
    var ds', offsets' := ds + [d], offsets + [offset];
    forall i | 0 <= i < |ds'| ensures Placed(ds'[i], offsets'[i], low, size, align) {
      if i < n { assert Placed(ds[i], offsets[i], low, size0, align); }
    }
    forall i, j | 0 <= i < j < |ds'| ensures offsets'[i] + Extent(ds'[i]) <= offsets'[j] {
      assert Placed(ds[i], offsets[i], low, size0, align);
      if j < n { assert offsets[i] + Extent(ds[i]) <= offsets[j]; }
    }
  }

  /** Appended regions follow one another without overlapping, each aligned, all within the total. */
  lemma {:induction false} LayoutSound(base: Desc, ds: seq<Desc>)
    requires 0 < base.align < WORD && ValidAlign(base.align) && AllValid(ds) && RoomyAll(base, ds)
    ensures var (b, offsets) := AppendAll(base, ds);
            && AllPlaced(ds, offsets, base.size, b.size, b.align) && InSequence(ds, offsets)
            && base.size <= b.size && 0 < b.align < WORD && ValidAlign(b.align) && Divides(base.align, b.align)
  {
    if ds == [] {
      MultipleMod(1, base.align);
    } else {
      var n := |ds| - 1;
      LayoutSound(base, ds[..n]);
      var (b, offsets) := AppendAll(base, ds[..n]);
      assert ValidDesc(ds[n]);
      AppendPlaced(b, ds[n]);
      var (b', offset) := Append(b, ds[n]);
      AllPlacedGrows(ds[..n], offsets, base.size, b.size, b.align, b.size, b'.align);
      ExtendPlaced(ds[..n], offsets, base.size, b'.size, b'.align, ds[n], offset, b.size);
      MultipleTrans(b'.align, b.align, base.align);
      assert ds[..n] + [ds[n]] == ds;
    }
  }

  lemma MultipleTrans(x: nat, y: nat, z: nat)
    requires y > 0 && z > 0 && x % y == 0 && y % z == 0
    ensures x % z == 0
  {
    var i, j := x / y, y / z;
    assert x == i * y && y == j * z;
    assert x == (i * j) * z by { Associate(i, j, z); }
    MultipleMod(i * j, z);
  }

  lemma Associate(i: nat, j: nat, z: nat)
    ensures i * (j * z) == (i * j) * z
  {
  }

  // ---------------------------------------------------------------- overflow

  /** An end that would pass the largest size wraps to offset zero. */
  lemma AlignWraps(size: nat, align: nat)
    requires ValidAlign(align) && align < WORD && size < WORD && size + align - 1 >= WORD
    ensures AlignSize(size, align) == 0
  {
    var x := size + align - 1;
    DivModUnique(x, WORD, 1, x - WORD);
    Log2Below(align);
    MaskWord(x - WORD, Log2(align));
    DivModUnique(x - WORD, align, 0, x - WORD);
  }

  lemma AppendBelow(base: Desc, ds: seq<Desc>)
    requires AllValid(ds) && base.size < WORD
    ensures AppendAll(base, ds).0.size < WORD && |AppendAll(base, ds).1| == |ds|
  {
    if ds != [] {
      var n := |ds| - 1;
      assert ValidDesc(ds[n]);
      var (b, offsets) := AppendAll(base, ds[..n]);
      AppendBelow(base, ds[..n]);
    }
  }

  /** If every region lies after the base and inside some block, then no size overflowed. */
  lemma {:induction false} PlacedOnlyIfRoomy(base: Desc, ds: seq<Desc>, size: nat, align: nat)
    requires AllValid(ds) && 0 < base.size < WORD && size < WORD
    ensures AllPlaced(ds, AppendAll(base, ds).1, base.size, size, align) ==> RoomyAll(base, ds)
  {
    if ds != [] && AllPlaced(ds, AppendAll(base, ds).1, base.size, size, align) {
      var n := |ds| - 1;
      var d := ds[n];
      assert ValidDesc(d);
      var (b, offsets) := AppendAll(base, ds[..n]);
      var all := AppendAll(base, ds).1;
      AppendBelow(base, ds[..n]);
      assert offsets == all[..n];
      assert forall i :: 0 <= i < n ==> Placed(ds[i], all[i], base.size, size, align);
      PlacedOnlyIfRoomy(base, ds[..n], size, align);
      assert Placed(d, all[n], base.size, size, align);
      if b.size + d.align - 1 >= WORD { AlignWraps(b.size, d.align); }
    }
  }

  // ---------------------------------------------------------------- nothing wasted

  /** `x` is the least multiple of `a` that is not below `low`. */
  ghost predicate LeastFrom(x: nat, a: nat, low: nat) {
    a > 0 && x % a == 0 && low <= x && forall m: nat :: m % a == 0 && low <= m ==> x <= m
  }

  /** Without overflow, a region starts at the first aligned place, the size is its end, the alignment the larger. */
  lemma AppendLeast(base: Desc, d: Desc)
    requires ValidDesc(d) && Roomy(base, d)
    ensures var (b, offset) := Append(base, d);
            && LeastFrom(offset, d.align, base.size) && b.size == offset + d.size * d.count
            && b.count == base.count && b.align == if d.align > base.align then d.align else base.align
  {
    AlignSizeIsLeast(base.size, d.align);
    AppendSize(base, d);
  }

  /** Where the region before the i-th ends. */
  function EndBefore(base: Desc, ds: seq<Desc>, offsets: seq<nat>, i: nat): nat
    requires i <= |ds| == |offsets|
  {
    if i == 0 then base.size else offsets[i - 1] + ds[i - 1].size * ds[i - 1].count
  }

  /** Each region starts at the first aligned place after the one before, and the total ends with the last. */
  ghost predicate Snug(base: Desc, ds: seq<Desc>, offsets: seq<nat>, total: Desc) {
    && |offsets| == |ds| && total.size == EndBefore(base, ds, offsets, |ds|)
    && forall i :: 0 <= i < |ds| ==> LeastFrom(offsets[i], ds[i].align, EndBefore(base, ds, offsets, i))
  }

  /** The total alignment is the largest there is. */
  predicate Largest(base: Desc, ds: seq<Desc>, align: nat) {
    && base.align <= align && (forall i :: 0 <= i < |ds| ==> ds[i].align <= align)
    && (align == base.align || exists i :: 0 <= i < |ds| && ds[i].align == align)
  }

  lemma {:induction false} LayoutSnug(base: Desc, ds: seq<Desc>)
    requires AllValid(ds) && RoomyAll(base, ds)
    ensures Snug(base, ds, AppendAll(base, ds).1, AppendAll(base, ds).0)
  {
    if ds != [] {
      var init, d := ds[..|ds| - 1], ds[|ds| - 1];
      assert ds == init + [d];
      RoomyLast(base, init, d);
      LayoutSnug(base, init);
      SnugLast(base, init, d);
    }
  }

  lemma RoomyLast(base: Desc, ds: seq<Desc>, d: Desc)
    requires AllValid(ds + [d]) && RoomyAll(base, ds + [d])
    ensures AllValid(ds) && ValidDesc(d) && RoomyAll(base, ds) && Roomy(AppendAll(base, ds).0, d)
  {
    var all := ds + [d];
    assert all[|ds|] == d && all[..|ds|] == ds;
  }

  lemma SnugLast(base: Desc, ds: seq<Desc>, d: Desc)
    requires AllValid(ds) && ValidDesc(d) && AllValid(ds + [d]) && Roomy(AppendAll(base, ds).0, d)
    requires Snug(base, ds, AppendAll(base, ds).1, AppendAll(base, ds).0)
    ensures Snug(base, ds + [d], AppendAll(base, ds + [d]).1, AppendAll(base, ds + [d]).0)
  {
    var (b, offsets) := AppendAll(base, ds);
    AppendOne(base, ds, d);
    AppendLeast(b, d);
    SnugGrows(base, ds, offsets, b, d, Append(b, d).1, Append(b, d).0);
  }

  lemma SnugGrows(base: Desc, ds: seq<Desc>, offsets: seq<nat>, b: Desc, d: Desc, offset: nat, b': Desc)
    requires Snug(base, ds, offsets, b) && LeastFrom(offset, d.align, b.size) && b'.size == offset + d.size * d.count
    ensures Snug(base, ds + [d], offsets + [offset], b')
  {
    var ds', offsets' := ds + [d], offsets + [offset];
    forall i | 0 <= i < |ds'| ensures LeastFrom(offsets'[i], ds'[i].align, EndBefore(base, ds', offsets', i)) {
      assert EndBefore(base, ds', offsets', i) == EndBefore(base, ds, offsets, i);
    }
  }

  lemma {:induction false} LayoutLargest(base: Desc, ds: seq<Desc>)
    requires AllValid(ds)
    ensures Largest(base, ds, AppendAll(base, ds).0.align)
  {
    if ds != [] {
      var n := |ds| - 1;
      assert ValidDesc(ds[n]);
      LayoutLargest(base, ds[..n]);
      LargestGrows(base, ds[..n], AppendAll(base, ds[..n]).0.align, ds[n]);
      assert ds[..n] + [ds[n]] == ds;
    }
  }

  lemma LargestGrows(base: Desc, ds: seq<Desc>, align: nat, d: Desc)
    requires Largest(base, ds, align)
    ensures Largest(base, ds + [d], if d.align > align then d.align else align)
  {
    var ds' := ds + [d];
    assert ds'[|ds|] == d;
    if align != base.align && d.align <= align {
      var i :| 0 <= i < |ds| && ds[i].align == align;
      assert ds'[i].align == align;
    }
  }

  // ---------------------------------------------------------------- memory with components

  datatype Component = Component(ptr: nat, desc: Desc)

  datatype Memory = Memory(addr: nat, componentList: nat, header: nat, components: seq<Component>)

  datatype Result<T> = Ok(value: T) | BadConf

  const MEMORY := Desc(24, 8, 1)

  function ComponentListDesc(count: nat): Desc {
    Desc(32, 8, count)
  }

  /** What is laid out behind the memory record: component list, header, components. */
  function Parts(header: Desc, ds: seq<Desc>): seq<Desc> {
    [ComponentListDesc(|ds|), header] + ds
  }

  function Layout(header: Desc, ds: seq<Desc>): (Desc, seq<nat>)
    requires AllValid(Parts(header, ds))
  {
    AppendAll(MEMORY, Parts(header, ds))
  }

  /** The memory record, the component list, the header and the components, in address order. */
  function Regions(m: Memory, header: Desc): seq<Component> {
    [Component(m.addr, MEMORY), Component(m.componentList, ComponentListDesc(|m.components|)), Component(m.header, header)]
    + m.components
  }

  ghost predicate Within(r: Component, addr: nat, size: nat) {
    addr <= r.ptr && r.ptr + Extent(r.desc) <= addr + size
  }

  ghost predicate Apart(r: Component, r': Component) {
    r.ptr + Extent(r.desc) <= r'.ptr
  }

  /** Regions inside the block that do not overlap, each at an address aligned for its contents. */
  ghost predicate WellPlaced(regions: seq<Component>, addr: nat, size: nat) {
    && (forall i :: 0 <= i < |regions| ==> Within(regions[i], addr, size) && Divides(regions[i].desc.align, regions[i].ptr))
    && (forall i, j :: 0 <= i < j < |regions| ==> Apart(regions[i], regions[j]))
  }

  lemma SumDivides(a: nat, x: nat, y: nat)
    requires a > 0 && x % a == 0
    ensures (x + y) % a == y % a
  {
    var i, j := x / a, y / a;
    assert x + y == (i + j) * a + y % a by { Distribute(i, -j, a); }
    DivModUnique(x + y, a, i + j, y % a);
  }

  lemma ValidParts(header: Desc, ds: seq<Desc>)
    requires 0 < |ds| < WORD
    ensures AllValid(Parts(header, ds)) <==> ValidDesc(header) && AllValid(ds)
    ensures ValidDesc(MEMORY) && ValidDesc(ComponentListDesc(|ds|))
  {
    var parts := Parts(header, ds);
    EightValid();
    assert parts[1] == header;
    assert forall i :: 0 <= i < |ds| ==> parts[i + 2] == ds[i];
    if ValidDesc(header) && AllValid(ds) {
      forall i | 0 <= i < |parts| ensures ValidDesc(parts[i]) {
        if i >= 2 { assert parts[i] == ds[i - 2]; }
      }
    }
  }

  lemma EightValid()
    ensures ValidAlign(8)
  {
    assert Pow2(3) == 8;
    ValidAlignIff(8);
  }

  /** The memory that the computed offsets describe at an address. */
  function MemoryAt(addr: nat, offsets: seq<nat>, ds: seq<Desc>): Memory
    requires |offsets| == |ds| + 2
  {
    Memory(addr, addr + offsets[0], addr + offsets[1],
           seq(|ds|, i requires 0 <= i < |ds| => Component(addr + offsets[i + 2], ds[i])))
  }

  lemma RegionAt(addr: nat, offsets: seq<nat>, header: Desc, ds: seq<Desc>, i: nat)
    requires |offsets| == |ds| + 2 && i < |ds| + 2
    ensures Regions(MemoryAt(addr, offsets, ds), header)[i + 1] == Component(addr + offsets[i], Parts(header, ds)[i])
  {
  }

  /** At an aligned address the regions are well placed exactly if no size overflowed. */
  lemma WellPlacedIffRoomy(addr: nat, header: Desc, ds: seq<Desc>)
    requires 0 < |ds| < WORD && ValidDesc(header) && AllValid(ds) && AllValid(Parts(header, ds))
    requires |Layout(header, ds).1| == |ds| + 2
    requires Divides(Layout(header, ds).0.align, addr)
    ensures RoomyAll(MEMORY, Parts(header, ds)) <==>
            WellPlaced(Regions(MemoryAt(addr, Layout(header, ds).1, ds), header), addr, Layout(header, ds).0.size)
  {
    ValidParts(header, ds);
    RoomyIsWellPlaced(addr, header, ds);
    WellPlacedIsRoomy(addr, header, ds);
  }

  /** A placed part of the layout is aligned and within the block at an aligned address. */
  lemma PlacedAt(r: Component, addr: nat, offset: nat, low: nat, size: nat, align: nat)
    requires Placed(r.desc, offset, low, size, align) && Divides(align, addr) && r.ptr == addr + offset
    ensures Within(r, addr, size) && Divides(r.desc.align, r.ptr)
  {
    MultipleTrans(addr, align, r.desc.align);
    SumDivides(r.desc.align, addr, offset);
  }

  lemma RoomyIsWellPlaced(addr: nat, header: Desc, ds: seq<Desc>)
    requires 0 < |ds| < WORD && AllValid(Parts(header, ds)) && |Layout(header, ds).1| == |ds| + 2
    requires Divides(Layout(header, ds).0.align, addr)
    ensures RoomyAll(MEMORY, Parts(header, ds)) ==>
            WellPlaced(Regions(MemoryAt(addr, Layout(header, ds).1, ds), header), addr, Layout(header, ds).0.size)
  {
    if !RoomyAll(MEMORY, Parts(header, ds)) { return; }
    var parts := Parts(header, ds);
    var (b, offsets) := Layout(header, ds);
    var regions := Regions(MemoryAt(addr, offsets, ds), header);
    EightValid();
    LayoutSound(MEMORY, parts);
    forall i | 0 <= i < |regions|
      ensures Within(regions[i], addr, b.size) && Divides(regions[i].desc.align, regions[i].ptr)
    {
      if i == 0 {
        MultipleTrans(addr, b.align, 8);
      } else {
        RegionAt(addr, offsets, header, ds, i - 1);
        PlacedAt(regions[i], addr, offsets[i - 1], 24, b.size, b.align);
      }
    }
    forall i, j | 0 <= i < j < |regions| ensures Apart(regions[i], regions[j]) {
      RegionAt(addr, offsets, header, ds, j - 1);
      assert Placed(parts[j - 1], offsets[j - 1], 24, b.size, b.align);
      if i > 0 { RegionAt(addr, offsets, header, ds, i - 1); }
    }
  }

  lemma WellPlacedIsRoomy(addr: nat, header: Desc, ds: seq<Desc>)
    requires 0 < |ds| < WORD && AllValid(Parts(header, ds)) && |Layout(header, ds).1| == |ds| + 2
    requires Divides(Layout(header, ds).0.align, addr)
    ensures WellPlaced(Regions(MemoryAt(addr, Layout(header, ds).1, ds), header), addr, Layout(header, ds).0.size) ==>
            RoomyAll(MEMORY, Parts(header, ds))
  {
    if !WellPlaced(Regions(MemoryAt(addr, Layout(header, ds).1, ds), header), addr, Layout(header, ds).0.size) { return; }
    var parts := Parts(header, ds);
    var (b, offsets) := Layout(header, ds);
    var regions := Regions(MemoryAt(addr, offsets, ds), header);
    AppendBelow(MEMORY, parts);
    EightValid();
    AlignAll(MEMORY, parts);
    forall i | 0 <= i < |parts| ensures Placed(parts[i], offsets[i], 24, b.size, b.align) {
      RegionAt(addr, offsets, header, ds, i);
      assert Within(regions[i + 1], addr, b.size) && Apart(regions[0], regions[i + 1]);
      assert Divides(parts[i].align, b.align);
      MultipleTrans(addr, b.align, parts[i].align);
      SumDivides(parts[i].align, addr, offsets[i]);
    }
    PlacedOnlyIfRoomy(MEMORY, parts, b.size, b.align);
  }

  /** The total alignment is a multiple of every part's, overflow or not. */
  lemma {:induction false} AlignAll(base: Desc, ds: seq<Desc>)
    requires 0 < base.align < WORD && ValidAlign(base.align) && AllValid(ds)
    ensures var b := AppendAll(base, ds).0;
            && 0 < b.align < WORD && ValidAlign(b.align)
            && forall i :: 0 <= i < |ds| ==> Divides(ds[i].align, b.align)
  {
    if ds != [] {
      var n := |ds| - 1;
      assert ValidDesc(ds[n]);
      AlignAll(base, ds[..n]);
      var b, b' := AppendAll(base, ds[..n]).0, AppendAll(base, ds).0;
      AppendAlign(b, ds[n]);
      forall i | 0 <= i < |ds| ensures Divides(ds[i].align, b'.align) {
        if i < n {
          assert ds[i] == ds[..n][i];
          MultipleTrans(b'.align, b.align, ds[i].align);
        }
      }
    }
  }

  lemma AppendOne(base: Desc, ds: seq<Desc>, d: Desc)
    requires AllValid(ds) && ValidDesc(d)
    ensures AllValid(ds + [d])
    ensures AppendAll(base, ds + [d]) ==
            (Append(AppendAll(base, ds).0, d).0, AppendAll(base, ds).1 + [Append(AppendAll(base, ds).0, d).1])
  {
    assert (ds + [d])[..|ds|] == ds;
  }

  ghost predicate Laid(start: Desc, ds: seq<Desc>, base: Desc, offsets: seq<nat>) {
    AllValid(ds) && AppendAll(start, ds) == (base, offsets)
  }

  /** Appends a description and reports its offset. */
  method AppendNext(base: Desc, d: Desc, offsets: seq<nat>, ghost start: Desc, ghost ds: seq<Desc>)
    returns (base': Desc, offsets': seq<nat>)
    requires Laid(start, ds, base, offsets) && ValidDesc(d)
    ensures Laid(start, ds + [d], base', offsets')
    ensures offsets' == offsets + [Append(base, d).1]
  {
    AppendOne(start, ds, d);
    var (next, offset) := Append(base, d);
    base', offsets' := next, offsets + [offset];
  }

  /** The offsets of component list, header and components, and the description of the whole. */
  method LayOut(header: Desc, ds: seq<Desc>) returns (r: Result<(Desc, seq<nat>)>)
    requires 0 < |ds| < WORD
    ensures r.Ok? <==> ValidDesc(header) && AllValid(ds)
    ensures r.Ok? ==> AllValid(Parts(header, ds)) && r.value == Layout(header, ds)
  {
    ValidParts(header, ds);
    if !ValidDesc(header) { return BadConf; }
    ghost var parts := Parts(header, ds);
    ghost var none := parts[..0];
    var memory, offsets := AppendNext(MEMORY, ComponentListDesc(|ds|), [], MEMORY, none);
    assert none + [ComponentListDesc(|ds|)] == parts[..1];
    memory, offsets := AppendNext(memory, header, offsets, MEMORY, parts[..1]);
    assert parts[..1] + [header] == parts[..2];
    var i := 0;
    while i < |ds|
      invariant 0 <= i <= |ds|
      invariant AllValid(ds[..i])
      invariant Laid(MEMORY, parts[..i + 2], memory, offsets)
    {
      if !ValidDesc(ds[i]) { return BadConf; }
      memory, offsets := AppendNext(memory, ds[i], offsets, MEMORY, parts[..i + 2]);
      assert parts[..i + 2] + [ds[i]] == parts[..i + 3];
      assert ds[..i] + [ds[i]] == ds[..i + 1];
      i := i + 1;
    }
    assert ds[..i] == ds && parts[..i + 2] == parts;
    return Ok((memory, offsets));
  }

  /** Where list, header and components start within the memory, if none starts before it. */
  function Offsets(m: Memory): seq<nat> {
    [Past(m.componentList, m.addr), Past(m.header, m.addr)]
    + seq(|m.components|, i requires 0 <= i < |m.components| => Past(m.components[i].ptr, m.addr))
  }

  function Past(ptr: nat, addr: nat): nat {
    if ptr >= addr then ptr - addr else 0
  }

  /** `place` is the aligned allocator: the address it gives to a block of an alignment and size. */
  method MemoryInit(header: Desc, ds: seq<Desc>, place: (nat, nat) -> nat) returns (r: Result<Memory>)
    requires 0 < |ds| < WORD
    requires forall align: nat, size: nat :: align > 0 ==> place(align, size) % align == 0
    ensures r.Ok? <==> ValidDesc(header) && AllValid(ds)
    ensures r.Ok? ==> |r.value.components| == |ds| &&
                      forall i :: 0 <= i < |ds| ==> r.value.components[i].desc == ds[i]
    ensures r.Ok? ==> AllValid(Parts(header, ds)) &&
                      (RoomyAll(MEMORY, Parts(header, ds)) <==>
                       WellPlaced(Regions(r.value, header), r.value.addr, Layout(header, ds).0.size))
    ensures r.Ok? ==> r.value.addr == place(Layout(header, ds).0.align, Layout(header, ds).0.size)
    ensures r.Ok? ==> Largest(MEMORY, Parts(header, ds), Layout(header, ds).0.align)
    ensures r.Ok? && RoomyAll(MEMORY, Parts(header, ds)) ==>
              Snug(MEMORY, Parts(header, ds), Offsets(r.value), Layout(header, ds).0)
  {
    var laid := LayOut(header, ds);
    if laid.BadConf? { return BadConf; }
    var (memory, offsets) := laid.value;
    LayoutShape(header, ds);
    var addr := place(memory.align, memory.size);
    var components: seq<Component> := [];
    var i := 0;
    while i < |ds|
      invariant 0 <= i <= |ds| && |components| == i
      invariant forall j :: 0 <= j < i ==> components[j] == Component(addr + offsets[j + 2], ds[j])
    {
      components := components + [Component(addr + offsets[i + 2], ds[i])];
      i := i + 1;
    }
    var m := Memory(addr, addr + offsets[0], addr + offsets[1], components);
    assert m == MemoryAt(addr, offsets, ds);
    assert Offsets(m) == offsets;
    WellPlacedIffRoomy(addr, header, ds);
    LayoutLargest(MEMORY, Parts(header, ds));
    if RoomyAll(MEMORY, Parts(header, ds)) { LayoutSnug(MEMORY, Parts(header, ds)); }
    return Ok(m);
  }

  lemma LayoutShape(header: Desc, ds: seq<Desc>)
    requires AllValid(Parts(header, ds))
    ensures |Layout(header, ds).1| == |ds| + 2 && Layout(header, ds).0.align > 0
  {
    EightValid();
    AppendBelow(MEMORY, Parts(header, ds));
    AlignAll(MEMORY, Parts(header, ds));
  }

  // ---------------------------------------------------------------- slots of a tree node and its value

  const NODE := Desc(32, 8, 1)

  /** Node and value as one description; the value's offset is not returned. */
  function MakeDesc(obj: Desc): Result<Desc> {
    if !ValidDesc(obj) then BadConf else Ok(Append(NODE, obj).0)
  }

  /** A description is refused exactly if the value's is; otherwise it is for one node with the value behind it. */
  lemma MakeDescMeans(obj: Desc)
    ensures MakeDesc(obj).Ok? <==> ValidDesc(obj)
    ensures ValidDesc(obj) ==>
              var d := MakeDesc(obj).value; d.count == 1 && d.align == if obj.align > 8 then obj.align else 8
    ensures ValidDesc(obj) && Roomy(NODE, obj) ==>
              var d := MakeDesc(obj).value;
              exists offset: nat :: LeastFrom(offset, obj.align, 32) && d.size == offset + obj.size * obj.count
  {
    if ValidDesc(obj) && Roomy(NODE, obj) {
      AppendLeast(NODE, obj);
      assert LeastFrom(Append(NODE, obj).1, obj.align, 32);
    }
  }

  /** The offset and size of the value, recomputed from the combined description. */
  function ValueOffset(desc: Desc): nat
    requires 0 < desc.align < WORD
  {
    AlignSize(NODE.size, desc.align)
  }

  function ValueSize(desc: Desc): nat
    requires 0 < desc.align < WORD
  {
    (desc.size - ValueOffset(desc)) % WORD
  }

  lemma ValidAlignHalf(a: nat)
    requires ValidAlign(a) && a < WORD
    ensures a <= WORD / 2
  {
    Log2Below(a);
    WordIsPow2();
    if Log2(a) < 63 { Pow2Strict(Log2(a), 63); }
  }

  /**
   * Rounding to the larger of two alignments is rounding to the second, if the size is a multiple
   * of the first.
   */
  lemma RoundToLarger(size: nat, a: nat, b: nat)
    requires ValidAlign(a) && ValidAlign(b) && a < WORD && b < WORD
    requires size + a - 1 < WORD && size + b - 1 < WORD && size % a == 0
    ensures AlignSize(size, if b > a then b else a) == AlignSize(size, b)
  {
    if b <= a {
      AlignSizeIsLeast(size, a);
      AlignSizeIsLeast(size, b);
      LargerIsMultiple(b, a);
      MultipleTrans(size, a, b);
    }
  }

  lemma WordDifference(x: nat, y: nat)
    requires x < WORD
    ensures ((x + y) % WORD - x) % WORD == y % WORD
  {
    var q, q' := (x + y) / WORD, y / WORD;
    DivModUnique((x + y) % WORD - x, WORD, q' - q, y % WORD);
  }

  /** The recomputed offset is the one that was discarded, and the value size what was asked for. */
  lemma ValueRecovered(obj: Desc)
    requires ValidDesc(obj)
    ensures var desc := MakeDesc(obj).value;
            && 0 < desc.align < WORD
            && ValueOffset(desc) == Append(NODE, obj).1
            && ValueSize(desc) == Extent(obj) % WORD
  {
    EightValid();
    ValidAlignHalf(obj.align);
    RoundToLarger(32, 8, obj.align);
    AlignSizeIsLeast(32, obj.align);
    var offset := AlignSize(32, obj.align);
    ModSum(offset, Extent(obj));
    WordDifference(offset, Extent(obj));
  }

  lemma ModSum(x: nat, y: nat)
    ensures (x + y % WORD) % WORD == (x + y) % WORD
  {
    var q, r := (x + y % WORD) / WORD, (x + y % WORD) % WORD;
    DivModUnique(x + y, WORD, q + y / WORD, r);
  }

  // ---------------------------------------------------------------- slot stride

  function SlotAddr(base: nat, size: nat, i: nat): nat {
    base + i * size
  }

  ghost predicate SlotsAligned(base: nat, d: Desc)
    requires d.align > 0
  {
    forall i: nat :: i < d.count ==> SlotAddr(base, d.size, i) % d.align == 0
  }

  lemma StrideMod(size: nat, a: nat, i: nat)
    requires a > 0 && size % a == 0
    ensures (i * size) % a == 0
  {
    if i > 0 {
      StrideMod(size, a, i - 1);
      assert i * size == (i - 1) * size + size;
      SumDivides(a, (i - 1) * size, size);
    }
  }

  /** Slots one size apart are all aligned exactly if the size is a multiple of the alignment. */
  lemma SlotsAlignedIff(base: nat, d: Desc)
    requires d.align > 0 && d.count >= 2 && base % d.align == 0
    ensures SlotsAligned(base, d) <==> d.size % d.align == 0
  {
    if d.size % d.align == 0 {
      forall i: nat | i < d.count ensures SlotAddr(base, d.size, i) % d.align == 0 {
        StrideMod(d.size, d.align, i);
        SumDivides(d.align, base, i * d.size);
      }
    }
    if SlotsAligned(base, d) {
      assert SlotAddr(base, d.size, 1) % d.align == 0;
      SumDivides(d.align, base, d.size);
    }
  }

  /**
   * The slots that a tree's description asks for are aligned exactly if the value's extent is a
   * multiple of the larger of the node's alignment and its own.
   */
  lemma MakeDescStride(base: nat, obj: Desc, count: nat)
    requires ValidDesc(obj) && Roomy(NODE, obj) && count >= 2
    requires MakeDesc(obj).value.align > 0 && base % MakeDesc(obj).value.align == 0
    ensures SlotsAligned(base, MakeDesc(obj).value.(count := count)) <==>
            Extent(obj) % (if obj.align > 8 then obj.align else 8) == 0
  {
    EightValid();
    AppendSize(NODE, obj);
    AppendAlign(NODE, obj);
    ValidAlignHalf(obj.align);
    RoundToLarger(32, 8, obj.align);
    var d := MakeDesc(obj).value;
    AlignSizeIsLeast(32, d.align);
    SlotsAlignedIff(base, d.(count := count));
    SumDivides(d.align, AlignSize(32, obj.align), Extent(obj));
  }

  /** A one-byte value makes the second of two slots misaligned. */
  lemma MisalignedSlot(base: nat)
    requires base % 8 == 0
    ensures MakeDesc(Desc(1, 1, 1)) == Ok(Desc(33, 8, 1))
    ensures SlotAddr(base, 33, 1) % 8 == 1
  {
    OneValid();
    AlignSizeIsLeast(32, 1);
    WordRemainder(1);
    WordRemainder(33);
    DivModUnique(base + 33, 8, base / 8 + 4, 1);
  }

  lemma OneValid()
    ensures ValidAlign(1)
  {
    assert Pow2(0) == 1;
    ValidAlignIff(1);
  }
}
