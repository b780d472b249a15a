// Handing memory over from memblock to the buddy allocator.
module Boot {
  import opened Bits
  import opened Tiling
  import opened Buddy
  import opened ListHead
  import opened Memblock
  import opened Slab
  import opened Kmem

  const PAGE_SHIFT: nat := 12

  /** The frames the tagging loop visits for one region: both ends included. */
  ghost predicate Visits(r: Region, pfn: nat) {
    Shr(r.base, PAGE_SHIFT) <= pfn <= Shr(r.End(), PAGE_SHIFT)
  }

  ghost predicate TaggedBy(regions: seq<Region>, pfn: nat) {
    exists i :: 0 <= i < |regions| && Visits(regions[i], pfn)
  }

  /** Frame pfn holds byte x. */
  ghost predicate HoldsByte(pfn: nat, x: nat) {
    Shr(x, PAGE_SHIFT) == pfn
  }

  /** Every frame that holds a reserved byte is tagged. */
  lemma ReservedIsTagged(regions: seq<Region>, x: nat)
    requires Covers(regions, x)
    ensures TaggedBy(regions, Shr(x, PAGE_SHIFT))
  {
    var i :| 0 <= i < |regions| && regions[i].Has(x);
    DivMono(regions[i].base, x, Pow2(PAGE_SHIFT));
    DivMono(x, regions[i].End(), Pow2(PAGE_SHIFT));
    assert Visits(regions[i], Shr(x, PAGE_SHIFT));
  }

  /** A tagged frame that holds no reserved byte lies at the page-aligned end of a region. */
  lemma TaggedIsReserved(regions: seq<Region>, pfn: nat)
    requires Shape(regions) && TaggedBy(regions, pfn)
    ensures (exists x: nat :: HoldsByte(pfn, x) && Covers(regions, x))
            || (exists i :: 0 <= i < |regions| && regions[i].End() == Shl(pfn, PAGE_SHIFT))
  {
    hide Shl, HoldsByte, Visits;
    var i :| 0 <= i < |regions| && Visits(regions[i], pfn);
    if x: nat :| HoldsByte(pfn, x) && regions[i].Has(x) {
      assert Covers(regions, x);
    } else {
      VisitedByte(regions[i], pfn);
    }
  }

  /** Exactly these frames are tagged. */
  lemma TaggedExactly(regions: seq<Region>, pfn: nat)
    requires Shape(regions)
    ensures TaggedBy(regions, pfn) <==>
            (exists x: nat :: HoldsByte(pfn, x) && Covers(regions, x))
            || (exists i :: 0 <= i < |regions| && regions[i].End() == Shl(pfn, PAGE_SHIFT))
  {
    if TaggedBy(regions, pfn) { TaggedIsReserved(regions, pfn); }
    if x: nat :| HoldsByte(pfn, x) && Covers(regions, x) { ReservedIsTagged(regions, x); }
    if i :| 0 <= i < |regions| && regions[i].End() == Shl(pfn, PAGE_SHIFT) {
      EndVisited(regions[i], pfn);
    }
  }

  lemma EndVisited(r: Region, pfn: nat)
    requires r.End() == Shl(pfn, PAGE_SHIFT)
    ensures Visits(r, pfn)
  {
    var d := Pow2(PAGE_SHIFT);
    hide Pow2;
    DivUnique(pfn * d, d, pfn, 0);
    DivMono(r.base, r.End(), d);
  }

  lemma VisitedByte(r: Region, pfn: nat)
    requires Visits(r, pfn) && (r.size > 0 || r.base == 0)
    ensures r.End() == Shl(pfn, PAGE_SHIFT) || exists x: nat :: HoldsByte(pfn, x) && r.Has(x)
  {
    hide Shl, Shr, Pow2;
    PageOf(pfn, r.base, r.End());
    var p := Shl(pfn, PAGE_SHIFT);
    var x := if r.base >= p then r.base else p;
    if x < r.End() {
      assert HoldsByte(pfn, x) && r.Has(x);
    }
  }

  lemma DivMono(x: nat, y: nat, d: nat)
    requires x <= y && d > 0
    ensures x / d <= y / d
  {
    assert x == x / d * d + x % d && y == y / d * d + y % d;
    assert (y / d + 1) * d == y / d * d + d;
    MulGap(x / d, y / d + 1, d);
  }

  /** The frames of the bytes between two page boundaries. */
  lemma PageInside(h: nat, n: nat, x: nat)
    requires Shl(h, PAGE_SHIFT) <= x < Shl(n, PAGE_SHIFT)
    ensures h <= Shr(x, PAGE_SHIFT) < n
  {
    var d := Pow2(PAGE_SHIFT);
    DivUnique(h * d, d, h, 0);
    DivMono(h * d, x, d);
    QuotientBelow(x, d, n);
  }

  lemma PageOf(pfn: nat, base: nat, end: nat)
    requires Shr(base, PAGE_SHIFT) <= pfn <= Shr(end, PAGE_SHIFT) && base <= end
    ensures var p := Shl(pfn, PAGE_SHIFT);
            && Shr(p, PAGE_SHIFT) == pfn && p <= end
            && (base >= p ==> Shr(base, PAGE_SHIFT) == pfn)
  {
    var d := Pow2(PAGE_SHIFT);
    DivUnique(pfn * d, d, pfn, 0);
    MulMono(pfn, end / d, d);
    if base >= pfn * d { DivMono(pfn * d, base, d); }
  }

  /** A frame the kernel has not handed over: a block of its own, on no list. */
  ghost predicate Pending(z: Zone, i: nat)
    reads z
  {
    i < |z.tiles| && z.tiles[i] == Tile(i, 0, Reserved)
  }

  /** page_frame_init, from the state in which memory for struct page was just obtained. */
  method PageFrameInit(z: Zone, regions: seq<Region>)
    requires z.Ready() && z.tiles == Unclaimed(|z.tiles|)
    requires PG_RESERVED !in z.flags[..]
    // the tagging loop stays inside mem_map
    requires forall i :: 0 <= i < |regions| ==> Shr(regions[i].End(), PAGE_SHIFT) < |z.tiles|
    modifies z, z.arena, z.arena.next, z.arena.prev, z.nr_free, z.flags, z.priv
    ensures z.Ready() && |z.tiles| == |old(z.tiles)|
    ensures forall i: nat :: i < |z.tiles| ==>
              if TaggedBy(regions, i) then z.tiles[i] == Tile(i, 0, Reserved) else z.tiles[i].kind == Free
    ensures Ascending(z.arena.lists)
    ensures z.arena.lists[MAX_ORDER..] == old(z.arena.lists[MAX_ORDER..])
  {
    TagReserved(z, regions);
    FreeTheRest(z, regions);
  }

  method TagReserved(z: Zone, regions: seq<Region>)
    requires z.Ready() && z.tiles == Unclaimed(|z.tiles|)
    requires PG_RESERVED !in z.flags[..]
    requires forall i :: 0 <= i < |regions| ==> Shr(regions[i].End(), PAGE_SHIFT) < |z.tiles|
    modifies z, z.arena, z.arena.next, z.arena.prev, z.flags
    ensures z.Ready() && z.tiles == old(z.tiles) && z.arena.lists == old(z.arena.lists)
    ensures forall p: nat :: p < |z.tiles| ==> (z.flags[p] == PG_RESERVED <==> TaggedBy(regions, p))
  {
    var r := 0;
    while r < |regions|
      invariant r <= |regions|
      invariant z.Ready() && z.tiles == old(z.tiles) && z.arena.lists == old(z.arena.lists)
      invariant forall p: nat :: p < |z.tiles| ==> (z.flags[p] == PG_RESERVED <==> TaggedBy(regions[..r], p))
    {
      var rgn := regions[r];
      DivMono(rgn.base, rgn.End(), Pow2(PAGE_SHIFT));
      var pfn: nat := Shr(rgn.base, PAGE_SHIFT);
      while pfn <= Shr(rgn.base + rgn.size, PAGE_SHIFT)
        invariant Shr(rgn.base, PAGE_SHIFT) <= pfn <= Shr(rgn.End(), PAGE_SHIFT) + 1
        invariant z.Ready() && z.tiles == old(z.tiles) && z.arena.lists == old(z.arena.lists)
        invariant forall p: nat :: p < |z.tiles| ==>
                    (z.flags[p] == PG_RESERVED <==> TaggedBy(regions[..r], p) || Shr(rgn.base, PAGE_SHIFT) <= p < pfn)
      {
        TagOne(z, pfn);
        pfn := pfn + 1;
      }
      forall p: nat | p < |z.tiles| ensures TaggedBy(regions[..r + 1], p) <==> TaggedBy(regions[..r], p) || Visits(rgn, p) {
        TaggedStep(regions, r, p);
      }
      r := r + 1;
    }
    assert regions[..r] == regions;
  }

  lemma TaggedStep(regions: seq<Region>, r: nat, p: nat)
    requires r < |regions|
    ensures TaggedBy(regions[..r + 1], p) <==> TaggedBy(regions[..r], p) || Visits(regions[r], p)
  {
    var a, b := regions[..r], regions[..r + 1];
    if TaggedBy(a, p) {
      var i :| 0 <= i < |a| && Visits(a[i], p);
      assert b[i] == a[i];
    }
    if TaggedBy(b, p) {
      var i :| 0 <= i < |b| && Visits(b[i], p);
      if i < r { assert a[i] == b[i]; }
    }
    assert b[r] == regions[r];
  }

  /** The body of both loops before the free: a frame the buddy system does not own changes its tag. */
  method SetPendingTag(z: Zone, pfn: nat, tag: nat)
    requires z.Ready() && Pending(z, pfn) && tag != PG_buddy
    modifies z.flags, z.arena.next, z.arena.prev
    ensures z.Ready() && z.flags[..] == old(z.flags[..])[pfn := tag]
  {
    z.OffLists(pfn);
    PendingTag(z.tiles, z.flags[..], z.priv[..], z.arena.lists, pfn, tag);
    z.flags[pfn] := tag;
    z.arena.InitNode(pfn);
    assert z.flags[..] == old(z.flags[..])[pfn := tag];
  }

  lemma PendingTag(t: seq<Tile>, flags: seq<nat>, priv: seq<nat>, lists: seq<seq<nat>>, h: nat, f: nat)
    requires Tagged(t, flags, priv) && Listed(t, flags, lists)
    requires h < |t| && t[h] == Tile(h, 0, Reserved) && f != PG_buddy
    ensures Tagged(t, flags[h := f], priv) && Listed(t, flags[h := f], lists)
  {
    var flags' := flags[h := f];
    forall i: nat | i < |t| ensures HeadTag(t, flags', priv, i) {
      assert HeadTag(t, flags, priv, i);
    }
    forall c: nat, x: nat | MAX_ORDER <= c < |lists| && x in lists[c] ensures SlabPage(t, flags', x) {
      assert SlabPage(t, flags, x);
    }
  }

  method TagOne(z: Zone, pfn: nat)
    requires z.Ready() && z.tiles == Unclaimed(|z.tiles|) && pfn < |z.tiles|
    modifies z.flags, z.arena.next, z.arena.prev
    ensures z.Ready() && z.flags[..] == old(z.flags[..])[pfn := PG_RESERVED]
  {
    SetPendingTag(z, pfn, PG_RESERVED);
  }

  /** The second loop: every frame that is not tagged is freed, one page at a time. */
  method FreeTheRest(z: Zone, regions: seq<Region>)
    requires z.Ready() && z.tiles == Unclaimed(|z.tiles|)
    requires forall p: nat :: p < |z.tiles| ==> (z.flags[p] == PG_RESERVED <==> TaggedBy(regions, p))
    modifies z, z.arena, z.arena.next, z.arena.prev, z.nr_free, z.flags, z.priv
    ensures z.Ready() && |z.tiles| == |old(z.tiles)|
    ensures forall i: nat :: i < |z.tiles| ==>
              if TaggedBy(regions, i) then z.tiles[i] == Tile(i, 0, Reserved) else z.tiles[i].kind == Free
    ensures Ascending(z.arena.lists)
    ensures z.arena.lists[MAX_ORDER..] == old(z.arena.lists[MAX_ORDER..])
  {
    ghost var n := |z.tiles|;
    NothingListed(z.tiles, z.flags[..], z.arena.lists);
    var i: nat := 0;
    while i < z.flags.Length
      invariant z.Ready() && |z.tiles| == n && i <= n
      invariant HandedOver(z.tiles, z.flags[..], regions, i) && Ascending(z.arena.lists)
      invariant z.arena.lists[MAX_ORDER..] == old(z.arena.lists[MAX_ORDER..])
    {
      if z.flags[i] != PG_RESERVED {
        ghost var t0, f0 := z.tiles, z.flags[..];
        SetPendingTag(z, i, PG_AVAIL);
        ghost var f1, p1 := z.flags[..], z.priv[..];
        assert Pow2(0) == 1;
        z.Release(i, 0);
        ghost var t1, l1 := z.tiles, z.arena.lists;
        z.MergeAndList(i, 0);
        HandOverStep(t0, t1, z.tiles, f0, f1, p1, z.flags[..], z.priv[..], regions, i);
        AscendingStep(l1, z.arena.lists, z.tiles, z.flags[..], i);
      }
      i := i + 1;
    }
  }

  /** Frames below i are free unless tagged; frames from i on are as they were. */
  ghost predicate HandedOver(t: seq<Tile>, flags: seq<nat>, regions: seq<Region>, i: nat) {
    && |t| == |flags|
    && (forall p: nat :: p < |t| && p < i && !TaggedBy(regions, p) ==> t[p].kind == Free)
    && (forall p: nat :: p < |t| && (p >= i || TaggedBy(regions, p)) ==>
          t[p] == Tile(p, 0, Reserved) && (flags[p] == PG_RESERVED <==> TaggedBy(regions, p)))
  }

  lemma HandOverStep(t0: seq<Tile>, t1: seq<Tile>, t2: seq<Tile>, f0: seq<nat>, f1: seq<nat>, p1: seq<nat>,
                     f2: seq<nat>, p2: seq<nat>, regions: seq<Region>, i: nat)
    requires HandedOver(t0, f0, regions, i) && i < |t0| && !TaggedBy(regions, i)
    requires f1 == f0[i := PG_AVAIL] && i + Pow2(0) <= |t0| && t1 == Paint(t0, i, 0, Loose)
    requires SameTaken(t1, t2, i, 0) && FreeRun(t2, i, 0) && TagsKept(t2, f1, p1, f2, p2)
    ensures HandedOver(t2, f2, regions, i + 1)
  {
    assert Pow2(0) == 1;
  }

  // ---- the order in which memory is handed out -----------------------------

  /** Every free list goes up through memory. */
  ghost predicate Ascending(lists: seq<seq<nat>>) {
    forall o: nat :: o < MAX_ORDER && o < |lists| ==> Rising(lists[o])
  }

  ghost predicate Rising(s: seq<nat>) {
    forall a: nat, b: nat :: a < b < |s| ==> s[a] < s[b]
  }

  lemma NothingListed(t: seq<Tile>, flags: seq<nat>, lists: seq<seq<nat>>)
    requires Listed(t, flags, lists) && t == Unclaimed(|t|)
    ensures Ascending(lists)
  {
    forall o: nat, h: nat | o < MAX_ORDER ensures h !in lists[o] {
      assert h in lists[o] <==> IsBlock(t, h, o, Free);
    }
    forall o: nat | o < MAX_ORDER && o < |lists| ensures Rising(lists[o]) {
      assert forall a: nat :: a < |lists[o]| ==> lists[o][a] in lists[o];
    }
  }

  /** Frame i is freed while no frame above it is free: the block it ends up in lies above all blocks of its list. */
  lemma AscendingStep(l0: seq<seq<nat>>, l1: seq<seq<nat>>, t: seq<Tile>, flags: seq<nat>, i: nat)
    requires Inv(t) && Listed(t, flags, l1) && Disjoint(l1) && Ascending(l0)
    requires i < |t| && t[i].kind == Free && FreedLists(l0, l1, 0, t[i].order, t[i].head)
    requires forall j: nat :: i < j < |t| ==> t[j].kind != Free
    ensures Ascending(l1)
  {
    forall d: nat | d < MAX_ORDER ensures Rising(l1[d]) {
      assert Rising(l0[d]);
      if d == t[i].order {
        LastIsHighest(l0[d], l1, t, flags, d, i);
      } else if d < t[i].order {
        assert LostOne(l0[d], l1[d]);
        StillSorted(l0[d], l1[d]);
      }
    }
  }

  lemma StillSorted(s: seq<nat>, s': seq<nat>)
    requires Rising(s) && LostOne(s, s')
    ensures Rising(s')
  {
  }

  lemma LastIsHighest(s: seq<nat>, lists: seq<seq<nat>>, t: seq<Tile>, flags: seq<nat>, o: nat, i: nat)
    requires Inv(t) && Listed(t, flags, lists) && Disjoint(lists) && Rising(s) && o < MAX_ORDER
    requires i < |t| && t[i].kind == Free && t[i].order == o && lists[o] == s + [t[i].head]
    requires forall j: nat :: i < j < |t| ==> t[j].kind != Free
    ensures Rising(lists[o])
  {
    assert TileAt(t, i);
    NoRepeats(lists, o);
    forall a: nat | a < |s| ensures s[a] < t[i].head {
      var x := s[a];
      assert lists[o][a] == x && lists[o][|s|] == t[i].head;
      assert x in lists[o] <==> IsBlock(t, x, o, Free);
    }
  }

  /** So the first page handed out is the lowest free block of its size. */
  lemma LowestFirst(t: seq<Tile>, u: seq<Tile>, flags: seq<nat>, l: seq<seq<nat>>, l': seq<seq<nat>>, order: nat, page: nat)
    requires Listed(t, flags, l) && Ascending(l) && Took(t, u, l, l', order, page)
    ensures exists c: nat :: c >= order && IsBlock(t, page, c, Free)
                             && (forall h: nat :: IsBlock(t, h, c, Free) ==> page <= h)
                             && (forall h: nat, d: nat :: order <= d < c ==> !IsBlock(t, h, d, Free))
  {
    hide AllocStep, IsBlock;
    var c: nat :| FirstFit(l, order, c) && TakenLists(l, l', order, c, page);
    assert Rising(l[c]) && page in l[c];
    forall h: nat | IsBlock(t, h, c, Free) ensures page <= h {
      assert h in l[c] <==> IsBlock(t, h, c, Free);
    }
    forall h: nat, d: nat | order <= d < c ensures !IsBlock(t, h, d, Free) {
      assert h in l[d] <==> IsBlock(t, h, d, Free);
    }
  }

  // ---- what boot hands over ------------------------------------------------

  /** Over any run of the buddy allocator after boot, no allocated block holds a byte that memblock had reserved. */
  lemma BootHandOff(regions: seq<Region>, run: seq<seq<Tile>>, n: nat, h: nat, k: nat, x: nat)
    requires Run(run) && n + 1 < |run| && AllocStep(run[n], run[n + 1], h, k)
    requires forall i: nat :: i < |run[0]| ==>
               if TaggedBy(regions, i) then run[0][i] == Tile(i, 0, Reserved) else run[0][i].kind == Free
    requires Covers(regions, x) && Shr(x, PAGE_SHIFT) < |run[0]|
    ensures !(Shl(h, PAGE_SHIFT) <= x < Shl(h + Pow2(k), PAGE_SHIFT))
  {
    hide Shl, Shr, TaggedBy, Covers, Run, AllocStep;
    var pfn := Shr(x, PAGE_SHIFT);
    ReservedIsTagged(regions, x);
    NeverAllocated(run, n, h, k, pfn);
    if Shl(h, PAGE_SHIFT) <= x < Shl(h + Pow2(k), PAGE_SHIFT) {
      PageInside(h, h + Pow2(k), x);
    }
  }

  /** The same for kmalloc: whatever calls were made since boot, no span in use holds a byte that memblock had reserved. */
  lemma KmallocHandOff(heap: Heap, regions: seq<Region>, run: seq<seq<Tile>>, sp: Span, x: nat)
    requires heap.Valid() && sp in heap.live && Run(run) && run[|run| - 1] == heap.zone.tiles
    requires forall i: nat :: i < |run[0]| ==>
               if TaggedBy(regions, i) then run[0][i] == Tile(i, 0, Reserved) else run[0][i].kind == Free
    requires Covers(regions, x) && Shr(x, PAGE_SHIFT) < |run[0]|
    ensures !(8 * sp.word <= x < 8 * (sp.word + sp.count))
  {
    var pfn := Shr(x, PAGE_SHIFT);
    ReservedIsTagged(regions, x);
    ReservedForEver(run, |run| - 1, pfn);
    if 8 * sp.word <= x < 8 * (sp.word + sp.count) {
      assert Pow2(PAGE_SHIFT) == 8 * PAGE_WORDS by { Pow2Values(); }
      FrameOfByte(x);
      heap.LiveFrame(sp, x / 8);
    }
  }

  lemma FrameOfByte(x: nat)
    ensures Shr(x, PAGE_SHIFT) == x / 8 / PAGE_WORDS
  {
    Pow2Values();
    var f, w := x / 8 / PAGE_WORDS, x / 8;
    assert w == f * PAGE_WORDS + w % PAGE_WORDS && x == 8 * w + x % 8;
    DivUnique(x, 4096, f, 8 * (w % PAGE_WORDS) + x % 8);
  }
}
