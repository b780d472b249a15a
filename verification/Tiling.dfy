// The state of the buddy system seen from outside: every page frame belongs to
// exactly one naturally aligned block, its tile.
module Tiling {
  import opened Bits

  const MAX_ORDER: nat := 10

  // Loose is a block that is in nobody's hands: it has left one free list and
  // has not yet reached its next owner.
  datatype Kind = Free | Live | Reserved | Loose

  datatype Tile = Tile(head: nat, order: nat, kind: Kind)

  ghost predicate InTile(b: Tile, i: nat) {
    b.head <= i < b.head + Pow2(b.order)
  }

  ghost predicate TileAt(t: seq<Tile>, i: nat)
    requires i < |t|
  {
    var b := t[i];
    && b.order < MAX_ORDER
    && Aligned(b.head, b.order)
    && InTile(b, i)
    && b.head + Pow2(b.order) <= |t|
    && forall j :: b.head <= j < b.head + Pow2(b.order) ==> t[j] == b
  }

  /** The frames are tiled by naturally aligned blocks. */
  ghost predicate Tiled(t: seq<Tile>) {
    && Aligned(|t|, MAX_ORDER - 1)
    && forall i: nat :: i < |t| ==> TileAt(t, i)
  }

  ghost predicate IsBlock(t: seq<Tile>, h: nat, o: nat, k: Kind) {
    h < |t| && t[h] == Tile(h, o, k)
  }

  /** The neighbour a block of order o merges with. */
  function Buddy(h: nat, o: nat): (b: nat) {
    if Shr(h, o) % 2 == 0 then h + Pow2(o) else (QuotientBound(h, Pow2(o)); h - Pow2(o))
  }

  lemma QuotientBound(x: nat, d: nat)
    requires d > 0 && x / d >= 1
    ensures x >= d
  {
    if x < d { SmallMod(x, d); }
  }

  /** No two free blocks of one order below the largest are buddies. */
  ghost predicate Coalesced(t: seq<Tile>)
    requires Tiled(t)
  {
    forall h: nat, o: nat :: IsBlock(t, h, o, Free) && o < MAX_ORDER - 1 ==> !IsBlock(t, Buddy(h, o), o, Free)
  }

  ghost predicate Inv(t: seq<Tile>) {
    Tiled(t) && Coalesced(t)
  }

  ghost predicate FreeRun(t: seq<Tile>, h: nat, k: nat) {
    && Aligned(h, k)
    && h + Pow2(k) <= |t|
    && forall i :: h <= i < h + Pow2(k) ==> t[i].kind == Free
  }

  ghost function FreeFrames(t: seq<Tile>): set<nat> {
    set i: nat | i < |t| && t[i].kind == Free
  }

  // ---- arithmetic of aligned blocks ----------------------------------------

  /** Of two aligned blocks, a larger one that meets a smaller one contains it. */
  lemma Nested(p: nat, o: nat, q: nat, r: nat, x: nat)
    requires o <= r && Aligned(p, o) && Aligned(q, r)
    requires p <= x < p + Pow2(o) && q <= x < q + Pow2(r)
    ensures q <= p && p + Pow2(o) <= q + Pow2(r)
  {
    AlignedDown(q, o, r);
    var a := Multiple(p, o);
    var b := Multiple(q, o);
    Pow2Add(r - o, o);
    hide Aligned, Pow2;
    NestedMultiples(a, b, Pow2(r - o), Pow2(o), x);
  }

  lemma NestedMultiples(a: nat, b: nat, c: nat, s: nat, x: nat)
    requires a * s <= x < a * s + s
    requires b * s <= x < b * s + c * s
    ensures b * s <= a * s && a * s + s <= b * s + c * s
  {
    assert (b + c) * s == b * s + c * s && (a + 1) * s == a * s + s;
    MulGap(a, b + c, s);
    MulGap(b, a + 1, s);
    MulMono(b, a, s);
  }

  /** Where the buddy is, and the block the two of them make. */
  lemma BuddyFacts(h: nat, o: nat)
    requires Aligned(h, o)
    ensures Aligned(Buddy(h, o), o)
    ensures Buddy(Buddy(h, o), o) == h
    ensures Buddy(h, o) == h + Pow2(o) || Buddy(h, o) == h - Pow2(o)
    ensures var low := if Buddy(h, o) < h then Buddy(h, o) else h;
            Aligned(low, o + 1) && Buddy(low, o) == low + Pow2(o)
  {
    if Shr(h, o) % 2 == 0 {
      EvenPair(h, o);
    } else {
      QuotientBound(h, Pow2(o));
      OddHead(h, o);
      hide Aligned, Buddy, Shr;
      EvenPair(h - Pow2(o), o);
    }
  }

  lemma EvenPair(h: nat, o: nat)
    requires Aligned(h, o) && Shr(h, o) % 2 == 0
    ensures Aligned(h, o + 1) && Aligned(h + Pow2(o), o)
    ensures Buddy(h, o) == h + Pow2(o) && Buddy(h + Pow2(o), o) == h
  {
    AlignedMultiple(h, o);
    Multiples(h / Pow2(o), Pow2(o));
  }

  lemma OddHead(h: nat, o: nat)
    requires Aligned(h, o) && Shr(h, o) % 2 == 1 && h >= Pow2(o)
    ensures Aligned(h - Pow2(o), o) && Shr(h - Pow2(o), o) % 2 == 0
  {
    AlignedMultiple(h, o);
    Multiples(h / Pow2(o) - 1, Pow2(o));
  }

  /** The even multiple q of s, and the odd one after it. */
  lemma Multiples(q: nat, s: nat)
    requires s > 0 && q % 2 == 0
    ensures q * s / s == q && q * s % s == 0
    ensures (q + 1) * s == q * s + s
    ensures (q * s + s) / s == q + 1 && (q * s + s) % s == 0
    ensures q * s % (2 * s) == 0
  {
    DivUnique(q * s, s, q, 0);
    assert (q + 1) * s == q * s + s;
    DivUnique(q * s + s, s, q + 1, 0);
    TwiceProduct(q / 2, s);
    assert q * s == (q / 2) * (2 * s);
    DivUnique(q * s, 2 * s, q / 2, 0);
  }

  /** The two halves of an aligned block. */
  lemma Halves(h: nat, o: nat)
    requires Aligned(h, o + 1)
    ensures Aligned(h, o) && Aligned(h + Pow2(o), o)
    ensures Buddy(h, o) == h + Pow2(o) && Buddy(h + Pow2(o), o) == h
  {
    AlignedDown(h, o, o + 1);
    var s := Pow2(o);
    var m := h / (2 * s);
    assert h == m * (2 * s) by { AlignedMultiple(h, o + 1); }
    assert h == (2 * m) * s;
    DivUnique(h, s, 2 * m, 0);
    BuddyFacts(h, o);
  }

  /** The kernel's `pfn ^ (1 << order)` is the buddy, and `&` gives the lower of the two. */
  lemma BuddyBits(h: nat, o: nat)
    requires Aligned(h, o)
    ensures Xor(h, Shl(1, o)) == Buddy(h, o)
    ensures And(Buddy(h, o), h) == if Buddy(h, o) < h then Buddy(h, o) else h
  {
    XorBit(h, o);
    BuddyFacts(h, o);
    var low := if Buddy(h, o) < h then Buddy(h, o) else h;
    AlignedDown(low, o, o + 1);
    AndNeighbour(low, o);
  }

  // ---- tiles ---------------------------------------------------------------

  lemma SameTile(t: seq<Tile>, i: nat, j: nat)
    requires Tiled(t) && i < |t| && InTile(t[i], j)
    ensures j < |t| && t[j] == t[i]
  {
    assert TileAt(t, i);
  }

  /** An aligned block that meets a memory of whole largest blocks lies inside it. */
  lemma Inside(p: nat, o: nat, n: nat, x: nat)
    requires o <= MAX_ORDER - 1 && Aligned(p, o) && Aligned(n, MAX_ORDER - 1)
    requires p <= x < p + Pow2(o) && x < n
    ensures p + Pow2(o) <= n
  {
    AlignedDown(n, o, MAX_ORDER - 1);
    var a := Multiple(p, o);
    var b := Multiple(n, o);
    hide Aligned, Pow2;
    assert (a + 1) * Pow2(o) == a * Pow2(o) + Pow2(o);
    MulGap(a, b, Pow2(o));
  }

  /** The buddy of any block is inside memory and is itself the head of a tile no larger. */
  lemma BuddyIsHead(t: seq<Tile>, h: nat)
    requires Tiled(t) && h < |t| && t[h].head == h && t[h].order < MAX_ORDER - 1
    ensures Aligned(h, t[h].order)
    ensures var b := Buddy(h, t[h].order); b < |t| && t[b].head == b && t[b].order <= t[h].order
  {
    var o := t[h].order;
    assert TileAt(t, h);
    BuddyFacts(h, o);
    var b := Buddy(h, o);
    var low := if b < h then b else h;
    Inside(low, o + 1, |t|, h);
    assert b < |t|;
    assert TileAt(t, b);
    var c := t[b];
    if c.order > o {
      LargeTileHolds(t, low, o + 1, b, h);
    } else {
      Nested(c.head, c.order, b, o, b);
    }
  }

  /** A tile that meets a smaller aligned block holds every frame of it. */
  lemma LargeTileHolds(t: seq<Tile>, p: nat, o: nat, x: nat, y: nat)
    requires Tiled(t) && x < |t| && y < |t| && Aligned(p, o) && t[x].order >= o
    requires p <= x < p + Pow2(o) && p <= y < p + Pow2(o)
    ensures t[y] == t[x]
  {
    assert TileAt(t, x);
    Nested(p, o, t[x].head, t[x].order, x);
  }

  // ---- the four moves of the allocator -------------------------------------

  /** Frames [h, h + 2^o) become one tile. */
  ghost function Paint(t: seq<Tile>, h: nat, o: nat, k: Kind): (r: seq<Tile>)
    requires h + Pow2(o) <= |t|
    ensures |r| == |t|
  {
    seq(|t|, i requires 0 <= i < |t| => if h <= i < h + Pow2(o) then Tile(h, o, k) else t[i])
  }

  /** Painting an aligned run of whole tiles leaves a tiling. */
  lemma PaintTiled(t: seq<Tile>, h: nat, o: nat, k: Kind)
    requires Tiled(t) && o < MAX_ORDER && Aligned(h, o) && h + Pow2(o) <= |t|
    requires forall i :: h <= i < h + Pow2(o) ==>
               h <= t[i].head && t[i].head + Pow2(t[i].order) <= h + Pow2(o)
    ensures Tiled(Paint(t, h, o, k))
  {
    var r := Paint(t, h, o, k);
    forall i: nat | i < |r| ensures TileAt(r, i) {
      assert TileAt(t, i);
      if !(h <= i < h + Pow2(o)) {
        var b := t[i];
        forall j | b.head <= j < b.head + Pow2(b.order) ensures r[j] == b {
          assert t[j] == b;
        }
      }
    }
  }

  /** Changing the kind of a block to something not free keeps the invariant. */
  lemma TakeInv(t: seq<Tile>, h: nat, k: Kind)
    requires Inv(t) && h < |t| && t[h].head == h && k != Free
    ensures t[h].order < MAX_ORDER && h + Pow2(t[h].order) <= |t|
    ensures Inv(Paint(t, h, t[h].order, k))
  {
    assert TileAt(t, h);
    PaintTiled(t, h, t[h].order, k);
    NoNewFree(t, Paint(t, h, t[h].order, k));
  }

  /** Making a block free keeps the invariant when its buddy is not a free block of its order. */
  lemma GiveInv(t: seq<Tile>, h: nat, o: nat)
    requires Inv(t) && h < |t| && t[h].head == h && t[h].order == o
    requires Aligned(h, o) && (o < MAX_ORDER - 1 ==> !IsBlock(t, Buddy(h, o), o, Free))
    ensures o < MAX_ORDER && h + Pow2(o) <= |t|
    ensures Inv(Paint(t, h, o, Free))
  {
    assert TileAt(t, h);
    PaintTiled(t, h, o, Free);
    var r := Paint(t, h, o, Free);
    forall p: nat, u: nat | IsBlock(r, p, u, Free) && u < MAX_ORDER - 1
      ensures !IsBlock(r, Buddy(p, u), u, Free)
    {
      assert TileAt(r, p);
      BuddyFacts(p, u);
      var b := Buddy(p, u);
      if p == h {
        assert b != h;
      } else {
        assert IsBlock(t, p, u, Free);
        if IsBlock(r, b, u, Free) {
          assert false;
        }
      }
    }
  }

  /** Joining a loose block with its loose buddy keeps the invariant. */
  lemma MergeInv(t: seq<Tile>, h: nat, o: nat)
    requires Inv(t) && IsBlock(t, h, o, Loose) && o < MAX_ORDER - 1
    requires Aligned(h, o) && IsBlock(t, Buddy(h, o), o, Loose)
    ensures var low := if Buddy(h, o) < h then Buddy(h, o) else h;
            low + Pow2(o + 1) <= |t| && Inv(Paint(t, low, o + 1, Loose))
  {
    BuddyFacts(h, o);
    var b := Buddy(h, o);
    var low := if b < h then b else h;
    assert TileAt(t, h) && TileAt(t, b);
    forall i | low <= i < low + Pow2(o + 1)
      ensures low <= t[i].head && t[i].head + Pow2(t[i].order) <= low + Pow2(o + 1)
    {
      if i < low + Pow2(o) { SameTile(t, low, i); } else { SameTile(t, low + Pow2(o), i); }
    }
    PaintTiled(t, low, o + 1, Loose);
    NoNewFree(t, Paint(t, low, o + 1, Loose));
  }

  /** Without new free blocks nothing new is left apart. */
  lemma NoNewFree(t: seq<Tile>, r: seq<Tile>)
    requires Inv(t) && Tiled(r)
    requires forall p: nat :: p < |r| && r[p].kind == Free ==> p < |t| && t[p] == r[p]
    ensures Coalesced(r)
  {
    forall p: nat, u: nat | IsBlock(r, p, u, Free) && u < MAX_ORDER - 1
      ensures !IsBlock(r, Buddy(p, u), u, Free)
    {
      assert IsBlock(t, p, u, Free);
    }
  }

  /** A loose block cut into its two halves. */
  ghost function Cut(t: seq<Tile>, h: nat, o: nat): (r: seq<Tile>)
    requires h + Pow2(o + 1) <= |t|
  {
    Paint(Paint(t, h, o, Loose), h + Pow2(o), o, Loose)
  }

  lemma CutInv(t: seq<Tile>, h: nat, o: nat)
    requires Inv(t) && IsBlock(t, h, o + 1, Loose)
    ensures o + 1 < MAX_ORDER && h + Pow2(o + 1) <= |t|
    ensures Inv(Cut(t, h, o))
  {
    assert TileAt(t, h);
    Halves(h, o);
    var r := Cut(t, h, o);
    forall i: nat | i < |r| ensures TileAt(r, i) {
      assert TileAt(t, i);
      if h <= i < h + Pow2(o + 1) {
        SameTile(t, h, i);
      } else {
        var b := t[i];
        forall j | b.head <= j < b.head + Pow2(b.order) ensures r[j] == b {
          assert t[j] == b;
        }
      }
    }
    NoNewFree(t, r);
  }

  // ---- what coalescing buys ------------------------------------------------

  /** Every aligned run of free frames lies inside one free block. */
  lemma {:induction false} RunInsideBlock(t: seq<Tile>, h: nat, k: nat)
    requires Inv(t) && FreeRun(t, h, k) && k < MAX_ORDER
    ensures t[h].order >= k && forall i :: h <= i < h + Pow2(k) ==> t[i] == t[h]
    decreases k
  {
    hide Aligned, Tiled, Coalesced;
    if k == 0 {
      assert Pow2(0) == 1;
    } else {
      Halves(h, k - 1);
      RunInsideBlock(t, h, k - 1);
      RunInsideBlock(t, h + Pow2(k - 1), k - 1);
      HalvesJoin(t, h, k - 1);
      LargeTileCovers(t, h, k);
    }
  }

  /** Two free halves, each inside a free block, are inside one free block. */
  lemma HalvesJoin(t: seq<Tile>, h: nat, k: nat)
    requires Inv(t) && k + 1 < MAX_ORDER && Aligned(h, k + 1) && h + Pow2(k) < |t|
    requires t[h].kind == Free && t[h].order >= k
    requires t[h + Pow2(k)].kind == Free && t[h + Pow2(k)].order >= k
    ensures t[h].order >= k + 1
  {
    var m := h + Pow2(k);
    Halves(h, k);
    assert TileAt(t, h) && TileAt(t, m);
    hide Aligned, Tiled, Coalesced, Buddy;
    if t[h].order == k {
      Nested(t[h].head, k, h, k, h);
      if t[m].order == k {
        Nested(t[m].head, k, m, k, m);
        BuddyNotFree(t, h, k);
      } else {
        Nested(h, k + 1, t[m].head, t[m].order, m);
      }
    }
  }

  lemma BuddyNotFree(t: seq<Tile>, h: nat, k: nat)
    requires Inv(t) && k < MAX_ORDER - 1 && Aligned(h, k + 1) && IsBlock(t, h, k, Free)
    ensures !IsBlock(t, h + Pow2(k), k, Free)
  {
    Halves(h, k);
  }

  lemma LargeTileCovers(t: seq<Tile>, h: nat, k: nat)
    requires Tiled(t) && h < |t| && Aligned(h, k) && t[h].order >= k
    ensures h + Pow2(k) <= |t| && forall i :: h <= i < h + Pow2(k) ==> t[i] == t[h]
  {
    assert TileAt(t, h);
    Nested(h, k, t[h].head, t[h].order, h);
  }

  lemma BlockIsRun(t: seq<Tile>, i: nat)
    requires Tiled(t) && i < |t| && t[i].kind == Free
    ensures FreeRun(t, t[i].head, t[i].order) && t[i].order < MAX_ORDER
  {
    assert TileAt(t, i);
  }

  /** Canonical form: the free blocks are a function of the set of free frames. */
  lemma Canonical(t: seq<Tile>, u: seq<Tile>)
    requires Inv(t) && Inv(u) && |t| == |u| && FreeFrames(t) == FreeFrames(u)
    ensures forall i: nat :: i < |t| && t[i].kind == Free ==> t[i] == u[i]
    ensures forall h: nat, o: nat :: IsBlock(t, h, o, Free) <==> IsBlock(u, h, o, Free)
  {
    forall i: nat | i < |t| && t[i].kind == Free ensures t[i] == u[i] {
      CanonicalAt(t, u, i);
    }
    forall i: nat | i < |u| && u[i].kind == Free ensures t[i] == u[i] {
      CanonicalAt(u, t, i);
    }
  }

  lemma CanonicalAt(t: seq<Tile>, u: seq<Tile>, i: nat)
    requires Inv(t) && Inv(u) && |t| == |u| && FreeFrames(t) == FreeFrames(u)
    requires i < |t| && t[i].kind == Free
    ensures t[i] == u[i]
  {
    assert forall j: nat :: j < |t| ==> (t[j].kind == Free <==> u[j].kind == Free) by {
      forall j: nat | j < |t| ensures t[j].kind == Free <==> u[j].kind == Free {
        assert j in FreeFrames(t) <==> j in FreeFrames(u);
      }
    }
    BlockIsRun(t, i);
    BlockIsRun(u, i);
    var a, b := t[i], u[i];
    assert TileAt(t, i) && TileAt(u, i);
    assert FreeRun(u, a.head, a.order) && FreeRun(t, b.head, b.order);
    RunInsideBlock(u, a.head, a.order);
    RunInsideBlock(t, b.head, b.order);
    assert t[b.head] == a && u[a.head] == b;
    Nested(a.head, a.order, b.head, b.order, i);
    Nested(b.head, b.order, a.head, a.order, i);
  }

  /** A free block of order at least k exists exactly when some aligned run of 2^k frames is free. */
  lemma RunIffBlock(t: seq<Tile>, k: nat)
    requires Inv(t) && k < MAX_ORDER
    ensures (exists h: nat :: FreeRun(t, h, k)) <==> (exists h: nat, o: nat :: IsBlock(t, h, o, Free) && o >= k)
  {
    if h: nat :| FreeRun(t, h, k) {
      RunInsideBlock(t, h, k);
      assert TileAt(t, h);
      SameTile(t, h, t[h].head);
      assert IsBlock(t, t[h].head, t[h].order, Free);
    }
    if h: nat, o: nat :| IsBlock(t, h, o, Free) && o >= k {
      assert TileAt(t, h);
      AlignedDown(h, k, o);
      Pow2Mono(k, o);
      assert FreeRun(t, h, k);
    }
  }

  // ---- allocator calls, seen from outside ----------------------------------

  ghost predicate SameTaken(t: seq<Tile>, u: seq<Tile>, h: nat, k: nat) {
    && |t| == |u|
    && forall i: nat :: i < |t| && !(h <= i < h + Pow2(k)) ==>
         (t[i].kind == Free <==> u[i].kind == Free) && (t[i].kind != Free ==> u[i] == t[i])
  }

  /** An allocation turns one free run into a live block and takes nothing else. */
  ghost predicate AllocStep(t: seq<Tile>, u: seq<Tile>, h: nat, k: nat) {
    && Inv(t) && Inv(u) && SameTaken(t, u, h, k)
    && FreeRun(t, h, k) && IsBlock(u, h, k, Live)
  }

  /** A free returns exactly the frames of one live block. */
  ghost predicate FreeStep(t: seq<Tile>, u: seq<Tile>, h: nat, k: nat) {
    && Inv(t) && Inv(u) && SameTaken(t, u, h, k)
    && IsBlock(t, h, k, Live) && FreeRun(u, h, k)
  }

  lemma SameTiling(t: seq<Tile>, u: seq<Tile>)
    requires Inv(t) && Inv(u) && |t| == |u|
    requires forall i: nat :: i < |t| ==> (t[i].kind == Free <==> u[i].kind == Free)
    requires forall i: nat :: i < |t| && t[i].kind != Free ==> u[i] == t[i]
    ensures t == u
  {
    assert FreeFrames(t) == FreeFrames(u);
    Canonical(t, u);
  }

  /** Allocating a block and freeing it again restores every block, however it was cut. */
  lemma AllocThenFree(t: seq<Tile>, u: seq<Tile>, v: seq<Tile>, h: nat, k: nat)
    requires AllocStep(t, u, h, k) && FreeStep(u, v, h, k)
    ensures v == t
  {
    SameTiling(t, v);
  }

  datatype Block = Block(head: nat, order: nat)

  /** run[i] is the state before the i-th free; blocks[i] is what it frees. */
  ghost predicate FreeingRun(run: seq<seq<Tile>>, blocks: seq<Block>) {
    && |run| == |blocks| + 1
    && forall i :: 0 <= i < |blocks| ==> FreeStep(run[i], run[i + 1], blocks[i].head, blocks[i].order)
  }

  ghost predicate Covered(blocks: seq<Block>, x: nat) {
    exists i :: 0 <= i < |blocks| && blocks[i].head <= x < blocks[i].head + Pow2(blocks[i].order)
  }

  lemma {:induction false} FreeingRunEffect(run: seq<seq<Tile>>, blocks: seq<Block>, n: nat)
    requires FreeingRun(run, blocks) && n <= |blocks| && Inv(run[0])
    ensures Inv(run[n]) && |run[n]| == |run[0]|
    ensures forall x: nat :: x < |run[0]| ==>
              (run[n][x].kind == Free <==> run[0][x].kind == Free || Covered(blocks[..n], x))
    ensures forall x: nat :: x < |run[0]| && run[n][x].kind != Free ==> run[n][x] == run[0][x]
  {
    if n > 0 {
      FreeingRunEffect(run, blocks, n - 1);
      var b := blocks[n - 1];
      forall x: nat | x < |run[0]|
        ensures run[n][x].kind == Free <==> run[0][x].kind == Free || Covered(blocks[..n], x)
      {
        CoveredStep(blocks, n, x);
        assert FreeStep(run[n - 1], run[n], b.head, b.order);
      }
    }
  }

  lemma CoveredStep(blocks: seq<Block>, n: nat, x: nat)
    requires 0 < n <= |blocks|
    ensures Covered(blocks[..n], x) <==>
            Covered(blocks[..n - 1], x)
            || blocks[n - 1].head <= x < blocks[n - 1].head + Pow2(blocks[n - 1].order)
  {
    var a, b := blocks[..n - 1], blocks[..n];
    assert forall i :: 0 <= i < n - 1 ==> a[i] == b[i];
    if Covered(b, x) {
      var i :| 0 <= i < |b| && b[i].head <= x < b[i].head + Pow2(b[i].order);
      if i < n - 1 { assert a[i] == b[i]; }
    }
    if Covered(a, x) {
      var i :| 0 <= i < |a| && a[i].head <= x < a[i].head + Pow2(a[i].order);
      assert b[i] == a[i];
    }
    assert b[n - 1] == blocks[n - 1];
  }

  /** Freeing the same blocks in any two orders reaches the same blocks. */
  lemma FreesCommute(r1: seq<seq<Tile>>, b1: seq<Block>, r2: seq<seq<Tile>>, b2: seq<Block>)
    requires FreeingRun(r1, b1) && FreeingRun(r2, b2) && r1[0] == r2[0] && Inv(r1[0])
    requires multiset(b1) == multiset(b2)
    ensures r1[|b1|] == r2[|b2|]
  {
    FreeingRunEffect(r1, b1, |b1|);
    FreeingRunEffect(r2, b2, |b2|);
    assert b1[..|b1|] == b1 && b2[..|b2|] == b2;
    var t, u := r1[|b1|], r2[|b2|];
    forall x: nat | x < |t| ensures t[x].kind == Free <==> u[x].kind == Free {
      if Covered(b1, x) { CoveredSame(b1, b2, x); }
      if Covered(b2, x) { CoveredSame(b2, b1, x); }
    }
    SameTiling(t, u);
  }

  lemma CoveredSame(a: seq<Block>, b: seq<Block>, x: nat)
    requires multiset(a) == multiset(b) && Covered(a, x)
    ensures Covered(b, x)
  {
    var i :| 0 <= i < |a| && a[i].head <= x < a[i].head + Pow2(a[i].order);
    assert a[i] in multiset(a);
    assert a[i] in b;
  }

  ghost predicate Step(t: seq<Tile>, u: seq<Tile>, h: nat, k: nat) {
    AllocStep(t, u, h, k) || FreeStep(t, u, h, k)
  }

  /** What one allocator call does to the tiling: nothing, an allocation or a free. */
  ghost predicate Moves(t: seq<Tile>, u: seq<Tile>) {
    t == u || exists h: nat, k: nat :: Step(t, u, h, k)
  }

  /** Any run of allocator calls. */
  ghost predicate Run(run: seq<seq<Tile>>) {
    && |run| > 0
    && forall i :: 0 <= i < |run| - 1 ==> Moves(run[i], run[i + 1])
  }

  /** Over any run of allocations and frees, reserved frames keep their tile. */
  lemma {:induction false} ReservedForEver(run: seq<seq<Tile>>, n: nat, x: nat)
    requires Run(run) && n < |run| && x < |run[0]| && run[0][x].kind == Reserved
    ensures |run[n]| == |run[0]| && run[n][x] == run[0][x]
  {
    if n > 0 {
      ReservedForEver(run, n - 1, x);
      assert Moves(run[n - 1], run[n]);
      ReservedStays(run[n - 1], run[n], x);
    }
  }

  lemma ReservedStays(t: seq<Tile>, u: seq<Tile>, x: nat)
    requires Moves(t, u) && x < |t| && t[x].kind == Reserved
    ensures |u| == |t| && u[x] == t[x]
  {
    if t != u {
      var h: nat, k: nat :| Step(t, u, h, k);
      if FreeStep(t, u, h, k) && h <= x < h + Pow2(k) {
        SameTile(t, h, x);
        assert false;
      }
    }
  }

  lemma NeverAllocated(run: seq<seq<Tile>>, n: nat, h: nat, k: nat, x: nat)
    requires Run(run) && n + 1 < |run| && AllocStep(run[n], run[n + 1], h, k)
    requires x < |run[0]| && run[0][x].kind == Reserved
    ensures !(h <= x < h + Pow2(k))
  {
    ReservedForEver(run, n, x);
  }
}
