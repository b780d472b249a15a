// The buddy allocator: page tags, free areas, and the operations on them.
module Buddy {
  import opened Bits
  import opened Tiling
  import opened ListHead
  import opened Wrappers

  const NR_CACHES: nat := 9

  const PG_USED: nat := 0x1
  const PG_AVAIL: nat := 0x4
  const PG_slab: nat := 0x20
  const PG_buddy: nat := 0x40
  const PG_RESERVED: nat := 0x80

  /** What the tags of a block head say.  Frames inside a block may carry stale tags. */
  ghost predicate HeadTag(t: seq<Tile>, flags: seq<nat>, priv: seq<nat>, h: nat)
    requires h < |t| == |flags| == |priv|
  {
    t[h].head == h ==>
      match t[h].kind
      case Free => flags[h] == PG_buddy && priv[h] == t[h].order
      case Live => (flags[h] == PG_USED && priv[h] == t[h].order) || (flags[h] == PG_slab && t[h].order == 0)
      case Reserved => flags[h] != PG_buddy
      case Loose => true
  }

  ghost predicate Tagged(t: seq<Tile>, flags: seq<nat>, priv: seq<nat>) {
    |t| == |flags| == |priv| && forall h: nat :: h < |t| ==> HeadTag(t, flags, priv, h)
  }

  /** free_list[o] holds exactly the free blocks of order o; the slab lists hold slab pages only. */
  ghost predicate Listed(t: seq<Tile>, flags: seq<nat>, lists: seq<seq<nat>>) {
    && |t| == |flags| && |lists| == MAX_ORDER + NR_CACHES
    && (forall o: nat, h: nat :: o < MAX_ORDER ==> (h in lists[o] <==> IsBlock(t, h, o, Free)))
    && (forall c: nat, h: nat :: MAX_ORDER <= c < |lists| && h in lists[c] ==> SlabPage(t, flags, h))
  }

  ghost predicate SlabPage(t: seq<Tile>, flags: seq<nat>, h: nat)
    requires |t| == |flags|
  {
    IsBlock(t, h, 0, Live) && flags[h] == PG_slab
  }

  function Sum(s: seq<nat>): nat {
    if s == [] then 0 else s[0] + Sum(s[1..])
  }

  ghost predicate Counted(lists: seq<seq<nat>>, nr_free: seq<nat>, managed: nat)
    requires |lists| >= MAX_ORDER
  {
    && |nr_free| == MAX_ORDER
    && (forall o: nat :: o < MAX_ORDER ==> nr_free[o] == |lists[o]|)
    && managed == Sum(nr_free)
  }

  ghost predicate OnlyLoose(t: seq<Tile>, h: nat) {
    forall i: nat :: i < |t| && t[i].kind == Loose ==> t[i].head == h
  }

  ghost predicate Settled(t: seq<Tile>) {
    forall i: nat :: i < |t| ==> t[i].kind != Loose
  }

  lemma {:induction false} SumUpdate(s: seq<nat>, i: nat, v: nat)
    requires i < |s|
    ensures Sum(s[i := v]) == Sum(s) - s[i] + v
    ensures Sum(s) >= s[i]
  {
    var r := s[i := v];
    if i == 0 {
      assert r[1..] == s[1..];
    } else {
      SumUpdate(s[1..], i - 1, v);
      assert r[1..] == s[1..][i - 1 := v];
    }
  }

  /** Replacing one list keeps the counts exact when its counter moves by the change in length. */
  lemma CountedChange(lists: seq<seq<nat>>, nr_free: seq<nat>, managed: nat, o: nat, s: seq<nat>)
    requires |lists| >= MAX_ORDER && Counted(lists, nr_free, managed) && o < MAX_ORDER
    ensures |nr_free| == MAX_ORDER && nr_free[o] == |lists[o]| <= managed
    ensures Counted(lists[o := s], nr_free[o := |s|], managed - |lists[o]| + |s|)
  {
    SumUpdate(nr_free, o, |s|);
  }

  /** Tags of frames outside every free block stay as they were. */
  ghost predicate TagsKept(t: seq<Tile>, f: seq<nat>, p: seq<nat>, f': seq<nat>, p': seq<nat>) {
    && |t| == |f| == |p| == |f'| == |p'|
    && forall i: nat :: i < |t| && t[i].kind != Free ==> f'[i] == f[i] && p'[i] == p[i]
  }

  /** Loose blocks are invisible to tags and lists. */
  lemma LooseChange(t: seq<Tile>, u: seq<Tile>, flags: seq<nat>, priv: seq<nat>, lists: seq<seq<nat>>)
    requires Tagged(t, flags, priv) && Listed(t, flags, lists) && |u| == |t|
    requires forall i: nat :: i < |t| && (t[i].kind != Loose || u[i].kind != Loose) ==> u[i] == t[i]
    ensures Tagged(u, flags, priv) && Listed(u, flags, lists)
  {
    forall h: nat | h < |u| ensures HeadTag(u, flags, priv, h) {
      assert HeadTag(t, flags, priv, h);
    }
    forall o: nat, h: nat | o < MAX_ORDER ensures h in lists[o] <==> IsBlock(u, h, o, Free) {
      assert h in lists[o] <==> IsBlock(t, h, o, Free);
    }
    forall c: nat, h: nat | MAX_ORDER <= c < |lists| && h in lists[c] ensures SlabPage(u, flags, h) {
      assert SlabPage(t, flags, h);
    }
  }

  /** The tags of a loose block are free to change. */
  lemma LooseTag(t: seq<Tile>, flags: seq<nat>, priv: seq<nat>, lists: seq<seq<nat>>, h: nat, f: nat, p: nat)
    requires Tagged(t, flags, priv) && Listed(t, flags, lists)
    requires h < |t| && t[h].head == h && t[h].kind == Loose
    ensures Tagged(t, flags[h := f], priv[h := p]) && Listed(t, flags[h := f], lists)
  {
    var flags', priv' := flags[h := f], priv[h := p];
    forall i: nat | i < |t| ensures HeadTag(t, flags', priv', i) {
      assert HeadTag(t, flags, priv, i);
    }
    forall c: nat, x: nat | MAX_ORDER <= c < |lists| && x in lists[c] ensures SlabPage(t, flags', x) {
      assert SlabPage(t, flags, x);
    }
  }

  lemma TakeListed(t: seq<Tile>, flags: seq<nat>, lists: seq<seq<nat>>, h: nat, o: nat, k: nat)
    requires Inv(t) && Listed(t, flags, lists) && Disjoint(lists) && IsBlock(t, h, o, Free)
    requires o < MAX_ORDER && h + Pow2(o) <= |t| && k < |lists[o]| && lists[o][k] == h
    ensures Listed(Paint(t, h, o, Loose), flags, lists[o := Removed(lists[o], k)])
  {
    var r := lists[o := Removed(lists[o], k)];
    var u := Paint(t, h, o, Loose);
    NoRepeats(lists, o);
    forall p: nat ensures p in r[o] <==> p in lists[o] && p != h {
      if p in lists[o] && p != h {
        var i :| 0 <= i < |lists[o]| && lists[o][i] == p;
        assert r[o][if i < k then i else i - 1] == p;
      }
      if p in r[o] {
        var i :| 0 <= i < |r[o]| && r[o][i] == p;
        assert lists[o][if i < k then i else i + 1] == p;
      }
    }
    assert TileAt(t, h);
    forall q: nat, p: nat | q < MAX_ORDER ensures p in r[q] <==> IsBlock(u, p, q, Free) {
      assert p in lists[q] <==> IsBlock(t, p, q, Free);
    }
    forall c: nat, p: nat | MAX_ORDER <= c < |lists| && p in r[c] ensures SlabPage(u, flags, p) {
      assert SlabPage(t, flags, p);
    }
  }

  /** What becomes of the zone when a free block leaves its list. */
  lemma TakeFacts(t: seq<Tile>, flags: seq<nat>, priv: seq<nat>, lists: seq<seq<nat>>, nr_free: seq<nat>,
                  managed: nat, h: nat, o: nat)
    returns (k: nat)
    requires Inv(t) && Tagged(t, flags, priv) && Listed(t, flags, lists) && Disjoint(lists)
    requires Counted(lists, nr_free, managed) && IsBlock(t, h, o, Free)
    ensures o < MAX_ORDER && h + Pow2(o) <= |t| && k < |lists[o]| && lists[o][k] == h
    ensures |nr_free| == MAX_ORDER && nr_free[o] > 0 && managed > 0
    ensures Inv(Paint(t, h, o, Loose)) && Tagged(Paint(t, h, o, Loose), flags, priv)
    ensures Listed(Paint(t, h, o, Loose), flags, lists[o := Removed(lists[o], k)])
    ensures Counted(lists[o := Removed(lists[o], k)], nr_free[o := nr_free[o] - 1], managed - 1)
  {
    assert TileAt(t, h);
    assert h in lists[o];
    k :| 0 <= k < |lists[o]| && lists[o][k] == h;
    TakeInv(t, h, Loose);
    PaintTagged(t, flags, priv, h, Loose);
    CountedChange(lists, nr_free, managed, o, Removed(lists[o], k));
    TakeListed(t, flags, lists, h, o, k);
  }

  lemma GiveListed(t: seq<Tile>, flags: seq<nat>, lists: seq<seq<nat>>, h: nat, o: nat)
    requires Inv(t) && Listed(t, flags, lists) && IsBlock(t, h, o, Loose)
    requires o < MAX_ORDER && h + Pow2(o) <= |t|
    ensures Listed(Paint(t, h, o, Free), flags, lists[o := lists[o] + [h]])
  {
    var r := lists[o := lists[o] + [h]];
    var u := Paint(t, h, o, Free);
    assert TileAt(t, h);
    assert Pow2(o) >= 1;
    forall q: nat, p: nat | q < MAX_ORDER ensures p in r[q] <==> IsBlock(u, p, q, Free) {
      assert p in lists[q] <==> IsBlock(t, p, q, Free);
    }
    forall c: nat, p: nat | MAX_ORDER <= c < |lists| && p in r[c] ensures SlabPage(u, flags, p) {
      assert SlabPage(t, flags, p);
    }
  }

  /** What becomes of the zone when a block tagged for it joins a list. */
  lemma GiveFacts(t: seq<Tile>, flags: seq<nat>, priv: seq<nat>, lists: seq<seq<nat>>, nr_free: seq<nat>,
                  managed: nat, h: nat, o: nat)
    requires Inv(t) && Tagged(t, flags, priv) && Listed(t, flags, lists) && Counted(lists, nr_free, managed)
    requires IsBlock(t, h, o, Loose) && (o < MAX_ORDER - 1 ==> !IsBlock(t, Buddy(h, o), o, Free))
    ensures o < MAX_ORDER && h + Pow2(o) <= |t| && |nr_free| == MAX_ORDER
    ensures var f, p, u := flags[h := PG_buddy], priv[h := o], Paint(t, h, o, Free);
            Inv(u) && Tagged(u, f, p) && Listed(u, f, lists[o := lists[o] + [h]])
    ensures Counted(lists[o := lists[o] + [h]], nr_free[o := nr_free[o] + 1], managed + 1)
  {
    assert TileAt(t, h);
    LooseTag(t, flags, priv, lists, h, PG_buddy, o);
    PaintTagged(t, flags[h := PG_buddy], priv[h := o], h, Free);
    CountedChange(lists, nr_free, managed, o, lists[o] + [h]);
    GiveInv(t, h, o);
    GiveListed(t, flags[h := PG_buddy], lists, h, o);
  }

  /** Painting one block changes the tag duty of its own head only. */
  lemma PaintTagged(t: seq<Tile>, flags: seq<nat>, priv: seq<nat>, h: nat, k: Kind)
    requires Inv(t) && Tagged(t, flags, priv) && h < |t| && t[h].head == h
    requires h + Pow2(t[h].order) <= |t|
    requires k == Loose || (k == Free && flags[h] == PG_buddy && priv[h] == t[h].order)
           || (k == Live && flags[h] == PG_USED && priv[h] == t[h].order)
    ensures Tagged(Paint(t, h, t[h].order, k), flags, priv)
  {
    var u := Paint(t, h, t[h].order, k);
    assert TileAt(t, h);
    forall p: nat | p < |u| ensures HeadTag(u, flags, priv, p) {
      assert HeadTag(t, flags, priv, p);
    }
  }

  /** A block that is neither free nor a slab page may change hands without touching any list. */
  lemma TakenListed(t: seq<Tile>, flags: seq<nat>, lists: seq<seq<nat>>, h: nat, k: Kind)
    requires Inv(t) && Listed(t, flags, lists) && h < |t| && t[h].head == h
    requires t[h].kind != Free && k != Free && !SlabPage(t, flags, h)
    requires h + Pow2(t[h].order) <= |t|
    ensures Listed(Paint(t, h, t[h].order, k), flags, lists)
  {
    var u := Paint(t, h, t[h].order, k);
    assert TileAt(t, h);
    forall q: nat, p: nat | q < MAX_ORDER ensures p in lists[q] <==> IsBlock(u, p, q, Free) {
      assert p in lists[q] <==> IsBlock(t, p, q, Free);
    }
    forall c: nat, p: nat | MAX_ORDER <= c < |lists| && p in lists[c] ensures SlabPage(u, flags, p) {
      assert SlabPage(t, flags, p);
    }
  }

  lemma NowSettled(t: seq<Tile>, h: nat, k: Kind)
    requires Inv(t) && h < |t| && t[h].head == h && OnlyLoose(t, h) && k != Loose
    ensures Aligned(h, t[h].order) && h + Pow2(t[h].order) <= |t|
    ensures Settled(Paint(t, h, t[h].order, k))
  {
    assert TileAt(t, h);
    forall i: nat | i < |t| && t[i].head == h ensures h <= i < h + Pow2(t[h].order) {
      assert TileAt(t, i);
    }
  }

  /** Loose block h and its free buddy have become one loose block; nothing else changed. */
  ghost predicate Merged(t: seq<Tile>, u: seq<Tile>, h: nat, o: nat) {
    var b := Buddy(h, o);
    var low := if b < h then b else h;
    && |u| == |t| && low + Pow2(o + 1) <= |t|
    && low <= h && h + Pow2(o) <= low + Pow2(o + 1)
    && (forall i: nat :: i < |t| ==> u[i] == if low <= i < low + Pow2(o + 1) then Tile(low, o + 1, Loose) else t[i])
    && (forall i: nat :: low <= i < low + Pow2(o + 1) && !(h <= i < h + Pow2(o)) ==> t[i].kind == Free)
  }

  lemma JoinFacts(t1: seq<Tile>, t: seq<Tile>, flags: seq<nat>, priv: seq<nat>, lists: seq<seq<nat>>, h: nat, o: nat)
    requires Inv(t1) && IsBlock(t1, h, o, Loose) && o < MAX_ORDER - 1
    requires IsBlock(t1, Buddy(h, o), o, Free) && Buddy(h, o) + Pow2(o) <= |t1|
    requires t == Paint(t1, Buddy(h, o), o, Loose) && Inv(t) && Tagged(t, flags, priv) && Listed(t, flags, lists)
    ensures var low := if Buddy(h, o) < h then Buddy(h, o) else h;
            && low + Pow2(o + 1) <= |t|
            && var u := Paint(t, low, o + 1, Loose);
               Inv(u) && Tagged(u, flags, priv) && Listed(u, flags, lists) && Merged(t1, u, h, o)
  {
    var b := Buddy(h, o);
    var low := if b < h then b else h;
    assert TileAt(t1, h) && TileAt(t1, b);
    BuddyFacts(h, o);
    MergeInv(t, h, o);
    LooseChange(t, Paint(t, low, o + 1, Loose), flags, priv, lists);
  }

  /** The state of the merge loop: block p of order o has grown from block p0 of order o0. */
  ghost predicate Merging(t0: seq<Tile>, t: seq<Tile>, p0: nat, o0: nat, p: nat, o: nat) {
    && |t| == |t0| && IsBlock(t, p, o, Loose) && OnlyLoose(t, p)
    && o0 <= o < MAX_ORDER && Aligned(p0, o0)
    && p <= p0 && p0 + Pow2(o0) <= p + Pow2(o) <= |t|
    && (forall i: nat :: i < |t| && !(p <= i < p + Pow2(o)) ==> t[i] == t0[i])
    && (forall i: nat :: p <= i < p + Pow2(o) && !(p0 <= i < p0 + Pow2(o0)) ==> t0[i].kind == Free)
  }

  lemma MergingStart(t: seq<Tile>, h: nat, o: nat)
    requires Inv(t) && IsBlock(t, h, o, Loose) && OnlyLoose(t, h)
    ensures Merging(t, t, h, o, h, o)
  {
    assert TileAt(t, h);
  }

  lemma MergingFacts(t0: seq<Tile>, t: seq<Tile>, p0: nat, o0: nat, p: nat, o: nat)
    requires Merging(t0, t, p0, o0, p, o)
    ensures IsBlock(t, p, o, Loose) && OnlyLoose(t, p) && o < MAX_ORDER && |t| == |t0|
  {
  }

  lemma MergingStep(t0: seq<Tile>, t: seq<Tile>, u: seq<Tile>, p0: nat, o0: nat, p: nat, o: nat)
    requires Inv(t) && Merging(t0, t, p0, o0, p, o) && o < MAX_ORDER - 1 && Merged(t, u, p, o)
    ensures var b := Buddy(p, o); Merging(t0, u, p0, o0, if b < p then b else p, o + 1)
  {
    forall i: nat | i < |t| && t[i].head == p ensures p <= i < p + Pow2(o) {
      assert TileAt(t, i);
      SameTile(t, i, p);
    }
  }

  lemma MergingEnd(t0: seq<Tile>, t: seq<Tile>, p0: nat, o0: nat, p: nat, o: nat)
    requires Inv(t) && Merging(t0, t, p0, o0, p, o)
    ensures p + Pow2(o) <= |t| && Settled(Paint(t, p, o, Free)) && Paint(t, p, o, Free)[p].kind == Free
    ensures p0 < |t| && Paint(t, p, o, Free)[p0] == Tile(p, o, Free)
    ensures SameTaken(t0, Paint(t, p, o, Free), p0, o0) && FreeRun(Paint(t, p, o, Free), p0, o0)
  {
    NowSettled(t, p, Free);
  }

  lemma MergingTags(t: seq<Tile>, h: nat, f: seq<nat>, p: seq<nat>, o: nat)
    requires h < |t| == |f| == |p| && t[h].kind == Free
    ensures TagsKept(t, f, p, f[h := PG_buddy], p[h := o])
  {
  }

  /** Frames [p, p + 2^high) were one loose block; a block of order o is left of it, the rest is free. */
  ghost predicate Expanding(t0: seq<Tile>, t: seq<Tile>, p: nat, o: nat, high: nat) {
    && |t| == |t0| && IsBlock(t, p, o, Loose) && OnlyLoose(t, p)
    && o <= high && p + Pow2(o) <= p + Pow2(high) <= |t|
    && (forall i: nat :: i < |t| && !(p <= i < p + Pow2(high)) ==> t[i] == t0[i])
    && (forall i: nat :: p + Pow2(o) <= i < p + Pow2(high) ==> t[i].kind == Free)
  }

  /** Loose block p of order o + 1 has been halved, and the upper half is free. */
  ghost predicate HalfFreed(t: seq<Tile>, u: seq<Tile>, p: nat, o: nat) {
    p + Pow2(o + 1) <= |t| && u == Paint(Cut(t, p, o), p + Pow2(o), o, Free)
  }

  lemma ExpandingStart(t: seq<Tile>, h: nat, o: nat)
    requires Inv(t) && IsBlock(t, h, o, Loose) && OnlyLoose(t, h)
    ensures Expanding(t, t, h, o, o) && o < MAX_ORDER
  {
    assert TileAt(t, h);
  }

  lemma ExpandingFacts(t0: seq<Tile>, t: seq<Tile>, p: nat, o: nat, high: nat)
    requires Expanding(t0, t, p, o, high)
    ensures IsBlock(t, p, o, Loose) && OnlyLoose(t, p) && |t| == |t0|
    ensures o > 0 ==> Shr(Pow2(o), 1) == Pow2(o - 1)
  {
    assert Pow2(1) == 2 * Pow2(0) == 2;
  }

  lemma ExpandingStep(t0: seq<Tile>, t: seq<Tile>, u: seq<Tile>, p: nat, o: nat, high: nat)
    requires Inv(t) && Expanding(t0, t, p, o + 1, high)
    requires HalfFreed(t, u, p, o)
    ensures Expanding(t0, u, p, o, high)
    ensures p + Pow2(o) < |u| && u[p + Pow2(o)].kind == Free
    ensures NoneTaken(t, u)
  {
    assert TileAt(t, p);
    forall i: nat | i < |t| && t[i].head == p ensures p <= i < p + Pow2(o + 1) {
      assert TileAt(t, i);
      SameTile(t, i, p);
    }
  }

  ghost predicate NoneTaken(t: seq<Tile>, u: seq<Tile>) {
    |u| == |t| && forall i: nat :: i < |t| && u[i].kind != Free ==> t[i].kind != Free
  }

  lemma TagsSame(t: seq<Tile>, f: seq<nat>, p: seq<nat>)
    requires |t| == |f| == |p|
    ensures TagsKept(t, f, p, f, p)
  {
  }

  lemma TagsStep(t: seq<Tile>, u: seq<Tile>, f0: seq<nat>, p0: seq<nat>, f: seq<nat>, p: seq<nat>, h: nat, o: nat)
    requires TagsKept(t, f0, p0, f, p) && |u| == |t| && h < |t| && u[h].kind == Free
    requires NoneTaken(t, u)
    ensures TagsKept(u, f0, p0, f[h := PG_buddy], p[h := o])
  {
  }

  /** What is cut from a free block of order c leaves one allocated block of order o. */
  lemma ExpandingEnd(t0: seq<Tile>, t: seq<Tile>, h: nat, o: nat, c: nat)
    requires Inv(t0) && Inv(t) && IsBlock(t0, h, c, Free) && h + Pow2(c) <= |t0| && o < MAX_ORDER
    requires Expanding(Paint(t0, h, c, Loose), t, h, o, c)
    ensures h + Pow2(o) <= |t| && SameTaken(t0, Paint(t, h, o, Live), h, o) && FreeRun(t0, h, o)
    ensures IsBlock(Paint(t, h, o, Live), h, o, Live)
  {
    assert TileAt(t0, h);
    AlignedDown(h, o, c);
  }

  ghost predicate AllOf(t: seq<Tile>, h: nat, o: nat, k: Kind) {
    forall i: nat :: h <= i < h + Pow2(o) && i < |t| ==> t[i].kind == k
  }

  lemma LoosenedBlock(t: seq<Tile>, h: nat, k: nat)
    requires Inv(t) && Settled(t) && IsBlock(t, h, k, Free)
    ensures h + Pow2(k) <= |t| && OnlyLoose(Paint(t, h, k, Loose), h) && IsBlock(Paint(t, h, k, Loose), h, k, Loose)
  {
    hide Inv, Settled, Paint, OnlyLoose;
    LoosenedOnly(t, h);
  }

  lemma LoosenedOnly(t: seq<Tile>, h: nat)
    requires Inv(t) && Settled(t) && h < |t| && t[h].head == h
    ensures h + Pow2(t[h].order) <= |t| && OnlyLoose(Paint(t, h, t[h].order, Loose), h)
    ensures IsBlock(Paint(t, h, t[h].order, Loose), h, t[h].order, Loose)
    ensures AllOf(t, h, t[h].order, t[h].kind)
  {
    assert TileAt(t, h);
  }

  lemma TakeTags(t0: seq<Tile>, t: seq<Tile>, f0: seq<nat>, p0: seq<nat>, f: seq<nat>, p: seq<nat>,
                 h: nat, o: nat, c: nat)
    requires IsBlock(t0, h, c, Free) && h + Pow2(c) <= |t0| && Settled(t0)
    requires Expanding(Paint(t0, h, c, Loose), t, h, o, c) && TagsKept(t, f0, p0, f, p)
    requires AllOf(t0, h, c, Free)
    ensures TagsKept(t0, f0, p0, f[h := PG_USED], p[h := o])
  {
  }

  /** The same, and the block is handed over. */
  lemma TakeEnd(t0: seq<Tile>, t: seq<Tile>, u: seq<Tile>, f0: seq<nat>, p0: seq<nat>, f: seq<nat>, p: seq<nat>,
                h: nat, o: nat, c: nat)
    requires Inv(t0) && Inv(t) && Inv(u) && IsBlock(t0, h, c, Free) && Settled(t0) && o < MAX_ORDER
    requires h + Pow2(c) <= |t0| && Expanding(Paint(t0, h, c, Loose), t, h, o, c) && TagsKept(t, f0, p0, f, p)
    requires h + Pow2(o) <= |t| && u == Paint(t, h, o, Live)
    ensures AllocStep(t0, u, h, o) && TagsKept(t0, f0, p0, f[h := PG_USED], p[h := o])
  {
    LoosenedOnly(t0, h);
    TakeTags(t0, t, f0, p0, f, p, h, o, c);
    ExpandingEnd(t0, t, h, o, c);
  }

  ghost function Unclaimed(n: nat): seq<Tile> {
    seq(n, i requires 0 <= i < n => Tile(i, 0, Reserved))
  }

  lemma UnclaimedInv(n: nat)
    requires Aligned(n, MAX_ORDER - 1)
    ensures Inv(Unclaimed(n))
  {
    assert Pow2(0) == 1;
    forall i: nat | i < n ensures TileAt(Unclaimed(n), i) { }
  }

  lemma SumZeros(n: nat)
    ensures Sum(seq(n, _ => 0)) == 0
  {
    var z: seq<nat> := seq(n, _ => 0);
    if n > 0 {
      SumZeros(n - 1);
      assert z[1..] == seq(n - 1, _ => 0);
    }
  }

  /** Node x has left list h; every other node keeps its place. */
  ghost predicate Unlinked(lists: seq<seq<nat>>, lists': seq<seq<nat>>, h: nat, x: nat) {
    h < |lists| && exists k: nat :: k < |lists[h]| && lists[h][k] == x && lists' == lists[h := Removed(lists[h], k)]
  }

  // ---- the order on the free lists -----------------------------------------

  /** From order o0 up to below o each list has lost one block, the others keep theirs in order; all other lists are as before. */
  ghost predicate Swallowed(l0: seq<seq<nat>>, l1: seq<seq<nat>>, o0: nat, o: nat) {
    |l1| == |l0| && forall d: nat :: d < |l0| ==> if o0 <= d < o then LostOne(l0[d], l1[d]) else l1[d] == l0[d]
  }

  ghost predicate LostOne(s: seq<nat>, s': seq<nat>) {
    exists k: nat :: k < |s| && s' == Removed(s, k)
  }

  /** A free of order o0 that ended in block p of order o: the buddies are gone and p is last on its list. */
  ghost predicate FreedLists(l0: seq<seq<nat>>, l1: seq<seq<nat>>, o0: nat, o: nat, p: nat) {
    && |l1| == |l0| && o0 <= o < |l0|
    && forall d: nat :: d < |l0| ==>
         if d == o then l1[d] == l0[d] + [p] else if o0 <= d < o then LostOne(l0[d], l1[d]) else l1[d] == l0[d]
  }

  /** Block p of order high has been cut down to order low: each upper half is last on its list. */
  ghost predicate ExpandedLists(l0: seq<seq<nat>>, l1: seq<seq<nat>>, p: nat, low: nat, high: nat) {
    |l1| == |l0| && forall d: nat :: d < |l0| ==> l1[d] == if low <= d < high then l0[d] + [p + Pow2(d)] else l0[d]
  }

  /** An allocation of order o from list c: the first block leaves, and the upper halves are last on their lists. */
  ghost predicate TakenLists(l0: seq<seq<nat>>, l1: seq<seq<nat>>, o: nat, c: nat, p: nat) {
    && |l1| == |l0| && o <= c < |l0| && l0[c] != [] && l0[c][0] == p
    && forall d: nat :: d < |l0| ==>
         l1[d] == if d == c then l0[c][1..] else if o <= d < c then l0[d] + [p + Pow2(d)] else l0[d]
  }

  lemma SwallowedStart(l: seq<seq<nat>>, o: nat)
    ensures Swallowed(l, l, o, o)
  {
  }

  lemma SwallowedStep(l0: seq<seq<nat>>, l1: seq<seq<nat>>, l2: seq<seq<nat>>, o0: nat, o: nat, x: nat)
    requires Swallowed(l0, l1, o0, o) && Unlinked(l1, l2, o, x) && o0 <= o
    ensures Swallowed(l0, l2, o0, o + 1)
  {
    hide Removed;
    var k: nat :| k < |l1[o]| && l1[o][k] == x && l2 == l1[o := Removed(l1[o], k)];
    assert LostOne(l0[o], l2[o]);
  }

  lemma SwallowedEnd(l0: seq<seq<nat>>, l1: seq<seq<nat>>, o0: nat, o: nat, p: nat)
    requires Swallowed(l0, l1, o0, o) && o0 <= o < |l1|
    ensures FreedLists(l0, l1[o := l1[o] + [p]], o0, o, p)
  {
    hide LostOne;
  }

  lemma ExpandedBelow(l0: seq<seq<nat>>, l1: seq<seq<nat>>, p: nat, low: nat, high: nat)
    requires ExpandedLists(l0, l1, p, low, high) && high <= MAX_ORDER <= |l0|
    ensures l1[MAX_ORDER..] == l0[MAX_ORDER..]
  {
  }

  lemma ExpandedStep(l0: seq<seq<nat>>, l1: seq<seq<nat>>, p: nat, low: nat, high: nat)
    requires ExpandedLists(l0, l1, p, low + 1, high) && low < high && low < |l1|
    ensures ExpandedLists(l0, l1[low := l1[low] + [p + Pow2(low)]], p, low, high)
  {
    hide Pow2;
  }

  lemma TakenEnd(l0: seq<seq<nat>>, l1: seq<seq<nat>>, l2: seq<seq<nat>>, o: nat, c: nat, p: nat)
    requires Disjoint(l0) && Unlinked(l0, l1, c, p) && ExpandedLists(l1, l2, p, o, c) && o <= c < |l0|
    requires l0[c] != [] && l0[c][0] == p
    ensures TakenLists(l0, l2, o, c, p)
  {
    var k: nat :| k < |l0[c]| && l0[c][k] == p && l1 == l0[c := Removed(l0[c], k)];
    NoRepeats(l0, c);
    assert k == 0;
    assert Removed(l0[c], 0) == l0[c][1..];
    hide Pow2, Removed;
  }

  /** x comes before y on the list. */
  ghost predicate Before(s: seq<nat>, x: nat, y: nat) {
    exists i: nat, j: nat :: i < j < |s| && s[i] == x && s[j] == y
  }

  /** One allocator call, seen on the lists. */
  ghost predicate ListMove(l0: seq<seq<nat>>, l1: seq<seq<nat>>) {
    || l1 == l0
    || (exists o: nat, c: nat, p: nat :: TakenLists(l0, l1, o, c, p))
    || (exists o0: nat, o: nat, p: nat :: FreedLists(l0, l1, o0, o, p))
  }

  lemma AppendKeeps(s: seq<nat>, z: nat, x: nat, y: nat)
    requires Before(s, x, y)
    ensures Before(s + [z], x, y)
  {
    var i: nat, j: nat :| i < j < |s| && s[i] == x && s[j] == y;
    assert (s + [z])[i] == x && (s + [z])[j] == y;
  }

  lemma RemoveKeeps(s: seq<nat>, k: nat, x: nat, y: nat)
    requires Before(s, x, y) && k < |s| && s[k] != x && s[k] != y
    ensures Before(Removed(s, k), x, y)
  {
    var i: nat, j: nat :| i < j < |s| && s[i] == x && s[j] == y;
    var r := Removed(s, k);
    assert r[if i < k then i else i - 1] == x && r[if j < k then j else j - 1] == y;
  }

  /** Whatever leaves a duplicate-free list is not on it any more. */
  lemma RemovedGone(s: seq<nat>, k: nat)
    requires k < |s| && forall i, j :: 0 <= i < j < |s| ==> s[i] != s[j]
    ensures s[k] !in Removed(s, k)
  {
  }

  /** The contents of a zone at one moment. */
  datatype Snapshot = Snapshot(tiles: seq<Tile>, flags: seq<nat>, priv: seq<nat>, lists: seq<seq<nat>>)

  /** The state of expand: frames, tags and lists. */
  ghost predicate ExpandState(was: Snapshot, now: Snapshot, p: nat, o: nat, high: nat) {
    && Expanding(was.tiles, now.tiles, p, o, high) && o <= high < MAX_ORDER <= |was.lists|
    && TagsKept(now.tiles, was.flags, was.priv, now.flags, now.priv)
    && ExpandedLists(was.lists, now.lists, p, o, high)
  }

  /** One turn of expand: the upper half of the block is free, tagged and last on its list. */
  ghost predicate HalfListed(now: Snapshot, next: Snapshot, p: nat, o: nat) {
    && HalfFreed(now.tiles, next.tiles, p, o)
    && o < |now.lists| && p + Pow2(o) < |now.flags| == |now.priv|
    && next.flags == now.flags[p + Pow2(o) := PG_buddy] && next.priv == now.priv[p + Pow2(o) := o]
    && next.lists == now.lists[o := now.lists[o] + [p + Pow2(o)]]
  }

  lemma ExpandStart(s: Snapshot, p: nat, o: nat)
    requires Inv(s.tiles) && IsBlock(s.tiles, p, o, Loose) && OnlyLoose(s.tiles, p)
    requires |s.tiles| == |s.flags| == |s.priv| && MAX_ORDER <= |s.lists|
    ensures ExpandState(s, s, p, o, o) && Shl(1, o) == Pow2(o)
  {
    ExpandingStart(s.tiles, p, o);
  }

  lemma ExpandFacts(was: Snapshot, now: Snapshot, p: nat, o: nat, high: nat)
    requires ExpandState(was, now, p, o, high)
    ensures IsBlock(now.tiles, p, o, Loose) && OnlyLoose(now.tiles, p) && (o > 0 ==> Shr(Pow2(o), 1) == Pow2(o - 1))
  {
    ExpandingFacts(was.tiles, now.tiles, p, o, high);
  }

  lemma ExpandStep(was: Snapshot, now: Snapshot, next: Snapshot, p: nat, o: nat, high: nat)
    requires Inv(now.tiles) && ExpandState(was, now, p, o + 1, high) && HalfListed(now, next, p, o)
    ensures ExpandState(was, next, p, o, high)
  {
    ExpandingStep(was.tiles, now.tiles, next.tiles, p, o, high);
    hide Expanding, NoneTaken, HalfFreed, Inv, Pow2;
    TagsStep(now.tiles, next.tiles, was.flags, was.priv, now.flags, now.priv, p + Pow2(o), o);
    ExpandedStep(was.lists, now.lists, p, o, high);
  }

  lemma ExpandEnd(was: Snapshot, now: Snapshot, p: nat, o: nat, high: nat)
    requires ExpandState(was, now, p, o, high)
    ensures Expanding(was.tiles, now.tiles, p, o, high)
    ensures TagsKept(now.tiles, was.flags, was.priv, now.flags, now.priv)
    ensures ExpandedLists(was.lists, now.lists, p, o, high) && now.lists[MAX_ORDER..] == was.lists[MAX_ORDER..]
  {
    hide Expanding, TagsKept;
    ExpandedBelow(was.lists, now.lists, p, o, high);
  }

  /** Two blocks that stay on a list keep their order. */
  lemma PlaceKept(l0: seq<seq<nat>>, l1: seq<seq<nat>>, d: nat, x: nat, y: nat)
    requires ListMove(l0, l1) && Disjoint(l0) && d < |l0| && Before(l0[d], x, y)
    ensures |l1| == |l0| && (x in l1[d] && y in l1[d] ==> Before(l1[d], x, y))
  {
    NoRepeats(l0, d);
    hide Disjoint, Before, Removed, Pow2;
    if k: nat :| k < |l0[d]| && l1[d] == Removed(l0[d], k) {
      RemovedGone(l0[d], k);
      if x in l1[d] && y in l1[d] { RemoveKeeps(l0[d], k, x, y); }
    } else if z: nat :| l1[d] == l0[d] + [z] {
      AppendKeeps(l0[d], z, x, y);
    } else if l1 != l0 {
      OtherwiseSame(l0, l1, d);
    }
  }

  lemma OtherwiseSame(l0: seq<seq<nat>>, l1: seq<seq<nat>>, d: nat)
    requires ListMove(l0, l1) && d < |l0|
    ensures |l1| == |l0|
    ensures || l1[d] == l0[d]
            || (exists k: nat :: k < |l0[d]| && l1[d] == Removed(l0[d], k))
            || (exists z: nat :: l1[d] == l0[d] + [z])
  {
    if o: nat, c: nat, p: nat :| TakenLists(l0, l1, o, c, p) {
      if d == c { assert Removed(l0[c], 0) == l0[c][1..]; }
    } else if o0: nat, o: nat, p: nat :| FreedLists(l0, l1, o0, o, p) {
      hide Removed;
      if o0 <= d < o { assert LostOne(l0[d], l1[d]); }
    }
  }

  /** Blocks of one order leave in the order they were listed: when y is handed out as the first of list d, a block
      that was before it has left the list earlier. */
  lemma {:induction false} FirstInFirstOut(run: seq<seq<seq<nat>>>, n: nat, d: nat, x: nat, y: nat)
    requires n < |run| && d < |run[0]| && Before(run[0][d], x, y)
    requires forall i: nat :: i <= n ==> Disjoint(run[i]) && |run[i]| == |run[0]| && y in run[i][d]
    requires forall i: nat :: i < n ==> ListMove(run[i], run[i + 1])
    requires run[n][d][0] == y
    ensures exists i: nat :: i <= n && x !in run[i][d]
  {
    if forall i: nat :: i <= n ==> x in run[i][d] {
      NoRepeats(run[n], d);
      StillBefore(run, n, d, x, y);
    }
  }

  lemma {:induction false} StillBefore(run: seq<seq<seq<nat>>>, n: nat, d: nat, x: nat, y: nat)
    requires n < |run| && d < |run[0]| && Before(run[0][d], x, y)
    requires forall i: nat :: i <= n ==> Disjoint(run[i]) && |run[i]| == |run[0]| && x in run[i][d] && y in run[i][d]
    requires forall i: nat :: i < n ==> ListMove(run[i], run[i + 1])
    ensures Before(run[n][d], x, y)
  {
    hide Before, ListMove, Disjoint;
    if n > 0 {
      StillBefore(run, n - 1, d, x, y);
      PlaceKept(run[n - 1], run[n], d, x, y);
    }
  }

  /** The first free list at or above `order` that is not empty. */
  ghost predicate FirstFit(lists: seq<seq<nat>>, order: nat, c: nat) {
    && order <= c < MAX_ORDER <= |lists| && lists[c] != []
    && forall d: nat :: order <= d < c ==> lists[d] == []
  }

  /** An allocation, on frames and lists: the oldest block of the smallest order that has one. */
  ghost predicate Took(t0: seq<Tile>, t1: seq<Tile>, l0: seq<seq<nat>>, l1: seq<seq<nat>>, order: nat, page: nat) {
    && AllocStep(t0, t1, page, order)
    && exists c: nat :: FirstFit(l0, order, c) && TakenLists(l0, l1, order, c, page)
  }

  /** A free, on frames and lists. */
  ghost predicate Gave(t0: seq<Tile>, t1: seq<Tile>, l0: seq<seq<nat>>, l1: seq<seq<nat>>, order: nat, page: nat) {
    && FreeStep(t0, t1, page, order)
    && page < |t1| && FreedLists(l0, l1, order, t1[page].order, t1[page].head)
  }

  class Zone {
    const flags: array<nat>
    const priv: array<nat>
    const nr_free: array<nat>
    const arena: ListArena
    var managed_pages: nat
    ghost var tiles: seq<Tile>

    ghost predicate Apart()
      reads this, arena
    {
      && flags != priv && flags != nr_free && priv != nr_free
      && arena.next as object != flags && arena.next as object != priv && arena.next as object != nr_free
      && arena.prev as object != flags && arena.prev as object != priv && arena.prev as object != nr_free
    }

    ghost predicate Valid()
      reads this, arena, flags, priv, nr_free, arena.next, arena.prev
    {
      && Apart()
      && flags.Length == priv.Length == arena.nodes == |tiles|
      && arena.Valid() && |arena.lists| == MAX_ORDER + NR_CACHES
      && Inv(tiles)
      && Tagged(tiles, flags[..], priv[..])
      && Listed(tiles, flags[..], arena.lists)
      && Counted(arena.lists, nr_free[..], managed_pages)
    }

    /** No block is halfway between two owners: the state between calls. */
    ghost predicate Ready()
      reads this, arena, flags, priv, nr_free, arena.next, arena.prev
    {
      Valid() && Settled(tiles)
    }

    /** Memory for struct page holds no PG_buddy tag and every free area is empty:
        each frame is a block of its own that the allocator does not own yet. */
    constructor (rawFlags: seq<nat>, rawPriv: seq<nat>)
      requires |rawFlags| == |rawPriv| && Aligned(|rawFlags|, MAX_ORDER - 1)
      requires PG_buddy !in rawFlags
      ensures Ready() && fresh(flags) && fresh(priv) && fresh(nr_free)
      ensures fresh(arena) && fresh(arena.next) && fresh(arena.prev)
      ensures tiles == Unclaimed(|rawFlags|) && flags[..] == rawFlags && priv[..] == rawPriv
      ensures arena.lists == seq(MAX_ORDER + NR_CACHES, _ => [])
    {
      var n := |rawFlags|;
      flags := new nat[n](i requires 0 <= i < n => rawFlags[i]);
      priv := new nat[n](i requires 0 <= i < n => rawPriv[i]);
      nr_free := new nat[MAX_ORDER](_ => 0);
      arena := new ListArena(n, MAX_ORDER + NR_CACHES);
      managed_pages := 0;
      tiles := Unclaimed(n);
      new;
      UnclaimedInv(n);
      assert flags[..] == rawFlags && priv[..] == rawPriv;
      assert nr_free[..] == seq(MAX_ORDER, _ => 0);
      SumZeros(MAX_ORDER);
      forall h: nat | h < n ensures HeadTag(tiles, flags[..], priv[..], h) {
        assert flags[h] in rawFlags;
      }
    }

    lemma OffLists(x: nat)
      requires Valid() && x < |tiles| && tiles[x].head == x && tiles[x].kind != Free
      requires tiles[x].kind != Live || flags[x] != PG_slab
      ensures !OnSome(arena.lists, x)
    {
      forall h | 0 <= h < |arena.lists| ensures x !in arena.lists[h] {
        assert h < MAX_ORDER ==> (x in arena.lists[h] <==> IsBlock(tiles, x, h, Free));
        assert h >= MAX_ORDER ==> (x in arena.lists[h] ==> SlabPage(tiles, flags[..], x));
      }
    }

    /** del_page_from_free_area */
    method DelPageFromFreeArea(pfn: nat, order: nat)
      requires Valid() && IsBlock(tiles, pfn, order, Free)
      modifies this, arena, arena.next, arena.prev, nr_free
      ensures order < MAX_ORDER && pfn + Pow2(order) <= |old(tiles)|
      ensures Valid() && tiles == Paint(old(tiles), pfn, order, Loose)
      ensures Unlinked(old(arena.lists), arena.lists, order, pfn)
      ensures arena.lists[MAX_ORDER..] == old(arena.lists[MAX_ORDER..])
    {
      ghost var k := TakeFacts(tiles, flags[..], priv[..], arena.lists, nr_free[..], managed_pages, pfn, order);
      hide Inv, Tagged, Listed, Counted, Disjoint, Threaded, IsBlock, Paint, Removed, Pow2;
      UnlinkBlock(pfn, order, k);
      tiles := Paint(tiles, pfn, order, Loose);
    }

    /** set_buddy_order then add_to_free_area */
    method AddToFreeArea(pfn: nat, order: nat)
      requires Valid() && IsBlock(tiles, pfn, order, Loose)
      requires order < MAX_ORDER - 1 ==> !IsBlock(tiles, Buddy(pfn, order), order, Free)
      modifies this, arena, arena.next, arena.prev, nr_free, flags, priv
      ensures order < MAX_ORDER && pfn + Pow2(order) <= |old(tiles)|
      ensures Valid() && tiles == Paint(old(tiles), pfn, order, Free)
      ensures flags[..] == old(flags[..])[pfn := PG_buddy] && priv[..] == old(priv[..])[pfn := order]
      ensures arena.lists == old(arena.lists)[order := old(arena.lists)[order] + [pfn]]
      ensures arena.lists[MAX_ORDER..] == old(arena.lists[MAX_ORDER..])
    {
      OffLists(pfn);
      GiveFacts(tiles, flags[..], priv[..], arena.lists, nr_free[..], managed_pages, pfn, order);
      SetBuddyOrder(pfn, order);
      hide Inv, Tagged, Listed, Counted, Threaded, OnSome, IsBlock, Paint, Pow2;
      LinkBlock(pfn, order);
      tiles := Paint(tiles, pfn, order, Free);
    }

    /** The list and the counters of a block that leaves. */
    method UnlinkBlock(pfn: nat, order: nat, ghost k: nat)
      requires Apart() && arena.Valid() && order < nr_free.Length && order < |arena.lists| && k < |arena.lists[order]|
      requires arena.lists[order][k] == pfn && nr_free[order] > 0 && managed_pages > 0
      modifies this`managed_pages, arena, arena.next, arena.prev, nr_free
      ensures arena.Valid() && arena.lists == old(arena.lists)[order := Removed(old(arena.lists)[order], k)]
      ensures nr_free[..] == old(nr_free[..])[order := old(nr_free[order]) - 1]
      ensures managed_pages == old(managed_pages) - 1
    {
      hide Threaded;
      arena.ListDel(pfn, order, k);
      nr_free[order] := nr_free[order] - 1;
      managed_pages := managed_pages - 1;
      assert nr_free[..] == old(nr_free[..])[order := old(nr_free[order]) - 1];
    }

    /** The list and the counters of a block that joins. */
    method LinkBlock(pfn: nat, order: nat)
      requires Apart() && arena.Valid() && order < nr_free.Length && order < |arena.lists|
      requires pfn < arena.nodes && !OnSome(arena.lists, pfn)
      modifies this`managed_pages, arena, arena.next, arena.prev, nr_free
      ensures arena.Valid() && arena.lists == old(arena.lists)[order := old(arena.lists)[order] + [pfn]]
      ensures nr_free[..] == old(nr_free[..])[order := old(nr_free[order]) + 1]
      ensures managed_pages == old(managed_pages) + 1
    {
      hide Threaded, OnSome;
      arena.ListAddTail(pfn, order);
      nr_free[order] := nr_free[order] + 1;
      managed_pages := managed_pages + 1;
      assert nr_free[..] == old(nr_free[..])[order := old(nr_free[order]) + 1];
    }

    method SetBuddyOrder(pfn: nat, order: nat)
      requires pfn < flags.Length == priv.Length && flags != priv
      modifies flags, priv
      ensures flags[..] == old(flags[..])[pfn := PG_buddy] && priv[..] == old(priv[..])[pfn := order]
    {
      priv[pfn] := order;
      flags[pfn] := PG_buddy;
    }

    /** find_buddy_page_pfn: the tags of the frame at the buddy's number tell whether it can be merged. */
    method FindBuddyPagePfn(pfn: nat, order: nat) returns (buddyPfn: nat, found: bool)
      requires Valid() && IsBlock(tiles, pfn, order, Loose) && OnlyLoose(tiles, pfn) && order < MAX_ORDER - 1
      ensures buddyPfn == Buddy(pfn, order) && And(buddyPfn, pfn) == if buddyPfn < pfn then buddyPfn else pfn
      ensures found <==> IsBlock(tiles, buddyPfn, order, Free)
    {
      assert TileAt(tiles, pfn);
      BuddyBits(pfn, order);
      BuddyIsHead(tiles, pfn);
      BuddyFacts(pfn, order);
      buddyPfn := Xor(pfn, Shl(1, order));
      assert HeadTag(tiles, flags[..], priv[..], buddyPfn);
      found := flags[buddyPfn] == PG_buddy && priv[buddyPfn] == order;
    }

    /** __free_one_page: merge a loose block upwards while its buddy is free, then list it. */
    method MergeAndList(pfn0: nat, order0: nat)
      requires Valid() && IsBlock(tiles, pfn0, order0, Loose) && OnlyLoose(tiles, pfn0)
      modifies this, arena, arena.next, arena.prev, nr_free, flags, priv
      ensures Ready()
      ensures SameTaken(old(tiles), tiles, pfn0, order0) && FreeRun(tiles, pfn0, order0)
      ensures TagsKept(tiles, old(flags[..]), old(priv[..]), flags[..], priv[..])
      // its buddies leave their lists, and the block that is left goes to the end of its own
      ensures pfn0 < |tiles| && FreedLists(old(arena.lists), arena.lists, order0, tiles[pfn0].order, tiles[pfn0].head)
      ensures arena.lists[MAX_ORDER..] == old(arena.lists[MAX_ORDER..])
    {
      hide Tagged, Listed, Counted, Threaded, Inv, Paint, Merging, TagsKept;
      hide OnlyLoose, SameTaken, FreeRun, Buddy, IsBlock, Pow2, Swallowed, FreedLists;
      var pfn, order := MergeUp(pfn0, order0);
      MergingFacts(old(tiles), tiles, pfn0, order0, pfn, order);
      SwallowedEnd(old(arena.lists), arena.lists, order0, order, pfn);
      MergingEnd(old(tiles), tiles, pfn0, order0, pfn, order);
      AddToFreeArea(pfn, order);
      MergingTags(tiles, pfn, old(flags[..]), old(priv[..]), order);
    }

    /** The merge loop of __free_one_page. */
    method MergeUp(pfn0: nat, order0: nat) returns (pfn: nat, order: nat)
      requires Valid() && IsBlock(tiles, pfn0, order0, Loose) && OnlyLoose(tiles, pfn0)
      modifies this, arena, arena.next, arena.prev, nr_free
      ensures Valid() && Merging(old(tiles), tiles, pfn0, order0, pfn, order)
      ensures order < MAX_ORDER - 1 ==> !IsBlock(tiles, Buddy(pfn, order), order, Free)
      ensures order0 <= order && Swallowed(old(arena.lists), arena.lists, order0, order)
      ensures arena.lists[MAX_ORDER..] == old(arena.lists[MAX_ORDER..])
    {
      hide Tagged, Listed, Counted, Threaded, Inv, Paint, Merging, Merged, Swallowed, Unlinked;
      hide OnlyLoose, Buddy, IsBlock, Pow2, And;
      ghost var t0, l0 := tiles, arena.lists;
      MergingStart(t0, pfn0, order0);
      SwallowedStart(l0, order0);
      pfn, order := pfn0, order0;
      while order < MAX_ORDER - 1
        invariant Valid() && Merging(t0, tiles, pfn0, order0, pfn, order)
        invariant order0 <= order && Swallowed(l0, arena.lists, order0, order)
        invariant arena.lists[MAX_ORDER..] == old(arena.lists[MAX_ORDER..])
        decreases MAX_ORDER - order
      {
        MergingFacts(t0, tiles, pfn0, order0, pfn, order);
        ghost var t1, l1 := tiles, arena.lists;
        var buddyPfn, found := FindBuddyPagePfn(pfn, order);
        if !found { return; }
        MergeOnce(pfn, order, buddyPfn);
        MergingStep(t0, t1, tiles, pfn0, order0, pfn, order);
        SwallowedStep(l0, l1, arena.lists, order0, order, buddyPfn);
        pfn := And(buddyPfn, pfn);
        order := order + 1;
      }
    }

    /** One turn of the merge loop: the free buddy leaves its list and joins the block. */
    method MergeOnce(pfn: nat, order: nat, buddyPfn: nat)
      requires Valid() && IsBlock(tiles, pfn, order, Loose) && order < MAX_ORDER - 1
      requires buddyPfn == Buddy(pfn, order) && IsBlock(tiles, buddyPfn, order, Free)
      modifies this, arena, arena.next, arena.prev, nr_free
      ensures Valid() && Merged(old(tiles), tiles, pfn, order)
      ensures Unlinked(old(arena.lists), arena.lists, order, buddyPfn)
      ensures arena.lists[MAX_ORDER..] == old(arena.lists[MAX_ORDER..])
    {
      DelPageFromFreeArea(buddyPfn, order);
      JoinBuddies(pfn, order, old(tiles));
    }

    /** Two loose buddies become one loose block. */
    ghost method JoinBuddies(pfn: nat, order: nat, t1: seq<Tile>)
      requires Valid() && Inv(t1) && IsBlock(t1, pfn, order, Loose) && order < MAX_ORDER - 1
      requires IsBlock(t1, Buddy(pfn, order), order, Free) && Buddy(pfn, order) + Pow2(order) <= |t1|
      requires tiles == Paint(t1, Buddy(pfn, order), order, Loose)
      modifies this`tiles
      ensures Valid() && Merged(t1, tiles, pfn, order)
    {
      JoinFacts(t1, tiles, flags[..], priv[..], arena.lists, pfn, order);
      hide Tagged, Listed, Counted, Threaded, Inv, Paint, Merged;
      var low := if Buddy(pfn, order) < pfn then Buddy(pfn, order) else pfn;
      tiles := Paint(tiles, low, order + 1, Loose);
    }

    /** free_one_page: anything but a used page makes the kernel spin, here reported as false. */
    method FreeOnePage(pfn: nat, order: nat) returns (ok: bool)
      requires Ready() && pfn < |tiles| && (flags[pfn] == PG_USED ==> IsBlock(tiles, pfn, order, Live))
      modifies this, arena, arena.next, arena.prev, nr_free, flags, priv
      ensures ok <==> old(flags[pfn]) == PG_USED
      ensures Ready() && TagsKept(tiles, old(flags[..]), old(priv[..]), flags[..], priv[..])
      ensures arena.lists[MAX_ORDER..] == old(arena.lists[MAX_ORDER..])
      ensures if ok then Gave(old(tiles), tiles, old(arena.lists), arena.lists, order, pfn)
              else tiles == old(tiles) && arena.lists == old(arena.lists)
                   && flags[..] == old(flags[..]) && priv[..] == old(priv[..])
    {
      if flags[pfn] != PG_USED { return false; }
      assert TileAt(tiles, pfn);
      Release(pfn, order);
      MergeAndList(pfn, order);
      return true;
    }

    /** A block that is on no list leaves its owner. */
    ghost method Release(pfn: nat, order: nat)
      requires Ready() && pfn < |tiles| && tiles[pfn].head == pfn && tiles[pfn].order == order
      requires tiles[pfn].kind == Reserved || (tiles[pfn].kind == Live && flags[pfn] == PG_USED)
      modifies this`tiles
      ensures pfn + Pow2(order) <= |old(tiles)| && tiles == Paint(old(tiles), pfn, order, Loose)
      ensures Valid() && OnlyLoose(tiles, pfn)
    {
      TakeInv(tiles, pfn, Loose);
      PaintTagged(tiles, flags[..], priv[..], pfn, Loose);
      TakenListed(tiles, flags[..], arena.lists, pfn, Loose);
      tiles := Paint(tiles, pfn, order, Loose);
    }

    /** expand: give back upper halves until a block of lowOrder is left. */
    method Expand(pfn: nat, lowOrder: nat, highOrder: nat)
      requires Valid() && IsBlock(tiles, pfn, highOrder, Loose) && OnlyLoose(tiles, pfn)
      requires lowOrder <= highOrder
      modifies this, arena, arena.next, arena.prev, nr_free, flags, priv
      ensures Valid() && Expanding(old(tiles), tiles, pfn, lowOrder, highOrder)
      ensures ExpandedLists(old(arena.lists), arena.lists, pfn, lowOrder, highOrder)
      ensures TagsKept(tiles, old(flags[..]), old(priv[..]), flags[..], priv[..])
      ensures arena.lists[MAX_ORDER..] == old(arena.lists[MAX_ORDER..])
    {
      ghost var was := Snapshot(tiles, flags[..], priv[..], arena.lists);
      ExpandStart(was, pfn, highOrder);
      hide Tagged, Listed, Counted, Threaded, Inv, IsBlock, OnlyLoose, HalfListed, ExpandState, Pow2, Shl, Shr;
      var high: nat := highOrder;
      var size: nat := Shl(1, highOrder);
      while high > lowOrder
        invariant Valid() && lowOrder <= high && size == Pow2(high)
        invariant ExpandState(was, Snapshot(tiles, flags[..], priv[..], arena.lists), pfn, high, highOrder)
      {
        ghost var now := Snapshot(tiles, flags[..], priv[..], arena.lists);
        ExpandFacts(was, now, pfn, high, highOrder);
        high := high - 1;
        size := Shr(size, 1);
        ExpandOnce(pfn, high, size);
        ExpandStep(was, now, Snapshot(tiles, flags[..], priv[..], arena.lists), pfn, high, highOrder);
      }
      ExpandEnd(was, Snapshot(tiles, flags[..], priv[..], arena.lists), pfn, lowOrder, highOrder);
    }

    /** One turn of expand: the upper half of the block is listed. */
    method ExpandOnce(pfn: nat, high: nat, size: nat)
      requires Valid() && IsBlock(tiles, pfn, high + 1, Loose) && OnlyLoose(tiles, pfn) && size == Pow2(high)
      modifies this, arena, arena.next, arena.prev, nr_free, flags, priv
      ensures Valid() && HalfListed(old(Snapshot(tiles, flags[..], priv[..], arena.lists)),
                                    Snapshot(tiles, flags[..], priv[..], arena.lists), pfn, high)
    {
      hide Tagged, Listed, Counted, Threaded, Inv, IsBlock, OnlyLoose, Cut, Buddy, Pow2;
      CutBlock(pfn, high);
      AddToFreeArea(pfn + size, high);
    }

    ghost method CutBlock(pfn: nat, order: nat)
      requires Valid() && IsBlock(tiles, pfn, order + 1, Loose) && OnlyLoose(tiles, pfn)
      modifies this`tiles
      ensures pfn + Pow2(order + 1) <= |old(tiles)| && tiles == Cut(old(tiles), pfn, order)
      ensures Valid() && order < MAX_ORDER
      ensures IsBlock(tiles, pfn + Pow2(order), order, Loose)
      ensures order < MAX_ORDER - 1 ==> !IsBlock(tiles, Buddy(pfn + Pow2(order), order), order, Free)
    {
      assert TileAt(tiles, pfn);
      Halves(pfn, order);
      CutInv(tiles, pfn, order);
      LooseChange(tiles, Cut(tiles, pfn, order), flags[..], priv[..], arena.lists);
      tiles := Cut(tiles, pfn, order);
    }

    /** __rmqueue_smallest */
    method RmqueueSmallest(order: nat) returns (page: Option<nat>)
      requires Ready()
      modifies this, arena, arena.next, arena.prev, nr_free, flags, priv
      ensures Ready() && TagsKept(old(tiles), old(flags[..]), old(priv[..]), flags[..], priv[..])
      ensures arena.lists[MAX_ORDER..] == old(arena.lists[MAX_ORDER..])
      // it fails exactly when it must, and then it changes nothing
      ensures page.None? <==> order >= MAX_ORDER || !exists h: nat :: FreeRun(old(tiles), h, order)
      ensures page.None? ==> tiles == old(tiles) && arena.lists == old(arena.lists)
                             && flags[..] == old(flags[..]) && priv[..] == old(priv[..])
      // it takes the oldest block of the smallest order that has one
      ensures page.Some? ==> Took(old(tiles), tiles, old(arena.lists), arena.lists, order, page.value)
      ensures page.Some? ==> page.value < flags.Length && flags[page.value] == PG_USED
    {
      if order < MAX_ORDER { RunIffBlock(tiles, order); }
      var currentOrder: nat := order;
      while currentOrder < MAX_ORDER
        invariant Ready() && tiles == old(tiles) && arena.lists == old(arena.lists)
        invariant flags[..] == old(flags[..]) && priv[..] == old(priv[..])
        invariant currentOrder > MAX_ORDER ==> currentOrder == order
        invariant forall d: nat :: order <= d < currentOrder && d < MAX_ORDER ==> arena.lists[d] == []
      {
        var empty := arena.ListEmpty(currentOrder);
        if !empty {
          var pfn := arena.ListFirst(currentOrder);
          assert FirstFit(arena.lists, order, currentOrder);
          assert pfn in arena.lists[currentOrder] <==> IsBlock(tiles, pfn, currentOrder, Free);
          TakeFrom(pfn, order, currentOrder);
          return Some(pfn);
        }
        currentOrder := currentOrder + 1;
      }
      assert forall h: nat, o: nat :: IsBlock(tiles, h, o, Free) && o >= order ==> o >= MAX_ORDER by {
        forall h: nat, o: nat | IsBlock(tiles, h, o, Free) && order <= o ensures o >= MAX_ORDER {
          if o < MAX_ORDER { NotListed(o, h); }
        }
      }
      assert forall h: nat, o: nat :: IsBlock(tiles, h, o, Free) ==> TileAt(tiles, h);
      return None;
    }

    lemma NotListed(o: nat, h: nat)
      requires Valid() && o < MAX_ORDER && arena.lists[o] == []
      ensures !IsBlock(tiles, h, o, Free)
    {
      assert h in arena.lists[o] <==> IsBlock(tiles, h, o, Free);
    }

    /** The body of the search once a block of order c is found. */
    method TakeFrom(pfn: nat, order: nat, c: nat)
      requires Ready() && IsBlock(tiles, pfn, c, Free) && order <= c < MAX_ORDER
      requires arena.lists[c] != [] && arena.lists[c][0] == pfn
      modifies this, arena, arena.next, arena.prev, nr_free, flags, priv
      ensures TakenLists(old(arena.lists), arena.lists, order, c, pfn)
      ensures Ready() && AllocStep(old(tiles), tiles, pfn, order) && flags[pfn] == PG_USED
      ensures TagsKept(old(tiles), old(flags[..]), old(priv[..]), flags[..], priv[..])
      ensures arena.lists[MAX_ORDER..] == old(arena.lists[MAX_ORDER..])
    {
      hide Tagged, Listed, Counted, Threaded, Inv, TakenLists, TagsKept, OnlyLoose, AllocStep, Paint, Expanding, Pow2;
      ghost var t0, f0, p0 := tiles, flags[..], priv[..];
      CutFrom(pfn, order, c);
      ghost var t1, f, p := tiles, flags[..], priv[..];
      TakeOver(pfn, order);
      TakeEnd(t0, t1, tiles, f0, p0, f, p, pfn, order, c);
    }

    /** The block of order c leaves its list and is cut down to the wanted order. */
    method CutFrom(pfn: nat, order: nat, c: nat)
      requires Ready() && IsBlock(tiles, pfn, c, Free) && order <= c < MAX_ORDER
      requires arena.lists[c] != [] && arena.lists[c][0] == pfn
      modifies this, arena, arena.next, arena.prev, nr_free, flags, priv
      ensures Valid() && IsBlock(tiles, pfn, order, Loose) && OnlyLoose(tiles, pfn)
      ensures pfn + Pow2(c) <= |old(tiles)| && Expanding(Paint(old(tiles), pfn, c, Loose), tiles, pfn, order, c)
      ensures TagsKept(tiles, old(flags[..]), old(priv[..]), flags[..], priv[..])
      ensures TakenLists(old(arena.lists), arena.lists, order, c, pfn)
      ensures arena.lists[MAX_ORDER..] == old(arena.lists[MAX_ORDER..])
    {
      hide Tagged, Listed, Counted, Threaded, Inv, Unlinked, ExpandedLists, TakenLists, Disjoint;
      hide TagsKept, OnlyLoose, Paint, Expanding, Settled, AllOf, IsBlock, Pow2;
      ghost var t0, l0 := tiles, arena.lists;
      LoosenedBlock(t0, pfn, c);
      ListsDisjoint();
      DelPageFromFreeArea(pfn, c);
      ghost var l1 := arena.lists;
      Expand(pfn, order, c);
      TakenEnd(l0, l1, arena.lists, order, c, pfn);
      ExpandingFacts(Paint(t0, pfn, c, Loose), tiles, pfn, order, c);
    }

    lemma ListsDisjoint()
      requires Valid()
      ensures Disjoint(arena.lists)
    {
    }

    /** set_page_order and PG_USED: the loose block becomes a live one. */
    method TakeOver(pfn: nat, order: nat)
      requires Valid() && IsBlock(tiles, pfn, order, Loose) && OnlyLoose(tiles, pfn)
      modifies this`tiles, flags, priv
      ensures pfn + Pow2(order) <= |old(tiles)| && tiles == Paint(old(tiles), pfn, order, Live)
      ensures Ready()
      ensures flags[..] == old(flags[..])[pfn := PG_USED] && priv[..] == old(priv[..])[pfn := order]
    {
      OffLists(pfn);
      assert TileAt(tiles, pfn);
      priv[pfn] := order;
      flags[pfn] := PG_USED;
      LooseTag(tiles, old(flags[..]), old(priv[..]), arena.lists, pfn, PG_USED, order);
      TakeInv(tiles, pfn, Live);
      NowSettled(tiles, pfn, Live);
      PaintTagged(tiles, flags[..], priv[..], pfn, Live);
      TakenListed(tiles, flags[..], arena.lists, pfn, Live);
      tiles := Paint(tiles, pfn, order, Live);
    }
  }

  // ---- the counters --------------------------------------------------------

  /** Frames accounted for by nr_free[0], ..., nr_free[o - 1]. */
  function Weighted(nr_free: seq<nat>, o: nat): nat
    requires o <= |nr_free|
  {
    if o == 0 then 0 else Weighted(nr_free, o - 1) + nr_free[o - 1] * Pow2(o - 1)
  }

  /** Free frames of order below o, and those of order o in the first j blocks of its list. */
  ghost function FreeBelow(t: seq<Tile>, lists: seq<seq<nat>>, o: nat, j: nat): set<nat>
    requires o < |lists| && j <= |lists[o]|
  {
    set i: nat | i < |t| && t[i].kind == Free
                 && (t[i].order < o || (t[i].order == o && t[i].head in lists[o][..j]))
  }

  ghost predicate From(h: nat, x: nat) {
    h <= x
  }

  ghost function Range(h: nat, n: nat): set<nat> {
    set x: nat | x < h + n && From(h, x)
  }

  lemma RangeSize(h: nat, n: nat)
    ensures |Range(h, n)| == n
  {
    if n == 0 {
      assert Range(h, 0) == {};
    } else {
      RangeSize(h, n - 1);
      assert Range(h, n) == Range(h, n - 1) + {h + n - 1};
    }
  }

  lemma {:induction false} CountBelow(t: seq<Tile>, flags: seq<nat>, lists: seq<seq<nat>>, nr_free: seq<nat>,
                                      managed: nat, o: nat, j: nat)
    requires Inv(t) && Listed(t, flags, lists) && Disjoint(lists) && Counted(lists, nr_free, managed)
    requires o < MAX_ORDER && j <= |lists[o]|
    ensures |FreeBelow(t, lists, o, j)| == Weighted(nr_free, o) + j * Pow2(o)
    decreases o, j
  {
    hide FreeBelow, Inv, Disjoint;
    if j > 0 {
      CountBelow(t, flags, lists, nr_free, managed, o, j - 1);
      ListedBlock(t, flags, lists, o, j - 1);
      LastOfList(t, lists, o, j);
      assert j * Pow2(o) == (j - 1) * Pow2(o) + Pow2(o);
    } else if o > 0 {
      CountBelow(t, flags, lists, nr_free, managed, o - 1, |lists[o - 1]|);
      NextOrder(t, flags, lists, o);
    } else {
      NothingBelow(t, lists);
    }
  }

  lemma ListedBlock(t: seq<Tile>, flags: seq<nat>, lists: seq<seq<nat>>, o: nat, j: nat)
    requires Listed(t, flags, lists) && o < MAX_ORDER && j < |lists[o]|
    ensures IsBlock(t, lists[o][j], o, Free)
  {
    assert lists[o][j] in lists[o] <==> IsBlock(t, lists[o][j], o, Free);
  }

  lemma NothingBelow(t: seq<Tile>, lists: seq<seq<nat>>)
    requires |lists| > 0
    ensures |FreeBelow(t, lists, 0, 0)| == 0
  {
    assert FreeBelow(t, lists, 0, 0) == {};
  }

  lemma NextOrder(t: seq<Tile>, flags: seq<nat>, lists: seq<seq<nat>>, o: nat)
    requires Inv(t) && Listed(t, flags, lists) && 0 < o < MAX_ORDER
    ensures FreeBelow(t, lists, o, 0) == FreeBelow(t, lists, o - 1, |lists[o - 1]|)
  {
    assert lists[o - 1][..|lists[o - 1]|] == lists[o - 1];
    forall i: nat | i < |t| && t[i].kind == Free && t[i].order == o - 1 ensures t[i].head in lists[o - 1] {
      assert TileAt(t, i);
      SameTile(t, i, t[i].head);
      assert t[i].head in lists[o - 1] <==> IsBlock(t, t[i].head, o - 1, Free);
    }
  }

  /** The j-th block of a list adds its own frames and no others. */
  lemma LastOfList(t: seq<Tile>, lists: seq<seq<nat>>, o: nat, j: nat)
    requires Inv(t) && Disjoint(lists) && o < |lists| && 0 < j <= |lists[o]|
    requires IsBlock(t, lists[o][j - 1], o, Free)
    ensures |FreeBelow(t, lists, o, j)| == |FreeBelow(t, lists, o, j - 1)| + Pow2(o)
  {
    var s := lists[o];
    var h := s[j - 1];
    assert TileAt(t, h);
    assert s[..j] == s[..j - 1] + [h];
    assert h !in s[..j - 1] by { NoRepeats(lists, o); }
    forall i: nat | i < |t| && t[i].kind == Free && t[i].head == h && t[i].order == o
      ensures i in Range(h, Pow2(o))
    {
      assert TileAt(t, i);
    }
    RangeSize(h, Pow2(o));
    var f, r := FreeBelow(t, lists, o, j - 1), Range(h, Pow2(o));
    assert FreeBelow(t, lists, o, j) == f + r && f !! r;
  }

  /** The per-order counts of the free areas add up to the number of free frames. */
  lemma CountsAreExact(z: Zone)
    requires z.Valid()
    ensures Weighted(z.nr_free[..], MAX_ORDER) == |FreeFrames(z.tiles)|
    ensures z.managed_pages == Sum(z.nr_free[..])
  {
    var t, lists := z.tiles, z.arena.lists;
    var o := MAX_ORDER - 1;
    CountBelow(t, z.flags[..], lists, z.nr_free[..], z.managed_pages, o, |lists[o]|);
    assert lists[o][..|lists[o]|] == lists[o];
    forall i: nat | i < |t| && t[i].kind == Free && t[i].order == o ensures t[i].head in lists[o] {
      assert TileAt(t, i);
      SameTile(t, i, t[i].head);
      assert t[i].head in lists[o] <==> IsBlock(t, t[i].head, o, Free);
    }
    forall i: nat | i in FreeFrames(t) ensures i in FreeBelow(t, lists, o, |lists[o]|) {
      assert TileAt(t, i);
    }
    assert FreeFrames(t) == FreeBelow(t, lists, o, |lists[o]|);
  }
}
