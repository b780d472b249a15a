// kmalloc and kfree: slab objects and page blocks in one physical memory.
module Kmem {
  import opened Bits
  import opened Tiling
  import opened Buddy
  import opened ListHead
  import opened Slab
  import opened Wrappers

  /** Words [word, word + count) of physical memory. */
  datatype Span = Span(word: nat, count: nat)

  ghost predicate Meet(a: Span, b: Span) {
    a.word < b.word + b.count && b.word < a.word + a.count
  }

  /** The state of every slab page: its cache, its chain, its place on the cache's partial list. */
  ghost predicate SlabOk(t: seq<Tile>, flags: seq<nat>, priv: seq<nat>, lists: seq<seq<nat>>,
                         m: seq<nat>, first: seq<nat>, chain: seq<seq<nat>>, s: nat)
    requires |t| == |flags| == |priv| == |first| == |chain| && |lists| == MAX_ORDER + NR_CACHES
  {
    SlabPage(t, flags, s) ==>
      && priv[s] < NR_CACHES
      && s in Partial(lists, priv[s])
      && Chained(m, s, priv[s], chain[s], first[s])
  }

  /** kmem_caches[c].node.partial */
  ghost function Partial(lists: seq<seq<nat>>, c: nat): seq<nat>
    requires MAX_ORDER + c < |lists|
  {
    lists[MAX_ORDER + c]
  }

  /** A partial list holds pages of its own cache only. */
  ghost predicate CacheList(priv: seq<nat>, list: seq<nat>, c: nat) {
    forall s: nat :: s in list ==> s < |priv| && priv[s] == c
  }

  ghost predicate SlabsOk(t: seq<Tile>, flags: seq<nat>, priv: seq<nat>, lists: seq<seq<nat>>,
                          m: seq<nat>, first: seq<nat>, chain: seq<seq<nat>>) {
    && |t| == |flags| == |priv| == |first| == |chain| && |lists| == MAX_ORDER + NR_CACHES
    && |m| == |t| * PAGE_WORDS && 8 * |m| <= PHYS_LIMIT
    && (forall s: nat :: s < |t| ==> SlabOk(t, flags, priv, lists, m, first, chain, s))
    && (forall c: nat :: c < NR_CACHES ==> CacheList(priv, Partial(lists, c), c))
  }

  /** Which span is in somebody's hands: a slot that is not on its page's chain, or a used block. */
  ghost predicate LiveAt(t: seq<Tile>, flags: seq<nat>, priv: seq<nat>, chain: seq<seq<nat>>, sp: Span)
    requires |t| == |flags| == |priv| == |chain|
  {
    var s := sp.word / PAGE_WORDS;
    s < |t| &&
    if SlabPage(t, flags, s) then
      priv[s] < NR_CACHES
      && exists k: nat :: k < Slots(priv[s]) && k !in chain[s] && sp == Span(SlotWord(s, priv[s], k), Pow2(priv[s]))
    else
      t[s].head == s && t[s].kind == Live && sp == Span(s * PAGE_WORDS, Pow2(t[s].order) * PAGE_WORDS)
  }

  ghost predicate LiveIs(t: seq<Tile>, flags: seq<nat>, priv: seq<nat>, chain: seq<seq<nat>>, live: set<Span>) {
    && |t| == |flags| == |priv| == |chain|
    && forall sp :: sp in live <==> LiveAt(t, flags, priv, chain, sp)
  }

  /** A live span lies inside the block of its first frame. */
  lemma LiveInTile(t: seq<Tile>, flags: seq<nat>, priv: seq<nat>, chain: seq<seq<nat>>, sp: Span)
    requires |t| == |flags| == |priv| == |chain| && Inv(t) && LiveAt(t, flags, priv, chain, sp)
    ensures var s := sp.word / PAGE_WORDS;
            && s < |t| && t[s].head == s && t[s].kind == Live
            && s * PAGE_WORDS <= sp.word && sp.count > 0
            && sp.word + sp.count <= (s + Pow2(t[s].order)) * PAGE_WORDS
            && (SlabPage(t, flags, s) ==> sp.word + sp.count <= s * PAGE_WORDS + PAGE_WORDS)
            && s + Pow2(t[s].order) <= |t|
  {
    var s := sp.word / PAGE_WORDS;
    assert TileAt(t, s);
    assert Pow2(0) == 1;
    if SlabPage(t, flags, s) {
      var k: nat :| k < Slots(priv[s]) && k !in chain[s] && sp == Span(SlotWord(s, priv[s], k), Pow2(priv[s]));
      SlotBounds(s, priv[s], k);
    }
  }

  /** Any two live spans are equal or have no word in common. */
  lemma LiveApart(t: seq<Tile>, flags: seq<nat>, priv: seq<nat>, chain: seq<seq<nat>>, a: Span, b: Span)
    requires |t| == |flags| == |priv| == |chain| && Inv(t)
    requires LiveAt(t, flags, priv, chain, a) && LiveAt(t, flags, priv, chain, b) && a != b
    ensures !Meet(a, b)
  {
    LiveInTile(t, flags, priv, chain, a);
    LiveInTile(t, flags, priv, chain, b);
    var s, r := a.word / PAGE_WORDS, b.word / PAGE_WORDS;
    if s == r {
      assert SlabPage(t, flags, s);
      var c := priv[s];
      var j: nat :| j < Slots(c) && j !in chain[s] && a == Span(SlotWord(s, c, j), Pow2(c));
      var k: nat :| k < Slots(c) && k !in chain[s] && b == Span(SlotWord(s, c, k), Pow2(c));
      if j < k { SlotsApart(s, c, j, k); } else { SlotsApart(s, c, k, j); }
    } else {
      HeadsApart(t, s, r);
    }
  }

  lemma HeadsApart(t: seq<Tile>, s: nat, r: nat)
    requires Inv(t) && s < |t| && r < |t| && t[s].head == s && t[r].head == r && s != r
    ensures s + Pow2(t[s].order) <= r || r + Pow2(t[r].order) <= s
  {
    assert TileAt(t, s) && TileAt(t, r);
  }

  // ---- what the buddy allocator does to slabs and live spans ---------------

  /** A block taken from or given to the buddy system leaves every slab page alone. */
  lemma SlabsUntouched(t: seq<Tile>, t': seq<Tile>, f: seq<nat>, f': seq<nat>, p: seq<nat>, p': seq<nat>,
                       lists: seq<seq<nat>>, lists': seq<seq<nat>>,
                       m: seq<nat>, first: seq<nat>, chain: seq<seq<nat>>, h: nat, k: nat)
    requires SlabsOk(t, f, p, lists, m, first, chain) && |t'| == |t| && SlabsElsewhere(t, t', f, f', h, k)
    requires Listed(t, f, lists) && |f'| == |p'| == |t'| && |lists'| == |lists| && lists'[MAX_ORDER..] == lists[MAX_ORDER..]
    requires forall i: nat :: i < |t| && t[i].kind == Live && f[i] == PG_slab && !(h <= i < h + Pow2(k)) ==>
               f'[i] == f[i] && p'[i] == p[i]
    ensures SlabsOk(t', f', p', lists', m, first, chain)
  {
    hide Chained, Slots;
    forall c: nat | c < NR_CACHES ensures Partial(lists', c) == Partial(lists, c) {
      assert lists'[MAX_ORDER + c] == lists'[MAX_ORDER..][c];
      assert lists[MAX_ORDER + c] == lists[MAX_ORDER..][c];
    }
    forall s: nat | s < |t'| ensures SlabOk(t', f', p', lists', m, first, chain, s) {
      assert SlabOk(t, f, p, lists, m, first, chain, s);
    }
    forall c: nat | c < NR_CACHES ensures CacheList(p', Partial(lists', c), c) {
      forall s: nat | s in Partial(lists, c) ensures s < |p'| && p'[s] == c {
        assert CacheList(p, Partial(lists, c), c);
        OnPartial(t, f, lists, c, s);
      }
    }
  }

  lemma OnPartial(t: seq<Tile>, f: seq<nat>, lists: seq<seq<nat>>, c: nat, s: nat)
    requires Listed(t, f, lists) && c < NR_CACHES && s in Partial(lists, c)
    ensures SlabPage(t, f, s)
  {
    assert s in lists[MAX_ORDER + c];
  }

  /** Slab pages before and after are the same pages, and none lies in [h, h + 2^k). */
  ghost predicate SlabsElsewhere(t: seq<Tile>, t': seq<Tile>, f: seq<nat>, f': seq<nat>, h: nat, k: nat) {
    && |f| == |t| == |t'| == |f'|
    && (forall i: nat :: i < |t| ==> (SlabPage(t, f, i) <==> SlabPage(t', f', i)))
    && (forall i: nat :: h <= i < h + Pow2(k) && i < |t| ==> !SlabPage(t, f, i))
  }

  /** An allocation from the buddy system adds one span, which was not live before. */
  lemma BlockAllocated(t: seq<Tile>, t': seq<Tile>, f: seq<nat>, f': seq<nat>, p: seq<nat>, p': seq<nat>,
                       chain: seq<seq<nat>>, live: set<Span>, h: nat, k: nat)
    requires AllocStep(t, t', h, k) && |p| == |f| == |t| == |chain| && TagsKept(t, f, p, f', p') && f'[h] == PG_USED
    requires LiveIs(t, f, p, chain, live)
    ensures SlabsElsewhere(t, t', f, f', h, k)
    ensures var sp := Span(h * PAGE_WORDS, Pow2(k) * PAGE_WORDS);
            sp !in live && LiveIs(t', f', p', chain, live + {sp})
  {
    var sp := Span(h * PAGE_WORDS, Pow2(k) * PAGE_WORDS);
    assert TileAt(t', h);
    TileHeads(t', h);
    assert h * PAGE_WORDS / PAGE_WORDS == h;
    forall q: Span ensures q in live + {sp} <==> LiveAt(t', f', p', chain, q) {
      var s := q.word / PAGE_WORDS;
      assert q in live <==> LiveAt(t, f, p, chain, q);
    }
    assert sp in live <==> LiveAt(t, f, p, chain, sp);
  }

  /** What a page allocation leaves of the heap's invariant. */
  lemma PagesTaken(t: seq<Tile>, t': seq<Tile>, f: seq<nat>, f': seq<nat>, p: seq<nat>, p': seq<nat>,
                   l: seq<seq<nat>>, l': seq<seq<nat>>, m: seq<nat>, first: seq<nat>, chain: seq<seq<nat>>,
                   live: set<Span>, h: nat, k: nat)
    requires SlabsOk(t, f, p, l, m, first, chain) && LiveIs(t, f, p, chain, live) && Listed(t, f, l)
    requires Took(t, t', l, l', k, h) && TagsKept(t, f, p, f', p') && h < |f'| && f'[h] == PG_USED
    requires |l'| == |l| && l'[MAX_ORDER..] == l[MAX_ORDER..]
    ensures SlabsOk(t', f', p', l', m, first, chain) && Moves(t, t') && IsBlock(t', h, k, Live)
    ensures var sp := Span(h * PAGE_WORDS, Pow2(k) * PAGE_WORDS);
            sp !in live && LiveIs(t', f', p', chain, live + {sp})
  {
    TookFacts(t, t', l, l', k, h);
    hide Took, AllocStep, SlabsElsewhere, SlabsOk, LiveIs, Listed, Pow2;
    BlockAllocated(t, t', f, f', p, p', chain, live, h, k);
    SlabsUntouched(t, t', f, f', p, p', l, l', m, first, chain, h, k);
  }

  /** What a page free leaves of it. */
  lemma PagesGiven(t: seq<Tile>, t': seq<Tile>, f: seq<nat>, f': seq<nat>, p: seq<nat>, p': seq<nat>,
                   l: seq<seq<nat>>, l': seq<seq<nat>>, m: seq<nat>, first: seq<nat>, chain: seq<seq<nat>>,
                   live: set<Span>, h: nat, k: nat)
    requires SlabsOk(t, f, p, l, m, first, chain) && LiveIs(t, f, p, chain, live) && Listed(t, f, l)
    requires Gave(t, t', l, l', k, h) && TagsKept(t', f, p, f', p') && h < |f| && f[h] == PG_USED
    requires |l'| == |l| && l'[MAX_ORDER..] == l[MAX_ORDER..]
    ensures SlabsOk(t', f', p', l', m, first, chain) && Moves(t, t')
    ensures LiveIs(t', f', p', chain, live - {Span(h * PAGE_WORDS, Pow2(k) * PAGE_WORDS)})
  {
    GaveFacts(t, t', l, l', k, h);
    BlockFreed(t, t', f, f', p, p', chain, live, h, k);
    SlabsKept(t, t', f, f', p, p', h, k);
    hide Gave, FreeStep, SlabsElsewhere, SlabsOk, LiveIs, Listed, TagsKept, Pow2;
    SlabsUntouched(t, t', f, f', p, p', l, l', m, first, chain, h, k);
  }

  lemma SlabsKept(t: seq<Tile>, t': seq<Tile>, f: seq<nat>, f': seq<nat>, p: seq<nat>, p': seq<nat>, h: nat, k: nat)
    requires FreeStep(t, t', h, k) && TagsKept(t', f, p, f', p') && |t| == |f|
    ensures forall i: nat :: i < |t| && t[i].kind == Live && f[i] == PG_slab && !(h <= i < h + Pow2(k)) ==>
              f'[i] == f[i] && p'[i] == p[i]
  {
  }

  lemma SameMoves(t: seq<Tile>)
    ensures Moves(t, t)
  {
  }

  lemma TookFacts(t: seq<Tile>, t': seq<Tile>, l: seq<seq<nat>>, l': seq<seq<nat>>, k: nat, h: nat)
    requires Took(t, t', l, l', k, h)
    ensures AllocStep(t, t', h, k) && Moves(t, t') && IsBlock(t', h, k, Live) && Inv(t)
  {
    assert Step(t, t', h, k);
  }

  lemma GaveFacts(t: seq<Tile>, t': seq<Tile>, l: seq<seq<nat>>, l': seq<seq<nat>>, k: nat, h: nat)
    requires Gave(t, t', l, l', k, h)
    ensures FreeStep(t, t', h, k) && Moves(t, t')
  {
    assert Step(t, t', h, k);
  }

  /** A free takes away exactly the span of its block. */
  lemma BlockFreed(t: seq<Tile>, t': seq<Tile>, f: seq<nat>, f': seq<nat>, p: seq<nat>, p': seq<nat>,
                   chain: seq<seq<nat>>, live: set<Span>, h: nat, k: nat)
    requires FreeStep(t, t', h, k) && |p| == |f| == |t| == |chain| && TagsKept(t', f, p, f', p') && f[h] == PG_USED
    requires LiveIs(t, f, p, chain, live)
    ensures SlabsElsewhere(t, t', f, f', h, k)
    ensures LiveIs(t', f', p', chain, live - {Span(h * PAGE_WORDS, Pow2(k) * PAGE_WORDS)})
  {
    var sp := Span(h * PAGE_WORDS, Pow2(k) * PAGE_WORDS);
    assert TileAt(t, h);
    TileHeads(t, h);
    assert h * PAGE_WORDS / PAGE_WORDS == h;
    forall q: Span ensures q in live - {sp} <==> LiveAt(t', f', p', chain, q) {
      var s := q.word / PAGE_WORDS;
      assert q in live <==> LiveAt(t, f, p, chain, q);
    }
  }

  /** Inside a block only its first frame is a head. */
  lemma TileHeads(t: seq<Tile>, h: nat)
    requires Tiled(t) && h < |t| && t[h].head == h
    ensures forall i: nat :: h <= i < h + Pow2(t[h].order) ==> i < |t| && t[i].head == h
  {
    assert TileAt(t, h);
  }

  // ---- what the slab allocator does to them --------------------------------

  /** Work on one slab page leaves every other page's chain alone. */
  lemma OnePage(t: seq<Tile>, f: seq<nat>, p: seq<nat>, lists: seq<seq<nat>>,
                m: seq<nat>, first: seq<nat>, chain: seq<seq<nat>>,
                m': seq<nat>, first': seq<nat>, chain': seq<seq<nat>>, s: nat)
    requires SlabsOk(t, f, p, lists, m, first, chain) && s < |t|
    requires |m'| == |m| && |first'| == |first| && |chain'| == |chain|
    requires forall i: nat :: i < |t| && i != s ==> chain'[i] == chain[i] && first'[i] == first[i]
    requires forall w: nat :: w < |m| && !(s * PAGE_WORDS <= w < s * PAGE_WORDS + PAGE_WORDS) ==> m'[w] == m[w]
    requires SlabOk(t, f, p, lists, m', first', chain', s)
    ensures SlabsOk(t, f, p, lists, m', first', chain')
  {
    hide Chained, Slots, SlabPage, Partial, CacheList;
    forall i: nat | i < |t| ensures SlabOk(t, f, p, lists, m', first', chain', i) {
      assert SlabOk(t, f, p, lists, m, first, chain, i);
      if i != s && SlabPage(t, f, i) {
        ChainElsewhere(m, m', i, p[i], chain[i], first[i]);
      }
    }
  }

  /** Taking the first free slot of page s: it was not live, now it is. */
  lemma SlotTaken(t: seq<Tile>, f: seq<nat>, p: seq<nat>, lists: seq<seq<nat>>, m: seq<nat>,
                  first: seq<nat>, chain: seq<seq<nat>>, live: set<Span>, s: nat)
    requires SlabsOk(t, f, p, lists, m, first, chain) && LiveIs(t, f, p, chain, live)
    requires s < |t| && SlabPage(t, f, s) && chain[s] != []
    ensures p[s] < NR_CACHES && s in Partial(lists, p[s]) && Chained(m, s, p[s], chain[s], first[s])
    ensures LinkOk(m, s, p[s], chain[s], 0)
    ensures var c, k := p[s], chain[s][0];
            var sp := Span(SlotWord(s, c, k), Pow2(c));
            && sp !in live && LiveIs(t, f, p, chain[s := chain[s][1..]], live + {sp})
            && SlabsOk(t, f, p, lists, m, first[s := ChainPtr(s, c, chain[s], 1)], chain[s := chain[s][1..]])
  {
    assert SlabOk(t, f, p, lists, m, first, chain, s);
    var c, k := p[s], chain[s][0];
    var chain' := chain[s := chain[s][1..]];
    PopChain(m, s, c, chain[s], first[s]);
    OnePage(t, f, p, lists, m, first, chain, m, first[s := ChainPtr(s, c, chain[s], 1)], chain', s);
    SlotGoesLive(t, f, p, chain, chain', live, s, k);
  }

  /** Slot k leaves the chain of page s, everything else stays. */
  lemma SlotGoesLive(t: seq<Tile>, f: seq<nat>, p: seq<nat>, chain: seq<seq<nat>>, chain': seq<seq<nat>>,
                     live: set<Span>, s: nat, k: nat)
    requires LiveIs(t, f, p, chain, live) && s < |t| && SlabPage(t, f, s) && p[s] < NR_CACHES && k < Slots(p[s])
    requires |chain'| == |chain| && forall i: nat :: i < |chain| && i != s ==> chain'[i] == chain[i]
    requires k in chain[s] && forall j: nat :: j in chain'[s] <==> j in chain[s] && j != k
    ensures var sp := Span(SlotWord(s, p[s], k), Pow2(p[s]));
            sp !in live && LiveIs(t, f, p, chain', live + {sp})
  {
    var c := p[s];
    var sp := Span(SlotWord(s, c, k), Pow2(c));
    SlotBounds(s, c, k);
    forall q: Span ensures q in live + {sp} <==> LiveAt(t, f, p, chain', q) {
      assert q in live <==> LiveAt(t, f, p, chain, q);
      if q.word / PAGE_WORDS == s { SlotLive(t, f, p, chain, chain', s, k, q); }
    }
    assert sp in live <==> LiveAt(t, f, p, chain, sp);
    SlotLive(t, f, p, chain, chain', s, k, sp);
  }

  /** On one slab page: liveness with slot k on the chain and with it off the chain. */
  lemma SlotLive(t: seq<Tile>, f: seq<nat>, p: seq<nat>, on: seq<seq<nat>>, off: seq<seq<nat>>, s: nat, k: nat, q: Span)
    requires |t| == |f| == |p| == |on| == |off| && s < |t| && SlabPage(t, f, s) && p[s] < NR_CACHES && k < Slots(p[s])
    requires k in on[s] && forall j: nat :: j in off[s] <==> j in on[s] && j != k
    requires q.word / PAGE_WORDS == s
    ensures var sp := Span(SlotWord(s, p[s], k), Pow2(p[s]));
            LiveAt(t, f, p, off, q) <==> LiveAt(t, f, p, on, q) || q == sp
    ensures !LiveAt(t, f, p, on, Span(SlotWord(s, p[s], k), Pow2(p[s])))
  {
    var c := p[s];
    var sp := Span(SlotWord(s, c, k), Pow2(c));
    SlotBounds(s, c, k);
    if LiveAt(t, f, p, off, q) {
      var j: nat :| j < Slots(c) && j !in off[s] && q == Span(SlotWord(s, c, j), Pow2(c));
      assert j == k || j !in on[s];
    }
    if LiveAt(t, f, p, on, q) {
      var j: nat :| j < Slots(c) && j !in on[s] && q == Span(SlotWord(s, c, j), Pow2(c));
      assert j !in off[s];
    }
    if q == sp { assert k !in off[s]; }
    if LiveAt(t, f, p, on, sp) {
      var j: nat :| j < Slots(c) && j !in on[s] && sp == Span(SlotWord(s, c, j), Pow2(c));
      assert j != k;
      if j < k { SlotsApart(s, c, j, k); } else { SlotsApart(s, c, k, j); }
      assert false;
    }
  }

  /** Giving slot k of page s back. */
  lemma SlotGiven(t: seq<Tile>, f: seq<nat>, p: seq<nat>, lists: seq<seq<nat>>, m: seq<nat>,
                  first: seq<nat>, chain: seq<seq<nat>>, live: set<Span>, s: nat, k: nat)
    requires SlabsOk(t, f, p, lists, m, first, chain) && LiveIs(t, f, p, chain, live)
    requires s < |t| && SlabPage(t, f, s) && p[s] < NR_CACHES && k < Slots(p[s]) && k !in chain[s]
    ensures var c := p[s];
            var w := SlotWord(s, c, k);
            && w < |m|
            && LiveIs(t, f, p, chain[s := [k] + chain[s]], live - {Span(w, Pow2(c))})
            && SlabsOk(t, f, p, lists, m[w := first[s]], first[s := SlotPtr(s, c, k)], chain[s := [k] + chain[s]])
  {
    assert SlabOk(t, f, p, lists, m, first, chain, s);
    var c := p[s];
    var w := SlotWord(s, c, k);
    var chain' := chain[s := [k] + chain[s]];
    SlotBounds(s, c, k);
    PushChain(m, s, c, chain[s], first[s], k);
    OnePage(t, f, p, lists, m, first, chain, m[w := first[s]], first[s := SlotPtr(s, c, k)], chain', s);
    var sp := Span(w, Pow2(c));
    forall q: Span ensures q in live - {sp} <==> LiveAt(t, f, p, chain', q) {
      assert q in live <==> LiveAt(t, f, p, chain, q);
      if q.word / PAGE_WORDS == s { SlotLive(t, f, p, chain', chain, s, k, q); }
    }
  }

  /** Owners may write into their spans: no free pointer is there. */
  lemma OwnerWrites(t: seq<Tile>, f: seq<nat>, p: seq<nat>, lists: seq<seq<nat>>, m: seq<nat>,
                    first: seq<nat>, chain: seq<seq<nat>>, sp: Span, w: nat, v: nat)
    requires SlabsOk(t, f, p, lists, m, first, chain) && Inv(t) && LiveAt(t, f, p, chain, sp)
    requires sp.word <= w < sp.word + sp.count
    ensures w < |m| && SlabsOk(t, f, p, lists, m[w := v], first, chain)
  {
    LiveInTile(t, f, p, chain, sp);
    var s := sp.word / PAGE_WORDS;
    var m' := m[w := v];
    forall i: nat | i < |t| ensures SlabOk(t, f, p, lists, m', first, chain, i) {
      assert SlabOk(t, f, p, lists, m, first, chain, i);
      if SlabPage(t, f, i) {
        if i == s {
          var k: nat :| k < Slots(p[s]) && k !in chain[s] && sp == Span(SlotWord(s, p[s], k), Pow2(p[s]));
          ChainLiveWrite(m, s, p[s], chain[s], first[s], k, w, v);
        } else {
          HeadsApart(t, s, i);
          ChainElsewhere(m, m', i, p[i], chain[i], first[i]);
        }
      }
    }
  }

  /** A fresh slab page: all of its slots are free, in ascending order. */
  ghost function AllSlots(c: nat): seq<nat>
    requires c < NR_CACHES
  {
    seq(Slots(c), i requires 0 <= i < Slots(c) => i)
  }

  lemma NewSlab(t: seq<Tile>, f: seq<nat>, p: seq<nat>, lists: seq<seq<nat>>, m: seq<nat>,
                first: seq<nat>, chain: seq<seq<nat>>, live: set<Span>, s: nat, c: nat, m': seq<nat>)
    requires SlabsOk(t, f, p, lists, m, first, chain) && LiveIs(t, f, p, chain, live) && Listed(t, f, lists)
    requires IsBlock(t, s, 0, Live) && f[s] == PG_USED && c < NR_CACHES
    requires |m'| == |m| && Chained(m', s, c, AllSlots(c), SlotPtr(s, c, 0))
    requires forall w: nat :: w < |m| && !(s * PAGE_WORDS <= w < s * PAGE_WORDS + PAGE_WORDS) ==> m'[w] == m[w]
    ensures var f', p' := f[s := PG_slab], p[s := c];
            var lists' := lists[MAX_ORDER + c := [s] + lists[MAX_ORDER + c]];
            && SlabsOk(t, f', p', lists', m', first[s := SlotPtr(s, c, 0)], chain[s := AllSlots(c)])
            && LiveIs(t, f', p', chain[s := AllSlots(c)], live - {Span(s * PAGE_WORDS, PAGE_WORDS)})
  {
    var f', p' := f[s := PG_slab], p[s := c];
    var lists' := lists[MAX_ORDER + c := [s] + lists[MAX_ORDER + c]];
    var first', chain' := first[s := SlotPtr(s, c, 0)], chain[s := AllSlots(c)];
    forall i: nat | i < |t| ensures SlabOk(t, f', p', lists', m', first', chain', i) {
      assert SlabOk(t, f, p, lists, m, first, chain, i);
      if i != s && SlabPage(t, f, i) {
        ChainElsewhere(m, m', i, p[i], chain[i], first[i]);
      }
    }
    forall d: nat | d < NR_CACHES ensures CacheList(p', Partial(lists', d), d) {
      assert CacheList(p, Partial(lists, d), d);
      if s in Partial(lists, d) { OnPartial(t, f, lists, d, s); }
    }
    NewSlabLive(t, f, p, chain, live, s, c);
  }

  /** The same, with what it means for everybody else's memory. */
  lemma SlabMade(t: seq<Tile>, f: seq<nat>, p: seq<nat>, lists: seq<seq<nat>>, m: seq<nat>,
                 first: seq<nat>, chain: seq<seq<nat>>, others: set<Span>, s: nat, c: nat, m': seq<nat>)
    requires Inv(t) && Span(s * PAGE_WORDS, PAGE_WORDS) !in others
    requires LiveIs(t, f, p, chain, others + {Span(s * PAGE_WORDS, PAGE_WORDS)})
    requires SlabsOk(t, f, p, lists, m, first, chain) && Listed(t, f, lists)
    requires IsBlock(t, s, 0, Live) && f[s] == PG_USED && c < NR_CACHES
    requires |m'| == |m| && Chained(m', s, c, AllSlots(c), SlotPtr(s, c, 0))
    requires forall w: nat :: w < |m| && !(s * PAGE_WORDS <= w < s * PAGE_WORDS + PAGE_WORDS) ==> m'[w] == m[w]
    ensures var f', p' := f[s := PG_slab], p[s := c];
            var lists' := lists[MAX_ORDER + c := [s] + lists[MAX_ORDER + c]];
            && SlabsOk(t, f', p', lists', m', first[s := SlotPtr(s, c, 0)], chain[s := AllSlots(c)])
            && LiveIs(t, f', p', chain[s := AllSlots(c)], others)
    ensures Kept(others, m, m')
  {
    var sp := Span(s * PAGE_WORDS, PAGE_WORDS);
    FreshUnmet(t, f, p, chain, others, sp);
    NewSlab(t, f, p, lists, m, first, chain, others + {sp}, s, c, m');
    assert others + {sp} - {sp} == others;
    hide SlabsOk, LiveIs, Listed, Inv, Chained;
    KeptOutside(others, m, m', sp);
  }

  lemma NewSlabLive(t: seq<Tile>, f: seq<nat>, p: seq<nat>, chain: seq<seq<nat>>, live: set<Span>, s: nat, c: nat)
    requires LiveIs(t, f, p, chain, live) && IsBlock(t, s, 0, Live) && f[s] == PG_USED && c < NR_CACHES
    ensures LiveIs(t, f[s := PG_slab], p[s := c], chain[s := AllSlots(c)], live - {Span(s * PAGE_WORDS, PAGE_WORDS)})
  {
    var f', p', chain' := f[s := PG_slab], p[s := c], chain[s := AllSlots(c)];
    var sp := Span(s * PAGE_WORDS, PAGE_WORDS);
    assert s * PAGE_WORDS / PAGE_WORDS == s && Pow2(0) == 1;
    forall q: Span ensures q in live - {sp} <==> LiveAt(t, f', p', chain', q) {
      assert q in live <==> LiveAt(t, f, p, chain, q);
      if q.word / PAGE_WORDS == s {
        forall k: nat | k < Slots(c) ensures k in chain'[s] { assert chain'[s][k] == k; }
      }
    }
  }

  // ---- which object --------------------------------------------------------

  /** Page s is the first on the list that has a free slot. */
  ghost predicate FirstWithRoom(list: seq<nat>, chain: seq<seq<nat>>, s: nat) {
    exists i: nat ::
      i < |list| && list[i] == s && s < |chain| && chain[s] != [] && FullBefore(list, chain, i)
  }

  ghost predicate FullBefore(list: seq<nat>, chain: seq<seq<nat>>, i: nat) {
    forall j: nat :: j < i && j < |list| ==> list[j] < |chain| && chain[list[j]] == []
  }

  ghost function SlotSpan(s: nat, c: nat, k: nat): Span {
    Span(SlotWord(s, c, k), Pow2(c))
  }

  /** A new slab page s of cache c: the oldest block of the smallest order gives the page, and it goes to the front
      of the cache's partial list. */
  ghost predicate TookSlab(t: seq<Tile>, t': seq<Tile>, l: seq<seq<nat>>, l': seq<seq<nat>>, c: nat, s: nat) {
    exists m: seq<seq<nat>> :: Took(t, t', l, m, 0, s) && MAX_ORDER + c < |m|
                               && l' == m[MAX_ORDER + c := [s] + m[MAX_ORDER + c]]
  }

  /** Where an object of cache c comes from: the first slab with room, and nothing else changes; only when every slab
      is full, slot 0 of a new one. */
  ghost predicate FromSlab(c: nat, t: seq<Tile>, t': seq<Tile>, l: seq<seq<nat>>, l': seq<seq<nat>>,
                           chain: seq<seq<nat>>, chain': seq<seq<nat>>, sp: Span)
    requires c < NR_CACHES && MAX_ORDER + c < |l|
  {
    var list := l[MAX_ORDER + c];
    if exists s: nat :: FirstWithRoom(list, chain, s) then
      t' == t && l' == l
      && exists s: nat :: FirstWithRoom(list, chain, s)
                          && sp == SlotSpan(s, c, chain[s][0]) && chain' == chain[s := chain[s][1..]]
    else
      exists s: nat :: TookSlab(t, t', l, l', c, s) && s < |chain|
                       && sp == SlotSpan(s, c, 0) && chain' == chain[s := AllSlots(c)[1..]]
  }

  /** The slot that was sp is the first free slot of page s now. */
  ghost predicate Pushed(priv: seq<nat>, chain: seq<seq<nat>>, chain': seq<seq<nat>>, s: nat, sp: Span)
    requires s < |chain|
  {
    s < |priv| && exists k: nat :: sp == SlotSpan(s, priv[s], k) && chain' == chain[s := [k] + chain[s]]
  }

  /** There is one such page at most. */
  lemma RoomUnique(list: seq<nat>, chain: seq<seq<nat>>, s: nat, r: nat)
    requires FirstWithRoom(list, chain, s) && FirstWithRoom(list, chain, r)
    ensures s == r
  {
  }

  lemma FromRoom(c: nat, t: seq<Tile>, l: seq<seq<nat>>, chain: seq<seq<nat>>, s: nat)
    requires c < NR_CACHES && MAX_ORDER + c < |l| && FirstWithRoom(l[MAX_ORDER + c], chain, s)
    ensures s < |chain| && chain[s] != []
    ensures FromSlab(c, t, t, l, l, chain, chain[s := chain[s][1..]], SlotSpan(s, c, chain[s][0]))
  {
  }

  lemma FromNew(c: nat, t: seq<Tile>, t': seq<Tile>, l: seq<seq<nat>>, l': seq<seq<nat>>, chain: seq<seq<nat>>, s: nat)
    requires c < NR_CACHES && MAX_ORDER + c < |l| && FullBefore(l[MAX_ORDER + c], chain, |l[MAX_ORDER + c]|)
    requires TookSlab(t, t', l, l', c, s) && s < |chain|
    ensures Slots(c) > 0
    ensures FromSlab(c, t, t', l, l', chain, chain[s := AllSlots(c)[1..]], SlotSpan(s, c, 0))
  {
    hide TookSlab;
  }

  /** The two objects allocated first from a cache without room are neighbours: one page serves both. */
  lemma NextSlot(c: nat, t: seq<Tile>, t1: seq<Tile>, t2: seq<Tile>, l: seq<seq<nat>>, l1: seq<seq<nat>>,
                 l2: seq<seq<nat>>, ch: seq<seq<nat>>, ch1: seq<seq<nat>>, ch2: seq<seq<nat>>, a: Span, b: Span)
    requires c < NR_CACHES && MAX_ORDER + c < |l| && MAX_ORDER + c < |l1|
    requires FullBefore(l[MAX_ORDER + c], ch, |l[MAX_ORDER + c]|)
    requires FromSlab(c, t, t1, l, l1, ch, ch1, a) && FromSlab(c, t1, t2, l1, l2, ch1, ch2, b)
    ensures t2 == t1 && l2 == l1
    ensures b == Span(a.word + Pow2(c), a.count)
  {
    hide Took;
    var s: nat :| TookSlab(t, t1, l, l1, c, s) && s < |ch| && a == SlotSpan(s, c, 0) && ch1 == ch[s := AllSlots(c)[1..]];
    var list := l1[MAX_ORDER + c];
    Pow2Mono(1, 9 - c);
    assert list[0] == s && ch1[s][0] == 1;
    assert FullBefore(list, ch1, 0);
    assert FirstWithRoom(list, ch1, s);
  }

  /** A freed object is the next one its page hands out, and then the free list is what it was. */
  lemma FreedIsNext(c: nat, p: seq<nat>, t: seq<Tile>, t': seq<Tile>, l: seq<seq<nat>>, l': seq<seq<nat>>,
                    ch: seq<seq<nat>>, ch1: seq<seq<nat>>, ch2: seq<seq<nat>>, s: nat, a: Span, b: Span)
    requires c < NR_CACHES && MAX_ORDER + c < |l| && s < |ch| && s < |p| && p[s] == c
    requires Pushed(p, ch, ch1, s, a) && FirstWithRoom(l[MAX_ORDER + c], ch1, s)
    requires FromSlab(c, t, t', l, l', ch1, ch2, b)
    ensures b == a && ch2 == ch && t' == t && l' == l
  {
    hide TookSlab;
    var k: nat :| a == SlotSpan(s, c, k) && ch1 == ch[s := [k] + ch[s]];
    var r: nat :| FirstWithRoom(l[MAX_ORDER + c], ch1, r) && b == SlotSpan(r, c, ch1[r][0]) && ch2 == ch1[r := ch1[r][1..]];
    RoomUnique(l[MAX_ORDER + c], ch1, s, r);
    assert ch1[s][1..] == ch[s];
    assert ch2 == ch;
  }

  /** An object freed right after its allocation from a page with room leaves the free list as it was. */
  lemma TakenAndFreed(c: nat, p: seq<nat>, l: seq<seq<nat>>, t: seq<Tile>, t': seq<Tile>, l': seq<seq<nat>>,
                      ch: seq<seq<nat>>, ch1: seq<seq<nat>>, ch2: seq<seq<nat>>, s: nat, a: Span)
    requires c < NR_CACHES && MAX_ORDER + c < |l| && s < |ch| && s < |p| && p[s] == c
    requires FirstWithRoom(l[MAX_ORDER + c], ch, s) && FromSlab(c, t, t', l, l', ch, ch1, a)
    requires s < |ch1| && Pushed(p, ch1, ch2, s, a)
    ensures ch2 == ch
  {
    hide TookSlab, SlotWord;
    var r: nat :| FirstWithRoom(l[MAX_ORDER + c], ch, r) && a == SlotSpan(r, c, ch[r][0]) && ch1 == ch[r := ch[r][1..]];
    RoomUnique(l[MAX_ORDER + c], ch, s, r);
    FromRoom(c, t, l, ch, s);
    var k: nat :| a == SlotSpan(s, c, k) && ch2 == ch1[s := [k] + ch1[s]];
    SameSlotWord(s, c, k, ch[s][0]);
    assert [k] + ch[s][1..] == ch[s];
    assert ch2 == ch;
  }

  lemma SameSlotWord(s: nat, c: nat, k: nat, j: nat)
    requires SlotWord(s, c, k) == SlotWord(s, c, j)
    ensures k == j
  {
    assert k * Pow2(c) == j * Pow2(c);
    DivUnique(k * Pow2(c), Pow2(c), k, 0);
    DivUnique(j * Pow2(c), Pow2(c), j, 0);
  }

  // ---- kmalloc's order -----------------------------------------------------

  /** The order kmalloc asks for. */
  function OrderOf(size: nat): nat {
    if size <= 4096 then 0 else 1 + OrderOf(size / 2)
  }

  /** It finds the least k with size >> k <= 4096. */
  lemma {:induction false} OrderIsLeast(size: nat)
    ensures Shr(size, OrderOf(size)) <= 4096
    ensures forall k: nat :: k < OrderOf(size) ==> Shr(size, k) > 4096
  {
    assert Pow2(0) == 1;
    if size > 4096 {
      OrderIsLeast(size / 2);
      Halve(size, OrderOf(size));
      forall k: nat | k < OrderOf(size) ensures Shr(size, k) > 4096 {
        if k > 0 { Halve(size, k); assert Shr(size / 2, k - 1) > 4096; }
      }
    }
  }

  /** Sizes the loop cuts short: past a power of two by less than one part in 4096. */
  ghost predicate CutShort(size: nat) {
    exists j: nat :: Shl(4096, j) < size < Shl(4097, j)
  }

  /** The block kmalloc asks for covers the request exactly when the size is not cut short. */
  lemma OrderCovers(size: nat)
    ensures size <= Shl(4096, OrderOf(size)) <==> !CutShort(size)
  {
    var k := OrderOf(size);
    OrderIsLeast(size);
    var d := Pow2(k);
    assert size == size / d * d + size % d;
    if size > 4096 * d {
      MulMono(size / d, 4096, d);
      assert size < 4097 * d;
      assert Shl(4096, k) < size < Shl(4097, k);
    }
    if j: nat :| Shl(4096, j) < size < Shl(4097, j) {
      var e := Pow2(j);
      assert 4097 * e == 4096 * e + e;
      DivUnique(size, e, 4096, size - 4096 * e);
      assert Shr(size, j) <= 4096;
      ShiftMono(size, k, j);
    }
  }

  /** Only the least shift leaves a value of at most 4096 for a size above 4096 << j. */
  lemma ShiftMono(size: nat, k: nat, j: nat)
    requires k <= j && Shr(size, k) <= 4096 && Shl(4096, j) < size
    ensures k == j
  {
    var d := Pow2(k);
    assert (size / d + 1) * d == size / d * d + d;
    MulMono(size / d + 1, 4097, d);
    if k < j { Pow2Mono(k + 1, j); }
  }

  /** A size that is cut short and still gets a block is no multiple of the page size. */
  lemma CutShortOdd(size: nat)
    requires CutShort(size) && OrderOf(size) < MAX_ORDER
    ensures size % 4096 != 0
  {
    OrderIsLeast(size);
    var j: nat :| Shl(4096, j) < size < Shl(4097, j);
    var e := Pow2(j);
    assert 4097 * e == 4096 * e + e;
    DivUnique(size, e, 4096, size - 4096 * e);
    assert Shr(size, j) <= 4096;
    ShiftMono(size, OrderOf(size), j);
    Pow2Mono(j, MAX_ORDER - 1);
    assert Pow2(9) == 512;
    DivUnique(size, 4096, e, size - 4096 * e);
  }

  /** It happens: a request of 8193 bytes gets two pages. */
  lemma CutShortExample()
    ensures CutShort(8193) && OrderOf(8193) == 1 && Shl(4096, OrderOf(8193)) == 8192
  {
    assert Pow2(1) == 2 * Pow2(0) == 2;
    assert Shl(4096, 1) < 8193 < Shl(4097, 1);
    assert OrderOf(8193) == 1 + OrderOf(4096);
  }

  /** Page multiples up to the largest block are covered. */
  lemma PageMultipleCovered(size: nat)
    requires size % 4096 == 0 && OrderOf(size) < MAX_ORDER
    ensures size <= Shl(4096, OrderOf(size))
  {
    OrderCovers(size);
    if CutShort(size) { CutShortOdd(size); }
  }

  /** The smallest cache whose objects hold `size` bytes. */
  ghost predicate IsCache(c: nat, size: nat) {
    c < NR_CACHES && size <= 8 * Pow2(c) && forall i: nat :: i < c ==> size > 8 * Pow2(i)
  }

  // ---- the allocator -------------------------------------------------------

  /** Every word in anybody's hands reads as before. */
  ghost predicate Kept(live: set<Span>, m: seq<nat>, m': seq<nat>) {
    |m'| == |m| && forall sp, w: nat :: sp in live && sp.word <= w < sp.word + sp.count && w < |m| ==> m'[w] == m[w]
  }

  class Heap {
    const zone: Zone
    const mem: array<nat>
    const freelist: array<nat>
    ghost var chain: seq<seq<nat>>
    ghost var live: set<Span>

    ghost function Repr(): set<object> {
      {this, zone, zone.flags, zone.priv, zone.nr_free, zone.arena, zone.arena.next, zone.arena.prev, mem, freelist}
    }

    ghost predicate Valid()
      reads Repr()
    {
      && mem != freelist && mem !in {zone.flags, zone.priv, zone.nr_free} && freelist !in {zone.flags, zone.priv, zone.nr_free}
      && mem as object != zone.arena.next && mem as object != zone.arena.prev
      && freelist as object != zone.arena.next && freelist as object != zone.arena.prev
      && zone.Ready()
      && SlabsOk(zone.tiles, zone.flags[..], zone.priv[..], zone.arena.lists, mem[..], freelist[..], chain)
      && LiveIs(zone.tiles, zone.flags[..], zone.priv[..], chain, live)
    }

    /** All of memory belongs to the buddy system or to nobody; no slab exists yet. */
    constructor (z: Zone)
      requires z.Ready() && |z.tiles| * PAGE_WORDS * 8 <= PHYS_LIMIT
      requires forall i: nat :: i < |z.tiles| ==> z.tiles[i].kind != Live
      requires forall c: nat :: c < NR_CACHES ==> Partial(z.arena.lists, c) == []
      ensures Valid() && zone == z && fresh(mem) && fresh(freelist) && live == {}
    {
      zone := z;
      mem := new nat[z.flags.Length * PAGE_WORDS];
      freelist := new nat[z.flags.Length];
      chain := seq(|z.tiles|, _ => []);
      live := {};
    }

    /** Live spans never overlap. */
    lemma LiveDisjoint(a: Span, b: Span)
      requires Valid() && a in live && b in live && a != b
      ensures !Meet(a, b)
    {
      LiveApart(zone.tiles, zone.flags[..], zone.priv[..], chain, a, b);
    }

    lemma LiveInMemory(sp: Span)
      requires Valid() && sp in live
      ensures sp.count > 0 && sp.word + sp.count <= mem.Length
    {
      LiveInTile(zone.tiles, zone.flags[..], zone.priv[..], chain, sp);
      var s := sp.word / PAGE_WORDS;
      MulMono(s + Pow2(zone.tiles[s].order), |zone.tiles|, PAGE_WORDS);
    }

    /** Every frame of a live span belongs to a block in use. */
    lemma LiveFrame(sp: Span, w: nat)
      requires Valid() && sp in live && sp.word <= w < sp.word + sp.count
      ensures w / PAGE_WORDS < |zone.tiles| && zone.tiles[w / PAGE_WORDS].kind == Live
    {
      var t, s, f := zone.tiles, sp.word / PAGE_WORDS, w / PAGE_WORDS;
      LiveInTile(t, zone.flags[..], zone.priv[..], chain, sp);
      assert s <= f < s + Pow2(t[s].order);
      SameTile(t, s, f);
    }

    /** Owners read and write their own spans. */
    method Store(w: nat, v: nat, ghost sp: Span)
      requires Valid() && sp in live && sp.word <= w < sp.word + sp.count
      modifies mem
      ensures w < mem.Length && mem[..] == old(mem[..])[w := v]
      ensures Valid()
    {
      LiveInMemory(sp);
      OwnerWrites(zone.tiles, zone.flags[..], zone.priv[..], zone.arena.lists, mem[..], freelist[..], chain, sp, w, v);
      mem[w] := v;
      assert mem[..] == old(mem[..])[w := v];
    }

    /** The buddy system has no block of this order to give. */
    ghost predicate NoBlock(order: nat)
      reads zone
    {
      order >= MAX_ORDER || !exists h: nat :: FreeRun(zone.tiles, h, order)
    }

    /** Cache c has no free slot, and there is no page for another slab. */
    ghost predicate NoSlot(c: nat)
      reads this, zone, zone.flags, zone.priv
      requires |chain| == |zone.tiles| == zone.flags.Length == zone.priv.Length
    {
      && NoBlock(0)
      && forall s: nat :: s < |chain| && SlabPage(zone.tiles, zone.flags[..], s) && zone.priv[s] == c ==> chain[s] == []
    }

    /** What stops kmalloc(size). */
    ghost predicate OutOfMemory(size: nat)
      reads this, zone, zone.flags, zone.priv
      requires |chain| == |zone.tiles| == zone.flags.Length == zone.priv.Length
    {
      if size >= 4096 then NoBlock(OrderOf(size)) else forall c: nat :: IsCache(c, size) ==> NoSlot(c)
    }

    /** __alloc_pages */
    method AllocPages(order: nat) returns (page: Option<nat>)
      requires Valid()
      modifies this, zone, zone.flags, zone.priv, zone.nr_free, zone.arena, zone.arena.next, zone.arena.prev
      ensures Valid() && chain == old(chain)
      ensures page.None? <==> old(NoBlock(order))
      ensures page.None? ==> live == old(live) && NoBlock(order)
      ensures Moves(old(zone.tiles), zone.tiles)
      ensures page.None? ==> zone.tiles == old(zone.tiles) && zone.arena.lists == old(zone.arena.lists)
      ensures page.Some? ==> Took(old(zone.tiles), zone.tiles, old(zone.arena.lists), zone.arena.lists, order, page.value)
      ensures page.Some? ==> var sp := Span(page.value * PAGE_WORDS, Pow2(order) * PAGE_WORDS);
                             sp !in old(live) && live == old(live) + {sp}
      ensures page.Some? ==> IsBlock(zone.tiles, page.value, order, Live) && zone.flags[page.value] == PG_USED
    {
      hide SlabsOk, LiveIs, Tagged, Listed, Counted, Inv, Threaded, Took, Moves, TagsKept, IsBlock, Pow2;
      ghost var t, f, p, l := zone.tiles, zone.flags[..], zone.priv[..], zone.arena.lists;
      page := zone.RmqueueSmallest(order);
      if page.Some? {
        PagesTaken(t, zone.tiles, f, zone.flags[..], p, zone.priv[..], l, zone.arena.lists, mem[..], freelist[..], chain, live,
                   page.value, order);
        live := live + {Span(page.value * PAGE_WORDS, Pow2(order) * PAGE_WORDS)};
      } else {
        SameMoves(t);
      }
    }

    /** Tag a used page as a slab of cache c and put it at the front of the cache's partial list. */
    method TagSlab(pfn: nat, c: nat)
      requires zone.Ready() && IsBlock(zone.tiles, pfn, 0, Live) && zone.flags[pfn] == PG_USED && c < NR_CACHES
      modifies zone.flags, zone.priv, zone.arena, zone.arena.next, zone.arena.prev
      ensures zone.Ready() && zone.tiles == old(zone.tiles)
      ensures zone.flags[..] == old(zone.flags[..])[pfn := PG_slab] && zone.priv[..] == old(zone.priv[..])[pfn := c]
      ensures zone.arena.lists == old(zone.arena.lists)[MAX_ORDER + c := [pfn] + old(zone.arena.lists)[MAX_ORDER + c]]
    {
      zone.OffLists(pfn);
      TagSlabOk(zone.tiles, zone.flags[..], zone.priv[..], zone.arena.lists, pfn, c);
      zone.flags[pfn] := PG_slab;
      zone.arena.InitNode(pfn);
      zone.arena.ListAdd(pfn, MAX_ORDER + c);
      zone.priv[pfn] := c;
      assert zone.flags[..] == old(zone.flags[..])[pfn := PG_slab] && zone.priv[..] == old(zone.priv[..])[pfn := c];
    }

    /** Thread the free pointers of a fresh slab through its slots. */
    method ThreadSlots(s: nat, c: nat)
      requires c < NR_CACHES && s * PAGE_WORDS + PAGE_WORDS <= mem.Length && 8 * mem.Length <= PHYS_LIMIT
      modifies mem
      ensures Chained(mem[..], s, c, AllSlots(c), SlotPtr(s, c, 0))
      ensures forall w: nat :: w < mem.Length && !(s * PAGE_WORDS <= w < s * PAGE_WORDS + PAGE_WORDS) ==>
                mem[w] == old(mem[w])
    {
      hide And, Or, Pow2, PhysToVirt, VirtToPhys;
      var nrObjects := Slots(c);
      ghost var ch := AllSlots(c);
      var i: nat := 0;
      SlotAddress(s, c, 0, mem.Length);
      var p := SlotPtr(s, c, 0);
      while i < nrObjects - 1
        invariant i <= nrObjects - 1 && p == SlotPtr(s, c, i)
        invariant forall j: nat :: j < i ==> LinkOk(mem[..], s, c, ch, j)
        invariant forall w: nat :: w < mem.Length && !(s * PAGE_WORDS <= w < s * PAGE_WORDS + PAGE_WORDS) ==>
                    mem[w] == old(mem[w])
      {
        SlotAddress(s, c, i, mem.Length);
        SlotAddress(s, c, i + 1, mem.Length);
        var next := p + 8 * Pow2(c);
        ghost var m := mem[..];
        mem[VirtToPhys(p) / 8] := next;
        forall j: nat | j < i + 1 ensures LinkOk(mem[..], s, c, ch, j) {
          if j < i { assert LinkOk(m, s, c, ch, j); SlotsApart(s, c, j, i); }
        }
        p := next;
        i := i + 1;
      }
      SlotAddress(s, c, i, mem.Length);
      ghost var m := mem[..];
      mem[VirtToPhys(p) / 8] := 0;
      forall j: nat | j < |ch| ensures LinkOk(mem[..], s, c, ch, j) {
        if j < i { assert LinkOk(m, s, c, ch, j); SlotsApart(s, c, j, i); }
      }
    }

    /** allocate_slab */
    method AllocateSlab(c: nat) returns (slab: Option<nat>)
      requires Valid() && c < NR_CACHES
      modifies Repr()
      ensures Valid() && live == old(live) && Kept(live, old(mem[..]), mem[..])
      ensures (slab.None? <==> old(NoBlock(0))) && Moves(old(zone.tiles), zone.tiles)
      ensures slab.Some? ==> slab.value < |zone.tiles| && SlabPage(zone.tiles, zone.flags[..], slab.value)
                             && zone.priv[slab.value] == c && slab.value < |old(chain)|
                             && chain == old(chain)[slab.value := AllSlots(c)]
      ensures slab.Some? ==>
                TookSlab(old(zone.tiles), zone.tiles, old(zone.arena.lists), zone.arena.lists, c, slab.value)
      ensures slab.None? ==> zone.tiles == old(zone.tiles) && zone.arena.lists == old(zone.arena.lists)
    {
      hide SlabsOk, LiveIs, Tagged, Listed, Counted, Inv, Threaded, Took, TookSlab, Moves, IsBlock, SlabPage;
      assert Pow2(0) == 1;
      ghost var t, l := zone.tiles, zone.arena.lists;
      slab := AllocPages(0);
      if slab.Some? {
        ghost var m := zone.arena.lists;
        SetupSlab(slab.value, c, old(live));
        SlabTaken(t, zone.tiles, l, m, c, slab.value);
      } else {
        KeptAll(live, mem[..]);
      }
    }

    /** The rest of allocate_slab: the used page becomes a slab whose slots are all free. */
    method SetupSlab(s: nat, c: nat, ghost others: set<Span>)
      requires Valid() && IsBlock(zone.tiles, s, 0, Live) && zone.flags[s] == PG_USED && c < NR_CACHES
      requires Span(s * PAGE_WORDS, PAGE_WORDS) !in others && live == others + {Span(s * PAGE_WORDS, PAGE_WORDS)}
      modifies this, zone.flags, zone.priv, zone.arena, zone.arena.next, zone.arena.prev, mem, freelist
      ensures Valid() && live == others && Kept(others, old(mem[..]), mem[..])
      ensures s < |zone.tiles| && SlabPage(zone.tiles, zone.flags[..], s) && zone.priv[s] == c
      ensures s < |old(chain)| && chain == old(chain)[s := AllSlots(c)]
      ensures MAX_ORDER + c < |old(zone.arena.lists)|
      ensures zone.arena.lists == old(zone.arena.lists)[MAX_ORDER + c := [s] + old(zone.arena.lists)[MAX_ORDER + c]]
    {
      hide SlabsOk, LiveIs, Chained, Tagged, Listed, Counted, Inv, Threaded;
      Sizes();
      ghost var sp := Span(s * PAGE_WORDS, PAGE_WORDS);
      LiveInMemory(sp);
      ghost var t, f, p, l, m, first := zone.tiles, zone.flags[..], zone.priv[..], zone.arena.lists, mem[..], freelist[..];
      TagSlab(s, c);
      SlotAddress(s, c, 0, mem.Length);
      freelist[s] := PhysToVirt(s * 4096);
      ThreadSlots(s, c);
      SlabMade(t, f, p, l, m, first, chain, others, s, c, mem[..]);
      chain := chain[s := AllSlots(c)];
      live := others;
      assert freelist[..] == first[s := SlotPtr(s, c, 0)];
    }

    lemma Sizes()
      requires Valid()
      ensures mem.Length == |zone.tiles| * PAGE_WORDS && 8 * mem.Length <= PHYS_LIMIT
      ensures freelist.Length == |chain| == |zone.tiles|
    {
    }

    /** Unlink the first free slot of slab page s and hand out its kernel pointer. */
    method PopSlot(s: nat, ghost c: nat) returns (obj: nat, ghost sp: Span)
      requires Valid() && s < |zone.tiles| && SlabPage(zone.tiles, zone.flags[..], s) && zone.priv[s] == c
      requires freelist[s] != 0
      modifies this, freelist
      ensures Valid() && c < NR_CACHES
      ensures sp !in old(live) && live == old(live) + {sp} && sp.count == Pow2(c) && obj == PhysToVirt(8 * sp.word)
      ensures s < |old(chain)| && old(chain)[s] != [] && sp == SlotSpan(s, c, old(chain)[s][0])
      ensures chain == old(chain)[s := old(chain)[s][1..]]
    {
      assert SlabOk(zone.tiles, zone.flags[..], zone.priv[..], zone.arena.lists, mem[..], freelist[..], chain, s);
      SlotTaken(zone.tiles, zone.flags[..], zone.priv[..], zone.arena.lists, mem[..], freelist[..], chain, live, s);
      ghost var k := chain[s][0];
      SlotAddress(s, c, k, mem.Length);
      sp := Span(SlotWord(s, c, k), Pow2(c));
      obj := freelist[s];
      freelist[s] := mem[VirtToPhys(PhysToVirt(obj)) / 8];
      assert freelist[..] == old(freelist[..])[s := ChainPtr(s, c, chain[s], 1)];
      chain := chain[s := chain[s][1..]];
      live := live + {sp};
    }

    /** __get_object: the first slab on the partial list with a free slot, else a new slab. */
    method GetFromCache(c: nat) returns (ptr: Option<nat>, ghost sp: Span)
      requires Valid() && c < NR_CACHES
      modifies Repr()
      ensures Valid() && Kept(old(live), old(mem[..]), mem[..])
      ensures (ptr.None? <==> old(NoSlot(c))) && Moves(old(zone.tiles), zone.tiles)
      ensures ptr.None? ==> live == old(live)
      ensures ptr.Some? ==> sp !in old(live) && live == old(live) + {sp} && sp.count == Pow2(c)
                               && ptr.value == PhysToVirt(8 * sp.word)
      ensures ptr.None? ==> zone.tiles == old(zone.tiles) && zone.arena.lists == old(zone.arena.lists)
      ensures MAX_ORDER + c < |old(zone.arena.lists)|
      ensures ptr.Some? ==> FromSlab(c, old(zone.tiles), zone.tiles, old(zone.arena.lists), zone.arena.lists,
                                     old(chain), chain, sp)
    {
      hide SlabsOk, LiveIs, Tagged, Listed, Counted, Inv, Threaded, Moves, SlabPage, TookSlab, FromSlab, FirstWithRoom,
           FullBefore, Pow2;
      ghost var t, l, ch := zone.tiles, zone.arena.lists, chain;
      Sizes();
      sp := Span(0, 0);
      var slab := ScanPartial(c);
      if slab.None? {
        slab := AllocateSlab(c);
        if slab.None? { return None, sp; }
        FreelistOf(slab.value);
        FromNew(c, t, zone.tiles, l, zone.arena.lists, ch, slab.value);
        assert chain[slab.value] == AllSlots(c) && AllSlots(c)[0] == 0;
      } else {
        SameMoves(t);
        FromRoom(c, t, l, ch, slab.value);
      }
      var obj, s0 := PopSlot(slab.value, c);
      ptr, sp := Some(obj), s0;
      assert chain == ch[slab.value := chain[slab.value]];
    }

    /** The loop of __get_object over the cache's partial list. */
    method ScanPartial(c: nat) returns (slab: Option<nat>)
      requires Valid() && c < NR_CACHES
      ensures var list := Partial(zone.arena.lists, c);
              if slab.None? then (NoSlot(c) <==> NoBlock(0)) && FullBefore(list, chain, |list|)
              else FirstWithRoom(list, chain, slab.value)
      ensures slab.Some? ==>
                && slab.value < |zone.tiles| && SlabPage(zone.tiles, zone.flags[..], slab.value)
                && zone.priv[slab.value] == c && freelist[slab.value] != 0 && !NoSlot(c)
    {
      ghost var list := Partial(zone.arena.lists, c);
      ghost var i: nat := 0;
      var pos := zone.arena.ListStart(MAX_ORDER + c);
      while pos != zone.arena.nodes + MAX_ORDER + c
        invariant i <= |list| && pos == At(zone.arena.nodes + MAX_ORDER + c, list, i + 1)
        invariant FullBefore(list, chain, i)
        decreases |list| - i
      {
        assert i < |list| && pos == list[i] && pos in list;
        var page: nat := pos;
        OnPartial(zone.tiles, zone.flags[..], zone.arena.lists, c, page);
        assert CacheList(zone.priv[..], list, c);
        FreelistOf(page);
        if freelist[page] != 0 { return Some(page); }
        pos := zone.arena.ListNext(MAX_ORDER + c, i, page);
        i := i + 1;
      }
      NoneFree(c, list);
      return None;
    }

    /** A partial list whose pages are all full names every slab page of its cache. */
    lemma NoneFree(c: nat, list: seq<nat>)
      requires Valid() && c < NR_CACHES && list == Partial(zone.arena.lists, c)
      requires forall j: nat :: j < |list| ==> list[j] < |chain| && chain[list[j]] == []
      ensures NoSlot(c) <==> NoBlock(0)
    {
      forall s: nat | s < |chain| && SlabPage(zone.tiles, zone.flags[..], s) && zone.priv[s] == c ensures chain[s] == [] {
        assert SlabOk(zone.tiles, zone.flags[..], zone.priv[..], zone.arena.lists, mem[..], freelist[..], chain, s);
      }
    }

    /** freelist is NULL exactly when every slot of the page is taken. */
    lemma FreelistOf(s: nat)
      requires Valid() && s < |zone.tiles| && SlabPage(zone.tiles, zone.flags[..], s)
      ensures freelist[s] == 0 <==> chain[s] == []
    {
      assert SlabOk(zone.tiles, zone.flags[..], zone.priv[..], zone.arena.lists, mem[..], freelist[..], chain, s);
      if chain[s] != [] { SlotAddress(s, zone.priv[s], chain[s][0], mem.Length); }
    }

    /** The smallest cache whose objects hold `size` bytes; NR_CACHES when there is none. */
    method CacheIndex(size: nat) returns (idx: nat)
      ensures idx < NR_CACHES ==> IsCache(idx, size)
      ensures idx <= NR_CACHES && (idx < NR_CACHES <==> size <= 2048)
    {
      assert Pow2(8) == 256;
      idx := 0;
      while idx < NR_CACHES
        invariant idx <= NR_CACHES && forall i: nat :: i < idx ==> size > 8 * Pow2(i)
      {
        if size <= Shl(1, idx + 3) { Pow2Add(idx, 3); assert Pow2(3) == 8; return; }
        Pow2Add(idx, 3);
        assert Pow2(3) == 8;
        idx := idx + 1;
      }
    }

    /** kmalloc.  None: the buddy system had no block, and the kernel goes on with a pointer made from NULL.
        Sizes between the largest object and a page have no cache. */
    method Kmalloc(size0: nat) returns (ptr: Option<nat>, ghost sp: Span)
      requires Valid() && (size0 <= 2048 || size0 >= 4096)
      modifies Repr()
      ensures Valid() && Kept(old(live), old(mem[..]), mem[..])
      ensures (ptr.None? <==> old(OutOfMemory(size0))) && Moves(old(zone.tiles), zone.tiles)
      ensures ptr.None? ==> live == old(live) && (size0 >= 4096 ==> NoBlock(OrderOf(size0)))
      ensures ptr.Some? ==> sp !in old(live) && live == old(live) + {sp} && ptr.value == PhysToVirt(8 * sp.word)
      ensures ptr.Some? ==> sp.word + sp.count <= mem.Length && forall q :: q in old(live) ==> !Meet(q, sp)
      // the span holds the request, unless the shift loop cut the size short
      ensures ptr.Some? ==> (8 * sp.count >= size0 <==> (size0 >= 4096 ==> !CutShort(size0)))
      // objects come from the first slab with room, blocks from the oldest of the smallest order that has one
      ensures ptr.Some? && size0 <= 2048 ==> forall c: nat :: IsCache(c, size0) ==>
                MAX_ORDER + c < |old(zone.arena.lists)|
                && FromSlab(c, old(zone.tiles), zone.tiles, old(zone.arena.lists), zone.arena.lists, old(chain), chain, sp)
      ensures ptr.Some? && size0 >= 4096 ==>
                chain == old(chain) && Took(old(zone.tiles), zone.tiles, old(zone.arena.lists), zone.arena.lists,
                                            OrderOf(size0), sp.word / PAGE_WORDS)
      // and no smaller cache or block would do
      ensures ptr.Some? && size0 <= 2048 && sp.count > 1 ==> size0 > 4 * sp.count
      ensures ptr.Some? && size0 >= 4096 ==>
                sp.word % PAGE_WORDS == 0 && sp.count == PAGE_WORDS * Pow2(OrderOf(size0)) && OrderOf(size0) < MAX_ORDER
    {
      hide SlabsOk, LiveIs, Tagged, Listed, Counted, Inv, Threaded, Moves, Took, FromSlab, NoSlot, CutShort;
      if size0 >= 4096 {
        ptr, sp := PageBlock(size0);
        OrderCovers(size0);
      } else {
        var idx: nat := CacheIndex(size0);
        assert idx > 0 ==> size0 > 8 * Pow2(idx - 1);
        OneCache(idx, size0);
        ptr, sp := GetFromCache(idx);
      }
      if ptr.Some? {
        LiveInMemory(sp);
        FreshUnmet(zone.tiles, zone.flags[..], zone.priv[..], chain, old(live), sp);
      }
    }

    /** The shift loop of kmalloc. */
    static method ShiftOrder(size0: nat) returns (order: nat)
      ensures order == OrderOf(size0)
    {
      var size: nat := size0;
      order := 0;
      while size > 4096
        invariant order + OrderOf(size) == OrderOf(size0)
      {
        HalfShift(size);
        size := Shr(size, 1);
        order := order + 1;
      }
    }

    /** The page branch of kmalloc: shift the size down to one page, counting, and take a block of that order. */
    method PageBlock(size0: nat) returns (ptr: Option<nat>, ghost sp: Span)
      requires Valid()
      modifies this, zone, zone.flags, zone.priv, zone.nr_free, zone.arena, zone.arena.next, zone.arena.prev
      ensures Valid() && (ptr.None? <==> old(NoBlock(OrderOf(size0))))
      ensures ptr.None? ==> live == old(live) && NoBlock(OrderOf(size0))
      ensures Moves(old(zone.tiles), zone.tiles)
      ensures ptr.Some? ==> sp !in old(live) && live == old(live) + {sp} && ptr.value == PhysToVirt(8 * sp.word)
      ensures ptr.Some? ==>
                sp.word % PAGE_WORDS == 0 && sp.count == PAGE_WORDS * Pow2(OrderOf(size0)) && OrderOf(size0) < MAX_ORDER
      ensures chain == old(chain)
      ensures ptr.Some? ==> Took(old(zone.tiles), zone.tiles, old(zone.arena.lists), zone.arena.lists,
                                 OrderOf(size0), sp.word / PAGE_WORDS)
    {
      hide Took, SlabsOk, LiveIs, Tagged, Listed, Counted, Inv, Threaded, Settled, Pow2, PhysToVirt, FreeRun;
      sp := Span(0, 0);
      var order := ShiftOrder(size0);
      var page := AllocPages(order);
      if page.None? { return None, sp; }
      sp := Span(page.value * PAGE_WORDS, Pow2(order) * PAGE_WORDS);
      PageAddress(page.value);
      ptr := Some(PhysToVirt(Shl(page.value, 12)));
    }

    /** kfree: the pointer alone leads back to the span, through the page's tag. */
    method Kfree(v: nat, ghost sp: Span) returns (ok: bool)
      requires Valid() && sp in live && v == PhysToVirt(8 * sp.word)
      modifies Repr()
      ensures ok && Valid() && live == old(live) - {sp} && Moves(old(zone.tiles), zone.tiles)
      ensures Kept(live, old(mem[..]), mem[..])
      // a slot becomes the first free one of its page; a block merges and goes to the end of its list
      ensures var s := sp.word / PAGE_WORDS;
              s < |old(zone.tiles)| && s < |old(chain)| &&
              if old(SlabPage(zone.tiles, zone.flags[..], s)) then
                zone.tiles == old(zone.tiles) && zone.arena.lists == old(zone.arena.lists)
                && Pushed(old(zone.priv[..]), old(chain), chain, s, sp)
              else
                chain == old(chain)
                && Gave(old(zone.tiles), zone.tiles, old(zone.arena.lists), zone.arena.lists, old(zone.tiles)[s].order, s)
    {
      ghost var t, f, p, l := zone.tiles, zone.flags[..], zone.priv[..], zone.arena.lists;
      LiveInMemory(sp);
      LinearMap(8 * sp.word);
      assert LiveAt(t, f, p, chain, sp);
      LiveInTile(t, f, p, chain, sp);
      var phys := VirtToPhys(v);
      var pfn := Shr(phys, 12);
      FrameOf(sp.word);
      assert HeadTag(t, f, p, pfn);
      var order := zone.priv[pfn];
      if zone.flags[pfn] == PG_slab {
        FreeObject(v, pfn, sp);
        ok := true;
      } else {
        ok := zone.FreeOnePage(pfn, order);
        PagesGiven(t, zone.tiles, f, zone.flags[..], p, zone.priv[..], l, zone.arena.lists, mem[..], freelist[..], chain,
                   live, pfn, order);
        live := live - {sp};
      }
    }

    lemma FrameOf(w: nat)
      ensures Shr(8 * w, 12) == w / PAGE_WORDS
    {
      assert Pow2(6) == 64;
      Pow2Add(6, 6);
      assert w == w / PAGE_WORDS * PAGE_WORDS + w % PAGE_WORDS;
      DivUnique(8 * w, 4096, w / PAGE_WORDS, 8 * (w % PAGE_WORDS));
    }

    /** free_object */
    method FreeObject(v: nat, s: nat, ghost sp: Span)
      requires Valid() && sp in live && v == PhysToVirt(8 * sp.word)
      requires s == sp.word / PAGE_WORDS && s < |zone.tiles| && SlabPage(zone.tiles, zone.flags[..], s)
      modifies this, mem, freelist
      ensures Valid() && live == old(live) - {sp} && Kept(live, old(mem[..]), mem[..])
      ensures s < |old(chain)| && Pushed(zone.priv[..], old(chain), chain, s, sp)
    {
      ghost var t, f, p, l := zone.tiles, zone.flags[..], zone.priv[..], zone.arena.lists;
      LiveInMemory(sp);
      LinearMap(8 * sp.word);
      assert LiveAt(t, f, p, chain, sp);
      ghost var k: nat :| k < Slots(p[s]) && k !in chain[s] && sp == Span(SlotWord(s, p[s], k), Pow2(p[s]));
      SlotGiven(t, f, p, l, mem[..], freelist[..], chain, live, s, k);
      OthersKept(sp);
      mem[VirtToPhys(v) / 8] := freelist[s];
      freelist[s] := v;
      chain := chain[s := [k] + chain[s]];
      live := live - {sp};
      assert mem[..] == old(mem[..])[sp.word := old(freelist[s])];
      assert freelist[..] == old(freelist[..])[s := v];
    }

    lemma OthersKept(sp: Span)
      requires Valid() && sp in live
      ensures forall q :: q in live && q != sp ==> !Meet(q, sp)
      ensures sp.count > 0
    {
      LiveInMemory(sp);
      forall q | q in live && q != sp ensures !Meet(q, sp) {
        LiveDisjoint(q, sp);
      }
    }
  }

  lemma KeptOutside(live: set<Span>, m: seq<nat>, m': seq<nat>, sp: Span)
    requires |m'| == |m| && forall q :: q in live ==> !Meet(q, sp)
    requires forall w: nat :: w < |m| && !(sp.word <= w < sp.word + sp.count) ==> m'[w] == m[w]
    ensures Kept(live, m, m')
  {
  }

  lemma SlabTaken(t: seq<Tile>, t': seq<Tile>, l: seq<seq<nat>>, m: seq<seq<nat>>, c: nat, s: nat)
    requires Took(t, t', l, m, 0, s) && MAX_ORDER + c < |m|
    ensures TookSlab(t, t', l, m[MAX_ORDER + c := [s] + m[MAX_ORDER + c]], c, s)
  {
  }

  lemma KeptAll(live: set<Span>, m: seq<nat>)
    ensures Kept(live, m, m)
  {
  }

  lemma HalfShift(size: nat)
    ensures Shr(size, 1) == size / 2
  {
    assert Pow2(1) == 2 * Pow2(0) == 2;
  }

  lemma PageAddress(page: nat)
    ensures Shl(page, 12) == 8 * (page * PAGE_WORDS)
  {
    Pow2Values();
  }

  lemma OneCache(c: nat, size: nat)
    requires IsCache(c, size)
    ensures forall d: nat :: IsCache(d, size) <==> d == c
  {
  }

  /** A span just added meets none of the older ones. */
  lemma FreshUnmet(t: seq<Tile>, f: seq<nat>, p: seq<nat>, chain: seq<seq<nat>>, live: set<Span>, sp: Span)
    requires Inv(t) && LiveIs(t, f, p, chain, live + {sp}) && sp !in live
    ensures forall q :: q in live ==> !Meet(q, sp)
  {
    forall q | q in live ensures !Meet(q, sp) {
      assert q in live + {sp} && sp in live + {sp};
      LiveApart(t, f, p, chain, q, sp);
    }
  }

  lemma SlotAddress(s: nat, c: nat, k: nat, words: nat)
    requires c < NR_CACHES && k < Slots(c) && s * PAGE_WORDS + PAGE_WORDS <= words && 8 * words <= PHYS_LIMIT
    ensures s * PAGE_WORDS <= SlotWord(s, c, k) < s * PAGE_WORDS + PAGE_WORDS
    ensures VirtToPhys(SlotPtr(s, c, k)) / 8 == SlotWord(s, c, k)
    ensures SlotPtr(s, c, k) + 8 * Pow2(c) == 8 * SlotWord(s, c, k + 1) + KVBASE
    ensures SlotPtr(s, c, k) == 8 * SlotWord(s, c, k) + KVBASE
    ensures PhysToVirt(SlotPtr(s, c, k)) == SlotPtr(s, c, k) > 0
  {
    SlotBounds(s, c, k);
    LinearMap(8 * SlotWord(s, c, k));
    assert (k + 1) * Pow2(c) == k * Pow2(c) + Pow2(c);
  }

  lemma TagSlabOk(t: seq<Tile>, f: seq<nat>, p: seq<nat>, lists: seq<seq<nat>>, s: nat, c: nat)
    requires Inv(t) && Tagged(t, f, p) && Listed(t, f, lists) && IsBlock(t, s, 0, Live) && c < NR_CACHES
    ensures Tagged(t, f[s := PG_slab], p[s := c])
    ensures Listed(t, f[s := PG_slab], lists[MAX_ORDER + c := [s] + lists[MAX_ORDER + c]])
  {
    var f', p', lists' := f[s := PG_slab], p[s := c], lists[MAX_ORDER + c := [s] + lists[MAX_ORDER + c]];
    forall h: nat | h < |t| ensures HeadTag(t, f', p', h) {
      assert HeadTag(t, f, p, h);
    }
    forall o: nat, h: nat | o < MAX_ORDER ensures h in lists'[o] <==> IsBlock(t, h, o, Free) {
      assert h in lists[o] <==> IsBlock(t, h, o, Free);
    }
    forall d: nat, x: nat | MAX_ORDER <= d < |lists'| && x in lists'[d] ensures SlabPage(t, f', x) {
      if x in lists[d] { assert SlabPage(t, f, x); }
    }
  }
}
