// Slab pages: pages of equal slots whose free ones are chained through their own memory.
module Slab {
  import opened Bits
  import opened Buddy

  const KVBASE: nat := 0xffff_0000_0000_0000

  const PHYS_LIMIT: nat := 0x1_0000_0000_0000

  // Memory is an array of 8-byte words, 512 to a page.
  const PAGE_WORDS: nat := 512

  // ---- kernel pointers -----------------------------------------------------

  function PhysToVirt(p: nat): nat {
    Or(p, KVBASE)
  }

  /** & with the 64-bit complement of KVBASE. */
  function VirtToPhys(v: nat): nat {
    And(v, 0x0000_ffff_ffff_ffff)
  }

  lemma KernelBase()
    ensures KVBASE == 0xffff * Pow2(48) && Pow2(48) == PHYS_LIMIT
    ensures Aligned(KVBASE, 48)
  {
    Pow2Values();
    hide Pow2;
    DivUnique(KVBASE, Pow2(48), 0xffff, 0);
  }

  /** The linear map: virtual addresses are physical ones plus the base, and mapping twice changes nothing. */
  lemma LinearMap(p: nat)
    requires p < PHYS_LIMIT
    ensures PhysToVirt(p) == p + KVBASE && PhysToVirt(PhysToVirt(p)) == PhysToVirt(p)
    ensures VirtToPhys(PhysToVirt(p)) == p
  {
    KernelBase();
    hide And, Or, Pow2;
    OrLow(KVBASE, p, 48);
    AndLow(p + KVBASE, 48);
    DivUnique(p + KVBASE, Pow2(48), 0xffff, p);
    OrSplit(0xffff, p, 0xffff, 0, 48);
    OrZero(p);
    OrSelf(0xffff);
  }

  lemma {:induction false} OrSelf(x: nat)
    ensures Or(x, x) == x
  {
    if x > 0 { OrSelf(x / 2); }
  }

  // ---- slots ---------------------------------------------------------------

  /** Slots of cache c are 2^c words; a page has 2^(9 - c) of them. */
  function Slots(c: nat): nat
    requires c < NR_CACHES
  {
    Pow2(9 - c)
  }

  function SlotWord(s: nat, c: nat, k: nat): nat {
    s * PAGE_WORDS + k * Pow2(c)
  }

  /** Slots of one page lie in the page, one after the other. */
  lemma SlotBounds(s: nat, c: nat, k: nat)
    requires c < NR_CACHES && k < Slots(c)
    ensures s * PAGE_WORDS <= SlotWord(s, c, k) && SlotWord(s, c, k) + Pow2(c) <= s * PAGE_WORDS + PAGE_WORDS
    ensures SlotWord(s, c, k) / PAGE_WORDS == s
    ensures SlotWord(s, c, k) % PAGE_WORDS == k * Pow2(c)
  {
    assert Pow2(9) == PAGE_WORDS;
    hide Pow2;
    Pow2Add(9 - c, c);
    MultipleInside(k, Slots(c), Pow2(c));
    DivUnique(SlotWord(s, c, k), PAGE_WORDS, s, k * Pow2(c));
  }

  /** The slots of a page fill it: every word of the page is in one slot, and in no other. */
  lemma SlotsFillPage(s: nat, c: nat, w: nat)
    requires c < NR_CACHES && s * PAGE_WORDS <= w < s * PAGE_WORDS + PAGE_WORDS
    ensures Slots(c) * Pow2(c) == PAGE_WORDS
    ensures exists k: nat :: k < Slots(c) && InSlot(s, c, k, w) && forall j: nat :: InSlot(s, c, j, w) ==> j == k
  {
    assert Pow2(9) == PAGE_WORDS;
    Pow2Add(9 - c, c);
    var k := SlotOf(w - s * PAGE_WORDS, Pow2(c), Slots(c));
    assert InSlot(s, c, k, w);
    hide Pow2, Slots;
    forall j: nat | InSlot(s, c, j, w) ensures j == k {
      if j < k { SlotsApart(s, c, j, k); } else if k < j { SlotsApart(s, c, k, j); }
    }
  }

  ghost predicate InSlot(s: nat, c: nat, k: nat, w: nat) {
    SlotWord(s, c, k) <= w < SlotWord(s, c, k) + Pow2(c)
  }

  lemma SlotOf(r: nat, d: nat, n: nat) returns (k: nat)
    requires d > 0 && r < n * d
    ensures k < n && k * d <= r < k * d + d
  {
    QuotientNonNegative(r, d);
    k := r / d;
    assert r == k * d + r % d;
    QuotientBelow(r, d, n);
  }

  lemma MultipleInside(k: nat, n: nat, d: nat)
    requires k < n
    ensures k * d + d <= n * d
  {
    MulMono(k + 1, n, d);
    assert (k + 1) * d == k * d + d;
  }

  lemma SlotsApart(s: nat, c: nat, j: nat, k: nat)
    requires j < k
    ensures SlotWord(s, c, j) + Pow2(c) <= SlotWord(s, c, k)
  {
    MulMono(j + 1, k, Pow2(c));
    assert (j + 1) * Pow2(c) == j * Pow2(c) + Pow2(c);
  }

  function SlotPtr(s: nat, c: nat, k: nat): nat {
    PhysToVirt(8 * SlotWord(s, c, k))
  }

  /** The pointer to the i-th free slot of a chain; 0 past its end. */
  function ChainPtr(s: nat, c: nat, chain: seq<nat>, i: nat): nat {
    if i < |chain| then SlotPtr(s, c, chain[i]) else 0
  }

  /** The word inside the i-th free slot points to the next one. */
  ghost predicate LinkOk(m: seq<nat>, s: nat, c: nat, chain: seq<nat>, i: nat)
    requires i < |chain|
  {
    SlotWord(s, c, chain[i]) < |m| && m[SlotWord(s, c, chain[i])] == ChainPtr(s, c, chain, i + 1)
  }

  /** freelist and the words inside the free slots spell out the chain, which ends in NULL
      and visits distinct slots of the page. */
  ghost predicate Chained(m: seq<nat>, s: nat, c: nat, chain: seq<nat>, first: nat) {
    && c < NR_CACHES && s * PAGE_WORDS + PAGE_WORDS <= |m|
    && (forall i :: 0 <= i < |chain| ==> chain[i] < Slots(c))
    && (forall i, j :: 0 <= i < j < |chain| ==> chain[i] != chain[j])
    && first == ChainPtr(s, c, chain, 0)
    && (forall i: nat :: i < |chain| ==> LinkOk(m, s, c, chain, i))
  }

  /** Follow n free pointers. */
  function Walk(m: seq<nat>, p: nat, n: nat): nat
    decreases n
  {
    if n == 0 || p == 0 || VirtToPhys(p) / 8 >= |m| then p else Walk(m, m[VirtToPhys(p) / 8], n - 1)
  }

  /** Following the free pointers visits the slots of the chain in order and then reaches NULL. */
  lemma {:induction false} WalkEnds(m: seq<nat>, s: nat, c: nat, chain: seq<nat>, first: nat, i: nat)
    requires Chained(m, s, c, chain, first) && i <= |chain| && 8 * |m| <= PHYS_LIMIT
    ensures Walk(m, ChainPtr(s, c, chain, i), |chain| - i) == 0
    decreases |chain| - i
  {
    if i < |chain| {
      assert LinkOk(m, s, c, chain, i);
      SlotBounds(s, c, chain[i]);
      var w := SlotWord(s, c, chain[i]);
      LinearMap(8 * w);
      assert VirtToPhys(SlotPtr(s, c, chain[i])) / 8 == w;
      WalkEnds(m, s, c, chain, first, i + 1);
    }
  }

  // ---- chain operations ----------------------------------------------------

  lemma PopChain(m: seq<nat>, s: nat, c: nat, chain: seq<nat>, first: nat)
    requires Chained(m, s, c, chain, first) && chain != []
    ensures Chained(m, s, c, chain[1..], ChainPtr(s, c, chain, 1))
    ensures LinkOk(m, s, c, chain, 0)
    ensures chain[0] !in chain[1..]
  {
    var r := chain[1..];
    forall i: nat | i < |r|
      ensures LinkOk(m, s, c, r, i)
    {
      assert r[i] == chain[i + 1] && LinkOk(m, s, c, chain, i + 1);
    }
    assert LinkOk(m, s, c, chain, 0);
  }

  lemma PushChain(m: seq<nat>, s: nat, c: nat, chain: seq<nat>, first: nat, k: nat)
    requires Chained(m, s, c, chain, first) && k < Slots(c) && k !in chain
    ensures SlotWord(s, c, k) < |m|
    ensures Chained(m[SlotWord(s, c, k) := first], s, c, [k] + chain, SlotPtr(s, c, k))
  {
    SlotBounds(s, c, k);
    var m', r := m[SlotWord(s, c, k) := first], [k] + chain;
    forall i: nat | i < |r|
      ensures LinkOk(m', s, c, r, i)
    {
      if i > 0 {
        assert r[i] == chain[i - 1] && chain[i - 1] in chain && LinkOk(m, s, c, chain, i - 1);
        if k < r[i] { SlotsApart(s, c, k, r[i]); } else { SlotsApart(s, c, r[i], k); }
      }
    }
  }

  /** Words outside the page do not matter to its chain. */
  lemma ChainElsewhere(m: seq<nat>, m': seq<nat>, s: nat, c: nat, chain: seq<nat>, first: nat)
    requires Chained(m, s, c, chain, first) && |m'| == |m|
    requires forall w: nat :: s * PAGE_WORDS <= w < s * PAGE_WORDS + PAGE_WORDS ==> m'[w] == m[w]
    ensures Chained(m', s, c, chain, first)
  {
    forall i: nat | i < |chain| ensures LinkOk(m', s, c, chain, i) {
      assert LinkOk(m, s, c, chain, i);
      SlotBounds(s, c, chain[i]);
    }
  }

  /** Words inside live slots do not matter either. */
  lemma ChainLiveWrite(m: seq<nat>, s: nat, c: nat, chain: seq<nat>, first: nat, k: nat, w: nat, v: nat)
    requires Chained(m, s, c, chain, first) && k < Slots(c) && k !in chain
    requires SlotWord(s, c, k) <= w < SlotWord(s, c, k) + Pow2(c) && w < |m|
    ensures Chained(m[w := v], s, c, chain, first)
  {
    var m' := m[w := v];
    forall i: nat | i < |chain| ensures LinkOk(m', s, c, chain, i) {
      assert chain[i] in chain && LinkOk(m, s, c, chain, i);
      if k < chain[i] { SlotsApart(s, c, k, chain[i]); } else { SlotsApart(s, c, chain[i], k); }
    }
  }
}
