// Four-level page tables (4KB granule, 48-bit addresses) kept in pages of the kernel heap.
module PageTable {
  import opened Bits
  import opened Slab
  import opened Kmem
  import Buddy
  import Tiling
  import opened Wrappers

  // Pages of a 48-bit address space.
  const PAGES: nat := 0x10_0000_0000

  const ENTRY_ADDR_MASK: nat := 0xffff_ffff_f000
  const TABLE_ENTRY: nat := 3
  const NORMAL_PAGE_ATTR: nat := 0x407
  const PXN: nat := 0x20_0000_0000_0000
  const PD_AP_EL0: nat := 0x40

  // ---- indices -------------------------------------------------------------

  /** (va >> (39 - level * 9)) & 0x1ff */
  function Index(va: nat, level: nat): nat
    requires level < 4
  {
    And(Shr(va, 39 - level * 9), 0x1ff)
  }

  function Page(va: nat): nat { va / 4096 }

  /** Index l is digit 3 - l of the page number in base 512. */
  function Digit(page: nat, level: nat): nat
    requires level < 4
  {
    if level == 3 then page % 512
    else if level == 2 then page / 512 % 512
    else if level == 1 then page / 512 / 512 % 512
    else page / 512 / 512 / 512 % 512
  }

  lemma IndexIsDigit(va: nat, level: nat)
    requires level < 4
    ensures Index(va, level) == Digit(Page(va), level) < 512
  {
    Powers();
    assert Pow2(9) - 1 == 0x1ff;
    AndLow(Shr(va, 39 - level * 9), 9);
    hide And, Pow2;
    ShiftInSteps(va, level);
  }

  lemma Powers()
    ensures Pow2(9) == 512 && Pow2(12) == 4096 && Pow2(21) == 0x20_0000
    ensures Pow2(30) == 0x4000_0000 && Pow2(39) == 0x80_0000_0000 && Pow2(36) == PAGES
  {
    Pow2Values();
    hide Pow2;
    Pow2Add(12, 9);
    Pow2Add(21, 9);
    Pow2Add(30, 9);
  }

  lemma ShiftInSteps(va: nat, level: nat)
    requires level < 4
    ensures Shr(va, 39 - level * 9) % 512 == Digit(Page(va), level)
  {
    Powers();
    hide Pow2;
    assert va / 0x20_0000 == va / 4096 / 512;
    assert va / 0x4000_0000 == va / 4096 / 512 / 512;
    assert va / 0x80_0000_0000 == va / 4096 / 512 / 512 / 512;
  }

  /** A 48-bit address has a page number of four digits. */
  lemma DigitsDetermine(p: nat, q: nat)
    requires p < PAGES && q < PAGES
    requires forall l: nat :: l < 4 ==> Digit(p, l) == Digit(q, l)
    ensures p == q
  {
    assert Digit(p, 0) == Digit(q, 0) && Digit(p, 1) == Digit(q, 1);
    assert Digit(p, 2) == Digit(q, 2) && Digit(p, 3) == Digit(q, 3);
    var p1, p2, p3 := p / 512, p / 512 / 512, p / 512 / 512 / 512;
    var q1, q2, q3 := q / 512, q / 512 / 512, q / 512 / 512 / 512;
    assert p3 < 512 && q3 < 512;
  }

  /** Digits look at 36 bits of the page number only. */
  lemma DigitWraps(p: nat, l: nat)
    requires l < 4
    ensures Digit(p % PAGES, l) == Digit(p, l) && p % PAGES < PAGES
  {
    var q, r := p / PAGES, p % PAGES;
    assert p == q * PAGES + r;
    assert p / 512 == q * 0x800_0000 + r / 512;
    assert p / 512 / 512 == q * 0x4_0000 + r / 512 / 512;
    assert p / 512 / 512 / 512 == q * 512 + r / 512 / 512 / 512;
  }

  /** The four indices, from the root down, spell out bits 47 to 12 of the address. */
  lemma IndicesSpell(va: nat)
    ensures ((Index(va, 0) * 512 + Index(va, 1)) * 512 + Index(va, 2)) * 512 + Index(va, 3) == Page(va) % PAGES
  {
    var p := Page(va) % PAGES;
    forall l: nat | l < 4 ensures Index(va, l) == Digit(p, l) {
      IndexIsDigit(va, l);
      DigitWraps(Page(va), l);
    }
    hide Index, Digit;
    DigitsSpell(p);
    assert Index(va, 0) == Digit(p, 0) && Index(va, 1) == Digit(p, 1);
    assert Index(va, 2) == Digit(p, 2) && Index(va, 3) == Digit(p, 3);
  }

  lemma DigitsSpell(p: nat)
    requires p < PAGES
    ensures ((Digit(p, 0) * 512 + Digit(p, 1)) * 512 + Digit(p, 2)) * 512 + Digit(p, 3) == p
  {
    var a := p / 512;
    var b := a / 512;
    var c := b / 512;
    assert p == a * 512 + p % 512 && a == b * 512 + a % 512 && b == c * 512 + b % 512;
    assert c < 512;
  }

  function Path(page: nat): seq<nat> {
    [Digit(page, 0), Digit(page, 1), Digit(page, 2)]
  }

  // ---- entries -------------------------------------------------------------

  function AddrOf(entry: nat): nat {
    And(entry, ENTRY_ADDR_MASK)
  }

  /** table_p[idx] = pa; table_p[idx] |= NORMAL_PAGE_ATTR | PXN | flag */
  function LeafEntry(pa: nat, flag: nat): nat {
    Or(pa, Or(Or(NORMAL_PAGE_ATTR, PXN), flag))
  }

  function TablePointer(frame: nat): nat {
    Or(4096 * frame, TABLE_ENTRY)
  }

  lemma MaskIsField()
    ensures ENTRY_ADDR_MASK == (Pow2(36) - 1) * Pow2(12) && Pow2(36) == PAGES && Pow2(12) == 4096
  {
    Powers();
  }

  lemma AddrField(e: nat)
    ensures AddrOf(e) == e / 4096 % PAGES * 4096
  {
    MaskIsField();
    AndField(e, 12, 36);
  }

  lemma TablePointerIs(frame: nat)
    requires frame < PAGES
    ensures TablePointer(frame) == 4096 * frame + 3 && AddrOf(TablePointer(frame)) == 4096 * frame
  {
    Powers();
    DivUnique(4096 * frame, 4096, frame, 0);
    DivUnique(4096 * frame + 3, 4096, frame, 3);
    hide Or, And, Pow2, AddrOf;
    OrLow(4096 * frame, 3, 12);
    AddrField(4096 * frame + 3);
    SmallMod(frame, PAGES);
  }

  lemma {:induction false} AndOverOr(a: nat, b: nat, m: nat)
    ensures And(Or(a, b), m) == Or(And(a, m), And(b, m))
  {
    if a == 0 || b == 0 || m == 0 {
      AndZero(a);
      AndZero(b);
      AndZero(m);
    } else {
      AndOverOr(a / 2, b / 2, m / 2);
      AndStep(a, m);
      AndStep(b, m);
      OrStep(a, b);
      AndStep(Or(a, b), m);
      OrStep(And(a, m), And(b, m));
      hide And, Or;
    }
  }

  lemma AndZero(x: nat)
    ensures And(x, 0) == 0 && And(0, x) == 0 && Or(x, 0) == x && Or(0, x) == x
  {
  }

  /** The attribute bits stay clear of the address field, so the address comes back. */
  lemma LeafAddress(pa: nat, flag: nat)
    requires pa % 4096 == 0 && pa < PHYS_LIMIT && AddrOf(flag) == 0
    ensures AddrOf(LeafEntry(pa, flag)) == pa
  {
    AddrField(pa);
    AddrField(NORMAL_PAGE_ATTR);
    AddrField(PXN);
    hide And, Or;
    AndOverOr(pa, Or(Or(NORMAL_PAGE_ATTR, PXN), flag), ENTRY_ADDR_MASK);
    AndOverOr(Or(NORMAL_PAGE_ATTR, PXN), flag, ENTRY_ADDR_MASK);
    AndOverOr(NORMAL_PAGE_ATTR, PXN, ENTRY_ADDR_MASK);
    OrZero(0);
    OrZero(pa);
  }

  /** Whatever the address and the flag: a page descriptor (type 3), access flag, memory attribute 1, no
      execution by the kernel, and every bit of the flag. */
  lemma LeafBits(pa: nat, flag: nat)
    ensures LeafEntry(pa, flag) % 4 == 3
    ensures And(LeafEntry(pa, flag), 0x20_0000_0000_0407) == 0x20_0000_0000_0407
    ensures And(LeafEntry(pa, flag), flag) == flag
  {
    hide And, Or;
    Attributes();
    OrKeeps(pa, 0x20_0000_0000_0407, flag);
    LowBitsSet(LeafEntry(pa, flag), 0x20_0000_0000_0407);
  }

  lemma LowBitsSet(e: nat, c: nat)
    requires And(e, c) == c && c % 4 == 3
    ensures e % 4 == 3
  {
    hide And;
    TwoBits(e);
    TwoBits(c);
    OddMask(e, c);
    OddMask(e / 2, c / 2);
  }

  lemma TwoBits(x: nat)
    ensures x % 4 == x % 2 + 2 * (x / 2 % 2)
  {
    DivUnique(x, 4, x / 2 / 2, x % 2 + 2 * (x / 2 % 2));
  }

  lemma OddMask(e: nat, c: nat)
    requires And(e, c) == c && c % 2 == 1
    ensures e % 2 == 1 && And(e / 2, c / 2) == c / 2
  {
    AndStep(e, c);
    hide And;
  }

  lemma Attributes()
    ensures Or(NORMAL_PAGE_ATTR, PXN) == 0x20_0000_0000_0407
  {
    Powers();
    hide Or, Pow2;
    OrLow(PXN, NORMAL_PAGE_ATTR, 12);
  }

  /** The descriptor of a user page. */
  lemma UserEntry(pa: nat)
    requires pa % 4096 == 0 && pa < PHYS_LIMIT
    ensures LeafEntry(pa, PD_AP_EL0) == pa + 0x20_0000_0000_0447
  {
    Attributes();
    UserAttributes();
    Powers();
    Pow2Values();
    hide Or, Pow2;
    OrSplit(0, pa, 0x20, 0x447, 48);
    OrZero(0x20);
    OrLow(pa, 0x447, 12);
  }

  lemma UserAttributes()
    ensures Or(0x20_0000_0000_0407, PD_AP_EL0) == 0x20_0000_0000_0447
  {
    hide Or, Pow2;
    Pow2Values();
    OrSplit(0x20_0000_0000_0, 0x407, 0, 0x40, 12);
    OrZero(0x20_0000_0000_0);
    LowAttributes();
  }

  lemma LowAttributes()
    ensures Or(0x407, 0x40) == 0x447
  {
    assert Pow2(4) == 16 && Pow2(3) == 8;
    hide Or, Pow2;
    OrSplit(0x80, 7, 8, 0, 3);
    OrZero(7);
    OrLow(0x80, 8, 4);
  }

  lemma UserFlag()
    ensures AddrOf(PD_AP_EL0) == 0
  {
    AddrField(PD_AP_EL0);
  }

  // ---- the radix tree in memory --------------------------------------------

  // A table is named by the indices that lead to it from the root.
  type Tables = map<seq<nat>, nat>

  ghost predicate IsPath(p: seq<nat>) {
    |p| <= 3 && forall i :: 0 <= i < |p| ==> p[i] < 512
  }

  function EntryWord(frame: nat, i: nat): nat { frame * PAGE_WORDS + i }

  ghost function TableSpan(frame: nat): Span { Span(frame * PAGE_WORDS, PAGE_WORDS) }

  /** Every table is a page in somebody's hands. */
  ghost predicate Placed(T: Tables, words: nat, live: set<Span>) {
    forall p :: p in T ==> IsPath(p) && TableSpan(T[p]) in live && T[p] * PAGE_WORDS + PAGE_WORDS <= words
  }

  /** Tables reached by different indices are different pages. */
  ghost predicate Distinct(T: Tables) {
    forall p, q :: p in T && q in T && T[p] == T[q] ==> p == q
  }

  /** Entry i of an upper table: empty, or the pointer to the table one level down. */
  ghost predicate EntryOk(m: seq<nat>, T: Tables, p: seq<nat>, i: nat)
    requires p in T && EntryWord(T[p], i) < |m|
  {
    m[EntryWord(T[p], i)] == if p + [i] in T then TablePointer(T[p + [i]]) else 0
  }

  ghost predicate Linked(m: seq<nat>, T: Tables)
  {
    forall p, i: nat :: p in T && |p| < 3 && i < 512 ==> EntryWord(T[p], i) < |m| && EntryOk(m, T, p, i)
  }

  /** A table below the root hangs below its parent. */
  ghost predicate Rooted(T: Tables, root: nat) {
    && [] in T && T[[]] == root
    && forall p :: p in T && p != [] ==> p[..|p| - 1] in T
  }

  ghost predicate TreeOk(m: seq<nat>, T: Tables, root: nat, live: set<Span>) {
    && 8 * |m| <= PHYS_LIMIT
    && Placed(T, |m|, live) && Distinct(T) && Rooted(T, root) && Linked(m, T)
  }

  /** The flat map the tree stands for: the leaf entry of a page, 0 when there is none. */
  ghost function Leaf(m: seq<nat>, T: Tables, page: nat): nat {
    var p := Path(page);
    if p in T && EntryWord(T[p], Digit(page, 3)) < |m| then m[EntryWord(T[p], Digit(page, 3))] else 0
  }

  ghost predicate HasTables(T: Tables, page: nat) {
    Path(page) in T
  }

  /** Writes outside the tables leave the tree and its map as they are. */
  lemma TreeElsewhere(m: seq<nat>, m': seq<nat>, T: Tables, root: nat, live: set<Span>, live': set<Span>)
    requires TreeOk(m, T, root, live) && |m'| == |m|
    requires forall p :: p in T ==> TableSpan(T[p]) in live'
    requires forall p, w: nat :: p in T && T[p] * PAGE_WORDS <= w < T[p] * PAGE_WORDS + PAGE_WORDS && w < |m| ==> m'[w] == m[w]
    ensures TreeOk(m', T, root, live')
    ensures forall page: nat :: Leaf(m', T, page) == Leaf(m, T, page)
  {
    forall p, i: nat | p in T && |p| < 3 && i < 512 ensures EntryWord(T[p], i) < |m'| && EntryOk(m', T, p, i) {
      assert EntryOk(m, T, p, i);
    }
    forall page: nat ensures Leaf(m', T, page) == Leaf(m, T, page) {
      assert Digit(page, 3) < 512;
    }
  }

  /** Writing a last-level entry changes the map at one page and nowhere else. */
  lemma LeafWritten(m: seq<nat>, T: Tables, root: nat, live: set<Span>, page: nat, e: nat)
    requires TreeOk(m, T, root, live) && HasTables(T, page) && page < PAGES
    ensures EntryWord(T[Path(page)], Digit(page, 3)) < |m|
    ensures var m' := m[EntryWord(T[Path(page)], Digit(page, 3)) := e];
            && TreeOk(m', T, root, live)
            && (forall q: nat :: q < PAGES ==> Leaf(m', T, q) == if q == page then e else Leaf(m, T, q))
  {
    var w := EntryWord(T[Path(page)], Digit(page, 3));
    var m' := m[w := e];
    forall p, i: nat | p in T && |p| < 3 && i < 512 ensures EntryWord(T[p], i) < |m'| && EntryOk(m', T, p, i) {
      assert EntryOk(m, T, p, i);
      OtherTable(T, p, Path(page), i, Digit(page, 3));
    }
    forall q: nat | q < PAGES ensures Leaf(m', T, q) == if q == page then e else Leaf(m, T, q) {
      if q != page && HasTables(T, q) {
        if Path(q) != Path(page) {
          OtherTable(T, Path(q), Path(page), Digit(q, 3), Digit(page, 3));
        } else if Digit(q, 3) == Digit(page, 3) {
          SamePath(q, page);
        }
      }
    }
  }

  lemma SamePath(p: nat, q: nat)
    requires p < PAGES && q < PAGES && Path(p) == Path(q) && Digit(p, 3) == Digit(q, 3)
    ensures p == q
  {
    assert Path(p)[0] == Path(q)[0] && Path(p)[1] == Path(q)[1] && Path(p)[2] == Path(q)[2];
    DigitsDetermine(p, q);
  }

  lemma OtherTable(T: Tables, p: seq<nat>, q: seq<nat>, i: nat, j: nat)
    requires Distinct(T) && p in T && q in T && p != q && i < 512 && j < 512
    ensures EntryWord(T[p], i) != EntryWord(T[q], j)
  {
  }

  /** A fresh zeroed page becomes the table below p at index i: the map does not change. */
  lemma TableAdded(m: seq<nat>, m': seq<nat>, T: Tables, root: nat, live: set<Span>, p: seq<nat>, i: nat, n: nat)
    requires TreeOk(m, T, root, live) && p in T && |p| < 3 && i < 512 && p + [i] !in T
    requires Hung(m, m', T, p, i, n) && TableSpan(n) in live && IsPath(p)
    requires forall q :: q in T ==> T[q] != n
    ensures TreeOk(m', T[p + [i] := n], root, live)
    ensures forall page: nat :: Leaf(m', T[p + [i] := n], page) == Leaf(m, T, page)
  {
    AddedRooted(T, root, p, i, n);
    AddedLinked(m, m', T, root, p, i, n);
    AddedLeaves(m, m', T, p, i, n);
    hide Linked, Rooted, Leaf;
  }

  lemma AddedRooted(T: Tables, root: nat, p: seq<nat>, i: nat, n: nat)
    requires Rooted(T, root) && p in T && p + [i] !in T
    ensures Rooted(T[p + [i] := n], root)
  {
    var T' := T[p + [i] := n];
    forall q | q in T' && q != [] ensures q[..|q| - 1] in T' {
      assert (p + [i])[..|p|] == p;
    }
  }

  /** Memory after a zeroed page n has been hung below p at index i. */
  ghost predicate Hung(m: seq<nat>, m': seq<nat>, T: Tables, p: seq<nat>, i: nat, n: nat)
    requires p in T
  {
    && |m'| == |m| && n * PAGE_WORDS + PAGE_WORDS <= |m|
    && forall w: nat :: w < |m| ==>
         m'[w] == if n * PAGE_WORDS <= w < n * PAGE_WORDS + PAGE_WORDS then 0
                  else if w == EntryWord(T[p], i) then TablePointer(n) else m[w]
  }

  lemma AddedLinked(m: seq<nat>, m': seq<nat>, T: Tables, root: nat, p: seq<nat>, i: nat, n: nat)
    requires Linked(m, T) && Distinct(T) && Rooted(T, root) && p in T && |p| < 3 && i < 512 && p + [i] !in T
    requires Hung(m, m', T, p, i, n) && forall q :: q in T ==> T[q] != n
    ensures Linked(m', T[p + [i] := n])
  {
    var T' := T[p + [i] := n];
    forall q, j: nat | q in T' && |q| < 3 && j < 512 ensures EntryWord(T'[q], j) < |m'| && EntryOk(m', T', q, j) {
      if q == p + [i] {
        NoGrandchild(T, root, q, j);
      } else {
        assert EntryOk(m, T, q, j);
        if q == p && j == i {
        } else {
          if q != p { OtherTable(T, q, p, j, i); }
          assert q + [j] != p + [i] by { SnocUnique(q, j, p, i); }
        }
      }
    }
  }

  lemma AddedLeaves(m: seq<nat>, m': seq<nat>, T: Tables, p: seq<nat>, i: nat, n: nat)
    requires Distinct(T) && p in T && |p| < 3 && i < 512 && p + [i] !in T
    requires Hung(m, m', T, p, i, n) && forall q :: q in T ==> T[q] != n
    ensures forall page: nat :: Leaf(m', T[p + [i] := n], page) == Leaf(m, T, page)
  {
    var T' := T[p + [i] := n];
    forall page: nat ensures Leaf(m', T', page) == Leaf(m, T, page) {
      if Path(page) in T { OtherTable(T, Path(page), p, Digit(page, 3), i); }
    }
  }

  /** Nothing hangs below a table that does not exist. */
  lemma NoGrandchild(T: Tables, root: nat, q: seq<nat>, j: nat)
    requires Rooted(T, root) && q !in T
    ensures q + [j] !in T
  {
    assert (q + [j])[..|q|] == q;
  }

  lemma SnocUnique(q: seq<nat>, j: nat, p: seq<nat>, i: nat)
    requires q != p || j != i
    ensures q + [j] != p + [i]
  {
    assert (q + [j])[..|q|] == q && (p + [i])[..|p|] == p;
    assert (q + [j])[|q|] == j && (p + [i])[|p|] == i;
  }

  // ---- walking -------------------------------------------------------------

  ghost function Own(T: Tables): set<Span> {
    set p | p in T :: TableSpan(T[p])
  }

  ghost predicate Grown(T: Tables, T': Tables, live: set<Span>, live': set<Span>) {
    && (forall p :: p in T ==> p in T' && T'[p] == T[p])
    && live' == live + Own(T')
    && (forall p :: p in T' && p !in T ==> TableSpan(T'[p]) !in live)
  }

  /** What a page's bytes translate to: simulate_walk's answer. */
  ghost function Translate(m: seq<nat>, T: Tables, va: nat): nat {
    if HasTables(T, Page(va)) then Or(AddrOf(Leaf(m, T, Page(va))), And(va, 0xfff)) else 0
  }

  lemma EmptyTree(m: seq<nat>, live: set<Span>, frame: nat)
    requires 8 * |m| <= PHYS_LIMIT && TableSpan(frame) in live && frame * PAGE_WORDS + PAGE_WORDS <= |m|
    requires forall w: nat :: w < |m| && frame * PAGE_WORDS <= w < frame * PAGE_WORDS + PAGE_WORDS ==> m[w] == 0
    ensures TreeOk(m, map[[] := frame], frame, live)
    ensures forall page: nat :: Leaf(m, map[[] := frame], page) == 0
  {
  }

  class AddressSpace {
    const heap: Heap
    const virtPgd: nat
    ghost const root: nat
    ghost var tables: Tables

    ghost predicate Valid()
      reads this, heap.Repr()
    {
      && this !in heap.Repr()
      && heap.Valid()
      && TreeOk(heap.mem[..], tables, root, heap.live)
      && virtPgd == PhysToVirt(4096 * root)
    }

    /** create_empty_page_table, with its page already allocated */
    constructor (heap: Heap, frame: nat)
      requires heap.Valid() && TableSpan(frame) in heap.live
      requires forall w: nat :: w < heap.mem.Length && frame * PAGE_WORDS <= w < frame * PAGE_WORDS + PAGE_WORDS ==>
                 heap.mem[w] == 0
      ensures Valid() && this.heap == heap && root == frame && tables == map[[] := frame]
      ensures forall page: nat :: Leaf(heap.mem[..], tables, page) == 0
    {
      hide TreeOk, Leaf, SlabsOk, LiveIs;
      this.heap := heap;
      virtPgd := PhysToVirt(4096 * frame);
      root := frame;
      tables := map[[] := frame];
      new;
      heap.LiveInMemory(TableSpan(frame));
      heap.Sizes();
      EmptyTree(heap.mem[..], heap.live, frame);
    }

    /** One level of walk: follow entry `idx` of the table at path p, creating the next table when it is empty.
        False: no page was left, and the kernel goes on with a wild table. */
    method Descend(tableP: nat, idx: nat, ghost p: seq<nat>) returns (next: nat, ok: bool)
      requires Valid() && p in tables && |p| < 3 && idx < 512 && tableP == PhysToVirt(4096 * tables[p])
      modifies this, heap.Repr()
      ensures Valid() && Grown(old(tables), tables, old(heap.live), heap.live)
      ensures Kept(old(heap.live) - Own(old(tables)), old(heap.mem[..]), heap.mem[..])
      ensures forall page: nat :: Leaf(heap.mem[..], tables, page) == Leaf(old(heap.mem[..]), old(tables), page)
      ensures ok ==> p + [idx] in tables && next == PhysToVirt(4096 * tables[p + [idx]])
      ensures AddedOnly(old(tables), tables, p + [idx])
      ensures !ok ==> p + [idx] !in old(tables) && heap.NoBlock(0)
    {
      hide Heap.Valid, Linked, Placed, Distinct, Rooted, Kept, Own;
      ghost var T, live, m := tables, heap.live, heap.mem[..];
      TableBounds(m, T, root, live, p, idx);
      TreeGrownRefl(m, T, root, live);
      KeptSame(live - Own(T), m);
      var w := VirtToPhys(tableP) / 8 + idx;
      ok := true;
      if heap.mem[w] == 0 {
        EntryEmpty(m, T, root, live, p, idx);
        ok := AddTable(w, p, idx);
        if !ok { return 0, false; }
      } else {
        EntryFull(m, T, root, live, p, idx);
      }
      TableBounds(heap.mem[..], tables, root, heap.live, p, idx);
      EntryFollows(heap.mem[..], tables, root, heap.live, p, idx);
      next := PhysToVirt(AddrOf(heap.mem[w]));
    }

    /** The empty entry at word w gets a fresh table. */
    method AddTable(w: nat, ghost p: seq<nat>, ghost idx: nat) returns (ok: bool)
      requires Valid() && p in tables && |p| < 3 && idx < 512 && p + [idx] !in tables && w == EntryWord(tables[p], idx)
      modifies this, heap.Repr()
      ensures Valid() && Grown(old(tables), tables, old(heap.live), heap.live)
      ensures Kept(old(heap.live) - Own(old(tables)), old(heap.mem[..]), heap.mem[..])
      ensures forall page: nat :: Leaf(heap.mem[..], tables, page) == Leaf(old(heap.mem[..]), old(tables), page)
      ensures ok ==> p + [idx] in tables && tables[p] == old(tables[p])
      ensures AddedOnly(old(tables), tables, p + [idx])
      ensures !ok ==> heap.NoBlock(0)
    {
      hide Heap.Valid, Linked, Distinct, Rooted, Kept;
      ghost var T, live, m := tables, heap.live, heap.mem[..];
      TableBounds(m, T, root, live, p, idx);
      TreeGrownRefl(m, T, root, live);
      heap.OthersKept(TableSpan(T[p]));
      var frame := CreateEmptyPageTable(heap);
      TablesKept(m, heap.mem[..], T, live);
      TreeElsewhere(m, heap.mem[..], T, root, live, heap.live);
      KeptLess(live, live - Own(T), m, heap.mem[..]);
      if frame.None? { return false; }
      var n := frame.value;
      FrameIsNew(T, live, |m|, n);
      ghost var m1 := heap.mem[..];
      var entry := TablePointer(n);
      OutsideOthers(T, live, p, w);
      heap.Store(w, entry, TableSpan(T[p]));
      tables := tables[p + [idx] := n];
      assert T[p] != n;
      TableAdded(m1, heap.mem[..], T, root, heap.live, p, idx, n);
      GrownByOne(T, p + [idx], n, live);
      KeptThrough(live - Own(T), m, m1, w, entry);
      ok := true;
    }

    /** walk: one page is mapped, every other page keeps its entry. */
    method Walk(va: nat, pa: nat, flag: nat) returns (ok: bool)
      requires Valid()
      modifies this, heap.Repr()
      ensures Valid() && Grown(old(tables), tables, old(heap.live), heap.live)
      ensures Kept(old(heap.live) - Own(old(tables)), old(heap.mem[..]), heap.mem[..])
      // the index masks drop what lies above bit 47
      ensures forall q: nat :: q < PAGES ==>
                Leaf(heap.mem[..], tables, q) ==
                if ok && q == Page(va) % PAGES then LeafEntry(pa, flag) else Leaf(old(heap.mem[..]), old(tables), q)
      ensures ok ==> HasTables(tables, Page(va) % PAGES)
      // no table is added but those on the way to this page
      ensures Needed(old(tables), tables, Page(va) % PAGES, 1)
      // the entry is a valid page descriptor that carries the flag
      ensures ok ==> var e := Leaf(heap.mem[..], tables, Page(va) % PAGES); e % 4 == 3 && And(e, flag) == flag
      // it fails only when a table is missing and no page is left for it
      ensures !ok ==> !HasTables(old(tables), Page(va) % PAGES) && heap.NoBlock(0)
    {
      hide Heap.Valid, TreeOk, Kept, Grown, Own, Leaf, LeafEntry, Descended, Needed, AddedOnly;
      ghost var page := Page(va) % PAGES;
      var tableP := virtPgd;
      var level: nat := 0;
      ok := true;
      WalkStart();
      NeededNone(tables, page, 1);
      TreeRooted(heap.mem[..], tables, root, heap.live);
      while level < 3
        invariant level <= 3 && Valid()
        invariant Descended(old(tables), tables, old(heap.live), heap.live, old(heap.mem[..]), heap.mem[..])
        invariant Needed(old(tables), tables, page, 1)
        invariant Path(page)[..level] in tables && tableP == PhysToVirt(4096 * tables[Path(page)[..level]])
        decreases 3 - level
      {
        var idx := Index(va, level);
        IndexIsDigit(va, level);
        DigitWraps(Page(va), level);
        ghost var T, live, m := tables, heap.live, heap.mem[..];
        var next, found := Descend(tableP, idx, Path(page)[..level]);
        DescendedStep(old(tables), T, tables, old(heap.live), live, heap.live, old(heap.mem[..]), m, heap.mem[..]);
        assert Path(page)[..level] + [idx] == Path(page)[..level + 1];
        NeededOne(old(tables), T, tables, page, level + 1);
        if !found {
          DescendedFacts(old(tables), tables, old(heap.live), heap.live, old(heap.mem[..]), heap.mem[..]);
          StillMissing(old(tables), T, old(heap.live), live, old(heap.mem[..]), m, root, page, level);
          return false;
        }
        tableP := next;
        level := level + 1;
      }
      assert Path(page)[..3] == Path(page);
      var idx := Index(va, 3);
      IndexIsDigit(va, 3);
      DigitWraps(Page(va), 3);
      LeafBits(pa, flag);
      WriteLeaf(tableP, idx, LeafEntry(pa, flag), page, old(tables), old(heap.live), old(heap.mem[..]));
    }

    lemma WalkStart()
      requires Valid()
      ensures Descended(tables, tables, heap.live, heap.live, heap.mem[..], heap.mem[..])
      ensures [] in tables && virtPgd == PhysToVirt(4096 * tables[[]])
    {
      TreeGrownRefl(heap.mem[..], tables, root, heap.live);
    }

    /** The last step of walk. */
    method WriteLeaf(tableP: nat, idx: nat, entry: nat, ghost page: nat,
                     ghost T0: Tables, ghost live0: set<Span>, ghost m0: seq<nat>)
      requires Valid() && page < PAGES && idx == Digit(page, 3)
      requires HasTables(tables, page) && tableP == PhysToVirt(4096 * tables[Path(page)])
      requires Descended(T0, tables, live0, heap.live, m0, heap.mem[..])
      modifies heap.mem
      ensures Valid() && Grown(T0, tables, live0, heap.live) && Kept(live0 - Own(T0), m0, heap.mem[..])
      ensures forall q: nat :: q < PAGES ==> Leaf(heap.mem[..], tables, q) == if q == page then entry else Leaf(m0, T0, q)
    {
      hide Heap.Valid, Kept, Descended, Grown, Own, Placed, Distinct, Rooted, Linked, Leaf, Meet;
      DescendedFacts(T0, tables, live0, heap.live, m0, heap.mem[..]);
      ghost var m := heap.mem[..];
      ghost var sp := TableSpan(tables[Path(page)]);
      TableBounds(m, tables, root, heap.live, Path(page), idx);
      LeafWritten(m, tables, root, heap.live, page, entry);
      heap.OthersKept(sp);
      var w := VirtToPhys(tableP) / 8 + idx;
      OutsideOlder(T0, tables, live0, heap.live, Path(page), w);
      heap.Store(w, entry, sp);
      KeptThrough(live0 - Own(T0), m0, m, w, entry);
    }

    /** simulate_walk reads back the flat map. */
    method SimulateWalk(va: nat) returns (r: nat)
      requires Valid()
      ensures r == Translate(heap.mem[..], tables, va)
      ensures !HasTables(tables, Page(va)) ==> r == 0
    {
      hide Heap.Valid, Linked, Placed, Distinct, Rooted;
      ghost var page, m := Page(va), heap.mem[..];
      var tableP := virtPgd;
      WalkStart();
      var level: nat := 0;
      while level < 3
        invariant level <= 3 && Path(page)[..level] in tables
        invariant tableP == PhysToVirt(4096 * tables[Path(page)[..level]])
        decreases 3 - level
      {
        var idx := Index(va, level);
        ghost var p := Path(page)[..level];
        IndexIsDigit(va, level);
        TableBounds(m, tables, root, heap.live, p, idx);
        assert p + [idx] == Path(page)[..level + 1];
        var entry := heap.mem[VirtToPhys(tableP) / 8 + idx];
        if entry == 0 {
          EntryEmpty(m, tables, root, heap.live, p, idx);
          PrefixMissing(tables, root, Path(page), level + 1) by { TreeRooted(m, tables, root, heap.live); }
          return 0;
        }
        EntryFull(m, tables, root, heap.live, p, idx);
        EntryFollows(m, tables, root, heap.live, p, idx);
        tableP := PhysToVirt(AddrOf(entry));
        level := level + 1;
      }
      assert Path(page)[..3] == Path(page);
      var idx := Index(va, 3);
      IndexIsDigit(va, 3);
      TableBounds(m, tables, root, heap.live, Path(page), idx);
      r := Or(AddrOf(heap.mem[VirtToPhys(tableP) / 8 + idx]), And(va, 0xfff));
    }

    /** map_pages: page after page from va on is mapped to page after page from pa on. */
    method MapPages(va: nat, size: nat, pa: nat, flag: nat) returns (ok: bool)
      requires Valid() && va % 4096 == 0 && va + size <= PHYS_LIMIT
      modifies this, heap.Repr()
      ensures Valid() && Grown(old(tables), tables, old(heap.live), heap.live)
      ensures Kept(old(heap.live) - Own(old(tables)), old(heap.mem[..]), heap.mem[..])
      ensures forall q: nat :: q < PAGES && !(Page(va) <= q < Page(va) + PagesOf(size)) ==>
                Leaf(heap.mem[..], tables, q) == Leaf(old(heap.mem[..]), old(tables), q)
      ensures ok ==> forall q: nat :: Page(va) <= q < Page(va) + PagesOf(size) ==>
                Leaf(heap.mem[..], tables, q) == LeafEntry(pa + (q - Page(va)) * 4096, flag) && HasTables(tables, q)
      // no table is added but those on the way to these pages
      ensures Needed(old(tables), tables, Page(va), PagesOf(size))
      ensures !ok ==> heap.NoBlock(0)
    {
      hide Heap.Valid, TreeOk, Kept, Grown, Own, Leaf, LeafEntry, HasTables, Mapped, Needed;
      ghost var T, live, m := tables, heap.live, heap.mem[..];
      MappedStart(va, pa, flag);
      NeededNone(T, Page(va), 0);
      var i: nat := 0;
      ok := true;
      while i < size
        invariant i % 4096 == 0 && i < size + 4096 && Valid()
        invariant Mapped(T, tables, live, heap.live, m, heap.mem[..], Page(va), i / 4096, pa, flag)
        invariant Needed(T, tables, Page(va), i / 4096)
        decreases size + 4096 - i
      {
        ghost var T1, live1, m1 := tables, heap.live, heap.mem[..];
        ok := Walk(va + i, pa + i, flag);
        assert Page(va + i) % PAGES == Page(va + i) == Page(va) + i / 4096 && pa + i == pa + i / 4096 * 4096;
        MappedStep(T, T1, tables, live, live1, heap.live, m, m1, heap.mem[..], Page(va), i / 4096, pa, flag, ok);
        NeededStep(T, T1, tables, Page(va), i / 4096, PagesOf(size));
        if !ok {
          MappedFacts(T, tables, live, heap.live, m, heap.mem[..], Page(va), i / 4096, pa, flag);
          return;
        }
        i := i + 4096;
      }
      assert i / 4096 == PagesOf(size);
      MappedFacts(T, tables, live, heap.live, m, heap.mem[..], Page(va), i / 4096, pa, flag);
    }

    lemma MappedStart(va: nat, pa: nat, flag: nat)
      requires Valid()
      ensures Mapped(tables, tables, heap.live, heap.live, heap.mem[..], heap.mem[..], Page(va), 0, pa, flag)
    {
      TreeGrownRefl(heap.mem[..], tables, root, heap.live);
    }
  }

  /** Table p is new, or nothing is. */
  ghost predicate AddedOnly(T: Tables, T': Tables, p: seq<nat>) {
    forall q :: q in T' ==> q in T || q == p
  }

  /** The table at path q is on the way to this page. */
  ghost predicate OnTheWay(q: seq<nat>, page: nat) {
    |q| <= 3 && q == Path(page)[..|q|]
  }

  /** Every new table is on the way to one of the n pages from `first` on. */
  ghost predicate Needed(T: Tables, T': Tables, first: nat, n: nat) {
    forall q :: q in T' && q !in T ==> exists page: nat :: first <= page < first + n && OnTheWay(q, page)
  }

  lemma NeededNone(T: Tables, first: nat, n: nat)
    ensures Needed(T, T, first, n)
  {
  }

  lemma NeededOne(T: Tables, T1: Tables, T2: Tables, page: nat, l: nat)
    requires l <= 3 && Needed(T, T1, page, 1) && AddedOnly(T1, T2, Path(page)[..l])
    ensures Needed(T, T2, page, 1)
  {
    assert OnTheWay(Path(page)[..l], page);
  }

  lemma NeededStep(T: Tables, T1: Tables, T2: Tables, first: nat, n: nat, most: nat)
    requires Needed(T, T1, first, n) && Needed(T1, T2, first + n, 1) && n < most
    ensures Needed(T, T2, first, n + 1) && Needed(T, T2, first, most)
  {
  }

  lemma TreeRooted(m: seq<nat>, T: Tables, root: nat, live: set<Span>)
    requires TreeOk(m, T, root, live)
    ensures Rooted(T, root)
  {
  }

  /** A table is missing when one above it is. */
  lemma {:induction false} PrefixMissing(T: Tables, root: nat, p: seq<nat>, n: nat)
    requires Rooted(T, root) && n <= |p| && p[..n] !in T
    ensures p !in T
    decreases |p| - n
  {
    if n < |p| {
      assert p[..n + 1][..n] == p[..n];
      PrefixMissing(T, root, p, n + 1);
    } else {
      assert p[..n] == p;
    }
  }

  function PagesOf(size: nat): nat { (size + 4095) / 4096 }

  /** n pages from page number `first` on have been mapped. */
  ghost predicate Mapped(T: Tables, T': Tables, live: set<Span>, live': set<Span>, m: seq<nat>, m': seq<nat>,
                         first: nat, n: nat, pa: nat, flag: nat) {
    && Grown(T, T', live, live') && Kept(live - Own(T), m, m')
    && Leaves(T, T', m, m', first, n, pa, flag)
    && (forall q: nat :: first <= q < first + n ==> HasTables(T', q))
  }

  /** Pages first .. first + n - 1 are mapped to consecutive frames; every other leaf is unchanged. */
  ghost predicate Leaves(T: Tables, T': Tables, m: seq<nat>, m': seq<nat>, first: nat, n: nat, pa: nat, flag: nat) {
    && (forall q: nat :: q < PAGES && !(first <= q < first + n) ==> Leaf(m', T', q) == Leaf(m, T, q))
    && (forall q: nat :: first <= q < first + n ==> Leaf(m', T', q) == LeafEntry(pa + (q - first) * 4096, flag))
  }

  lemma LeavesStep(T: Tables, T1: Tables, T2: Tables, m: seq<nat>, m1: seq<nat>, m2: seq<nat>,
                   first: nat, n: nat, pa: nat, flag: nat, ok: bool)
    requires Leaves(T, T1, m, m1, first, n, pa, flag) && first + n < PAGES
    requires forall q: nat :: q < PAGES ==>
               Leaf(m2, T2, q) == if ok && q == first + n then LeafEntry(pa + n * 4096, flag) else Leaf(m1, T1, q)
    ensures Leaves(T, T2, m, m2, first, if ok then n + 1 else n, pa, flag)
  {
    hide Leaf, LeafEntry;
  }

  lemma MappedFacts(T: Tables, T': Tables, live: set<Span>, live': set<Span>, m: seq<nat>, m': seq<nat>,
                    first: nat, n: nat, pa: nat, flag: nat)
    requires Mapped(T, T', live, live', m, m', first, n, pa, flag)
    ensures Grown(T, T', live, live') && Kept(live - Own(T), m, m')
    ensures forall q: nat :: q < PAGES && !(first <= q < first + n) ==> Leaf(m', T', q) == Leaf(m, T, q)
    ensures forall q: nat :: first <= q < first + n ==>
              Leaf(m', T', q) == LeafEntry(pa + (q - first) * 4096, flag) && HasTables(T', q)
  {
  }

  lemma MappedStep(T: Tables, T1: Tables, T2: Tables, l: set<Span>, l1: set<Span>, l2: set<Span>,
                   m: seq<nat>, m1: seq<nat>, m2: seq<nat>, first: nat, n: nat, pa: nat, flag: nat, ok: bool)
    requires Mapped(T, T1, l, l1, m, m1, first, n, pa, flag) && first + n < PAGES
    requires Grown(T1, T2, l1, l2) && Kept(l1 - Own(T1), m1, m2)
    requires forall q: nat :: q < PAGES ==>
               Leaf(m2, T2, q) == if ok && q == first + n then LeafEntry(pa + n * 4096, flag) else Leaf(m1, T1, q)
    requires ok ==> HasTables(T2, first + n)
    ensures Mapped(T, T2, l, l2, m, m2, first, if ok then n + 1 else n, pa, flag)
  {
    GrownTrans(T, T1, T2, l, l1, l2);
    OlderOthers(T, T1, l, l1);
    KeptOn(l - Own(T), l1 - Own(T1), m, m1, m2);
    LeavesStep(T, T1, T2, m, m1, m2, first, n, pa, flag, ok);
    hide Leaves, Leaf, LeafEntry, Grown, Own, HasTables, Kept;
    forall q: nat | first <= q < first + n ensures HasTables(T2, q) {
      assert HasTables(T1, q);
      StillTables(T1, T2, l1, l2, q);
    }
  }

  lemma KeptOn(some: set<Span>, more: set<Span>, m: seq<nat>, m1: seq<nat>, m2: seq<nat>)
    requires some <= more && Kept(some, m, m1) && Kept(more, m1, m2)
    ensures Kept(some, m, m2)
  {
  }

  lemma StillTables(T: Tables, T': Tables, l: set<Span>, l': set<Span>, q: nat)
    requires Grown(T, T', l, l') && HasTables(T, q)
    ensures HasTables(T', q)
  {
  }

  /** A mapped address translates to its physical page plus the offset in the page. */
  lemma MappedTranslates(m: seq<nat>, T: Tables, va: nat, pa: nat, flag: nat)
    requires HasTables(T, Page(va)) && Leaf(m, T, Page(va)) == LeafEntry(pa, flag)
    requires pa % 4096 == 0 && pa < PHYS_LIMIT && AddrOf(flag) == 0
    ensures Translate(m, T, va) == pa + va % 4096
  {
    LeafAddress(pa, flag);
    Powers();
    AndLow(va, 12);
    OrLow(pa, va % 4096, 12);
  }

  /** What map_pages leaves: every address of the range, rounded up to whole pages, translates to pa plus the
      same offset. */
  lemma RangeTranslates(m: seq<nat>, T: Tables, va: nat, size: nat, pa: nat, flag: nat, x: nat)
    requires va % 4096 == 0 && pa % 4096 == 0 && AddrOf(flag) == 0 && pa + size + 4095 < PHYS_LIMIT
    requires forall q: nat :: Page(va) <= q < Page(va) + PagesOf(size) ==>
               Leaf(m, T, q) == LeafEntry(pa + (q - Page(va)) * 4096, flag) && HasTables(T, q)
    requires exists y: nat :: va <= y < va + size && Page(y) == Page(x)
    ensures Translate(m, T, x) == pa + x - va
  {
    hide Translate, AddrOf, Leaf, LeafEntry, HasTables;
    RoundedUp(va, size, Page(x));
    PageOffset(va, size, pa, x);
    hide Page, PagesOf;
    MappedTranslates(m, T, x, pa + (Page(x) - Page(va)) * 4096, flag);
  }

  lemma PageOffset(va: nat, size: nat, pa: nat, x: nat)
    requires va % 4096 == 0 && pa % 4096 == 0 && Page(va) <= Page(x) < Page(va) + PagesOf(size)
    ensures var p := pa + (Page(x) - Page(va)) * 4096;
            p % 4096 == 0 && p < pa + size + 4095 && p + x % 4096 == pa + x - va
  {
    assert va == 4096 * Page(va) && x == 4096 * Page(x) + x % 4096;
  }

  /** The pages of a range are those that hold a byte of it. */
  lemma RoundedUp(va: nat, size: nat, q: nat)
    requires va % 4096 == 0
    ensures Page(va) <= q < Page(va) + PagesOf(size) <==> exists y: nat :: va <= y < va + size && Page(y) == q
  {
    if Page(va) <= q < Page(va) + PagesOf(size) {
      assert va <= 4096 * q < va + size && Page(4096 * q) == q;
    }
  }

  /** Going down the tree so far: only fresh tables were added, and the map is the same. */
  ghost predicate Descended(T: Tables, T': Tables, live: set<Span>, live': set<Span>, m: seq<nat>, m': seq<nat>) {
    && Grown(T, T', live, live') && Kept(live - Own(T), m, m')
    && forall q: nat :: Leaf(m', T', q) == Leaf(m, T, q)
  }

  lemma DescendedFacts(T: Tables, T': Tables, live: set<Span>, live': set<Span>, m: seq<nat>, m': seq<nat>)
    requires Descended(T, T', live, live', m, m')
    ensures Grown(T, T', live, live') && Kept(live - Own(T), m, m')
    ensures forall q: nat :: Leaf(m', T', q) == Leaf(m, T, q)
  {
  }

  lemma DescendedStep(T: Tables, T1: Tables, T2: Tables, l: set<Span>, l1: set<Span>, l2: set<Span>,
                      m: seq<nat>, m1: seq<nat>, m2: seq<nat>)
    requires Descended(T, T1, l, l1, m, m1) && Grown(T1, T2, l1, l2) && Kept(l1 - Own(T1), m1, m2)
    requires forall q: nat :: Leaf(m2, T2, q) == Leaf(m1, T1, q)
    ensures Descended(T, T2, l, l2, m, m2)
  {
    GrownTrans(T, T1, T2, l, l1, l2);
    OlderOthers(T, T1, l, l1);
  }

  /** A table that is missing below was missing from the start. */
  lemma StillMissing(T: Tables, T': Tables, live: set<Span>, live': set<Span>, m: seq<nat>, m': seq<nat>,
                     root: nat, page: nat, level: nat)
    requires Descended(T, T', live, live', m, m') && Rooted(T, root) && level < 3
    requires Path(page)[..level + 1] !in T'
    ensures !HasTables(T, page)
  {
    PrefixMissing(T, root, Path(page), level + 1);
  }

  /** What was not a table of ours, and in somebody's hands, still is not. */
  lemma OlderOthers(T: Tables, T1: Tables, l: set<Span>, l1: set<Span>)
    requires Grown(T, T1, l, l1)
    ensures l - Own(T) <= l1 - Own(T1)
  {
    forall s | s in Own(T1) ensures s in Own(T) || s !in l {
      var p :| p in T1 && s == TableSpan(T1[p]);
      assert p in T ==> TableSpan(T[p]) in Own(T);
    }
  }

  lemma OutsideOlder(T0: Tables, T: Tables, live0: set<Span>, live: set<Span>, p: seq<nat>, w: nat)
    requires Grown(T0, T, live0, live) && p in T && T[p] * PAGE_WORDS <= w < T[p] * PAGE_WORDS + PAGE_WORDS
    requires forall q :: q in live && q != TableSpan(T[p]) ==> !Meet(q, TableSpan(T[p]))
    ensures forall s :: s in live0 - Own(T0) ==> !(s.word <= w < s.word + s.count)
  {
    OlderOthers(T0, T, live0, live);
    OutsideOthers(T, live, p, w);
  }

  lemma KeptSame(live: set<Span>, m: seq<nat>)
    ensures Kept(live, m, m)
  {
  }

  lemma KeptLess(live: set<Span>, less: set<Span>, m: seq<nat>, m': seq<nat>)
    requires Kept(live, m, m') && less <= live
    ensures Kept(less, m, m')
  {
  }

  lemma TreeGrownRefl(m: seq<nat>, T: Tables, root: nat, live: set<Span>)
    requires TreeOk(m, T, root, live)
    ensures Grown(T, T, live, live) && IsSubset(T, live)
  {
    assert live + Own(T) == live;
  }

  ghost predicate IsSubset(T: Tables, live: set<Span>) {
    forall p :: p in T ==> TableSpan(T[p]) in live
  }

  /** A word of a table is in nobody else's span. */
  lemma OutsideOthers(T: Tables, live: set<Span>, p: seq<nat>, w: nat)
    requires p in T && T[p] * PAGE_WORDS <= w < T[p] * PAGE_WORDS + PAGE_WORDS
    requires forall q :: q in live && q != TableSpan(T[p]) ==> !Meet(q, TableSpan(T[p]))
    ensures forall s :: s in live - Own(T) ==> !(s.word <= w < s.word + s.count)
  {
    assert TableSpan(T[p]) in Own(T);
    forall s | s in live - Own(T) ensures !(s.word <= w < s.word + s.count) {
      assert s != TableSpan(T[p]) && !Meet(s, TableSpan(T[p]));
    }
  }

  /** Where entry idx of the table at path p is, by the kernel's pointer to the table. */
  lemma TableBounds(m: seq<nat>, T: Tables, root: nat, live: set<Span>, p: seq<nat>, idx: nat)
    requires TreeOk(m, T, root, live) && p in T && idx < 512
    ensures EntryWord(T[p], idx) < |m| && T[p] < PAGES && TableSpan(T[p]) in live
    ensures VirtToPhys(PhysToVirt(4096 * T[p])) / 8 + idx == EntryWord(T[p], idx)
  {
    assert T[p] * PAGE_WORDS + PAGE_WORDS <= |m|;
    LinearMap(4096 * T[p]);
  }

  lemma EntryEmpty(m: seq<nat>, T: Tables, root: nat, live: set<Span>, p: seq<nat>, idx: nat)
    requires TreeOk(m, T, root, live) && p in T && |p| < 3 && idx < 512 && EntryWord(T[p], idx) < |m|
    requires m[EntryWord(T[p], idx)] == 0
    ensures p + [idx] !in T && IsPath(p)
  {
    assert EntryOk(m, T, p, idx);
    if p + [idx] in T {
      TableBounds(m, T, root, live, p + [idx], 0);
      TablePointerIs(T[p + [idx]]);
    }
  }

  lemma EntryFull(m: seq<nat>, T: Tables, root: nat, live: set<Span>, p: seq<nat>, idx: nat)
    requires TreeOk(m, T, root, live) && p in T && |p| < 3 && idx < 512 && EntryWord(T[p], idx) < |m|
    requires m[EntryWord(T[p], idx)] != 0
    ensures p + [idx] in T
  {
    assert EntryOk(m, T, p, idx);
  }

  lemma EntryFollows(m: seq<nat>, T: Tables, root: nat, live: set<Span>, p: seq<nat>, idx: nat)
    requires TreeOk(m, T, root, live) && p in T && |p| < 3 && idx < 512 && EntryWord(T[p], idx) < |m|
    requires p + [idx] in T
    ensures AddrOf(m[EntryWord(T[p], idx)]) == 4096 * T[p + [idx]]
  {
    assert EntryOk(m, T, p, idx);
    TableBounds(m, T, root, live, p + [idx], 0);
    TablePointerIs(T[p + [idx]]);
  }

  lemma GrownByOne(T: Tables, p: seq<nat>, n: nat, live: set<Span>)
    requires p !in T && TableSpan(n) !in live && forall q :: q in T ==> TableSpan(T[q]) in live
    ensures Grown(T, T[p := n], live, live + {TableSpan(n)})
  {
    var T' := T[p := n];
    assert TableSpan(T'[p]) in Own(T');
    assert live + {TableSpan(n)} == live + Own(T');
  }

  lemma GrownTrans(T: Tables, U: Tables, V: Tables, l: set<Span>, m: set<Span>, n: set<Span>)
    requires Grown(T, U, l, m) && Grown(U, V, m, n)
    ensures Grown(T, V, l, n)
  {
    forall s | s in Own(U) ensures s in Own(V) {
      var p :| p in U && s == TableSpan(U[p]);
      assert p in V && V[p] == U[p];
    }
    assert n == l + Own(V);
  }

  lemma TablesKept(m: seq<nat>, m': seq<nat>, T: Tables, live: set<Span>)
    requires Kept(live, m, m') && forall p :: p in T ==> TableSpan(T[p]) in live
    ensures forall p, w: nat :: p in T && T[p] * PAGE_WORDS <= w < T[p] * PAGE_WORDS + PAGE_WORDS && w < |m| ==> m'[w] == m[w]
  {
    forall p, w: nat | p in T && T[p] * PAGE_WORDS <= w < T[p] * PAGE_WORDS + PAGE_WORDS && w < |m| ensures m'[w] == m[w] {
      assert TableSpan(T[p]) in live;
    }
  }

  lemma FrameIsNew(T: Tables, live: set<Span>, words: nat, n: nat)
    requires TableSpan(n) !in live && forall p :: p in T ==> TableSpan(T[p]) in live
    ensures forall q :: q in T ==> T[q] != n
  {
  }

  /** A write to a table is a write outside everybody else's memory. */
  lemma KeptThrough(live: set<Span>, m: seq<nat>, m1: seq<nat>, w: nat, e: nat)
    requires Kept(live, m, m1) && w < |m1|
    requires forall s :: s in live ==> !(s.word <= w < s.word + s.count)
    ensures Kept(live, m, m1[w := e])
  {
  }

  /** memset of a page to zero */
  method ZeroPage(heap: Heap, frame: nat)
    requires heap.Valid() && TableSpan(frame) in heap.live
    modifies heap.mem
    ensures heap.Valid() && frame * PAGE_WORDS + PAGE_WORDS <= heap.mem.Length
    ensures forall w: nat :: w < heap.mem.Length ==>
              heap.mem[w] == if frame * PAGE_WORDS <= w < frame * PAGE_WORDS + PAGE_WORDS then 0 else old(heap.mem[w])
  {
    heap.LiveInMemory(TableSpan(frame));
    var i: nat := 0;
    while i < PAGE_WORDS
      invariant i <= PAGE_WORDS && heap.Valid()
      invariant forall w: nat :: w < heap.mem.Length ==>
                  heap.mem[w] == if frame * PAGE_WORDS <= w < frame * PAGE_WORDS + i then 0 else old(heap.mem[w])
    {
      ghost var m := heap.mem[..];
      heap.Store(frame * PAGE_WORDS + i, 0, TableSpan(frame));
      forall w: nat | w < heap.mem.Length
        ensures heap.mem[w] == if frame * PAGE_WORDS <= w < frame * PAGE_WORDS + i + 1 then 0 else old(heap.mem[w])
      {
        assert heap.mem[w] == heap.mem[..][w];
        assert m[w] == if frame * PAGE_WORDS <= w < frame * PAGE_WORDS + i then 0 else old(heap.mem[w]);
      }
      i := i + 1;
    }
  }

  /** create_empty_page_table: a zeroed page that nobody held before. */
  method CreateEmptyPageTable(heap: Heap) returns (frame: Option<nat>)
    requires heap.Valid()
    modifies heap.Repr()
    ensures heap.Valid() && Kept(old(heap.live), old(heap.mem[..]), heap.mem[..])
    ensures frame.None? <==> old(heap.NoBlock(0))
    ensures frame.None? ==> heap.live == old(heap.live) && heap.NoBlock(0)
    ensures frame.Some? ==> ZeroedPage(heap.mem[..], frame.value)
                            && TableSpan(frame.value) !in old(heap.live)
                            && heap.live == old(heap.live) + {TableSpan(frame.value)}
                            && forall q :: q in old(heap.live) ==> !Meet(q, TableSpan(frame.value))
  {
    hide Heap.Valid, Buddy.Took, FromSlab, Tiling.Moves, CutShort, PhysToVirt, VirtToPhys;
    assert OrderOf(4096) == 0 && Pow2(0) == 1;
    var ptr, sp := heap.Kmalloc(4096);
    if ptr.None? { return None; }
    var n := VirtToPhys(ptr.value) / 4096;
    PageOfPointer(heap, ptr.value, sp);
    ghost var m := heap.mem[..];
    ZeroPage(heap, n);
    frame := Some(n);
    assert forall w: nat :: w < |m| && !(n * PAGE_WORDS <= w < n * PAGE_WORDS + PAGE_WORDS) ==> heap.mem[..][w] == m[w];
    KeptOutside(old(heap.live), m, heap.mem[..], sp);
  }

  ghost predicate ZeroedPage(m: seq<nat>, frame: nat) {
    && frame * PAGE_WORDS + PAGE_WORDS <= |m|
    && forall w: nat :: frame * PAGE_WORDS <= w < frame * PAGE_WORDS + PAGE_WORDS ==> m[w] == 0
  }

  lemma PageOfPointer(heap: Heap, v: nat, sp: Span)
    requires heap.Valid() && sp in heap.live && sp.word % PAGE_WORDS == 0 && sp.count == PAGE_WORDS
    requires v == PhysToVirt(8 * sp.word)
    ensures TableSpan(VirtToPhys(v) / 4096) == sp
  {
    heap.LiveInMemory(sp);
    heap.Sizes();
    LinearMap(8 * sp.word);
    hide Heap.Valid, PhysToVirt, VirtToPhys;
    DivUnique(8 * sp.word, 4096, sp.word / PAGE_WORDS, 0);
  }
}
