// The address-space half of fork: copy the stack and the program, map the copies.
module Fork {
  import opened Bits
  import opened Slab
  import opened Kmem
  import Buddy
  import Tiling
  import opened PageTable
  import opened Wrappers

  const USER_STACK_ADDR: nat := 0xffff_ffff_b000
  const USER_STACK_SIZE: nat := 0x4000
  const PERIPHERAL_BASE: nat := 0x3c00_0000
  const PERIPHERAL_SIZE: nat := 0x300_0000

  // ---- what a process sees -------------------------------------------------

  predicate OnStack(va: nat) { USER_STACK_ADDR <= va < USER_STACK_ADDR + USER_STACK_SIZE }

  predicate Peripheral(va: nat) { PERIPHERAL_BASE <= va < PERIPHERAL_BASE + PERIPHERAL_SIZE }

  predicate UserAddress(va: nat, progSz: nat) { OnStack(va) || va < progSz }

  /** The physical byte behind a user address. */
  ghost function UserPhys(va: nat, stack: Span, prog: Span): nat {
    if OnStack(va) then 8 * stack.word + (va - USER_STACK_ADDR) else 8 * prog.word + va
  }

  /** Pages first .. first + n of the flat map lead to consecutive pages from pa on. */
  ghost predicate MapsTo(m: seq<nat>, T: Tables, first: nat, n: nat, pa: nat) {
    forall q: nat :: first <= q < first + n ==>
      Leaf(m, T, q) == LeafEntry(pa + (q - first) * 4096, PD_AP_EL0) && HasTables(T, q)
  }

  /** A user address space: its tables and the spans behind the stack and the program. */
  datatype Image = Image(T: Tables, root: nat, stack: Span, prog: Span, progSz: nat)

  ghost predicate UserMapped(m: seq<nat>, im: Image) {
    && MapsTo(m, im.T, Page(USER_STACK_ADDR), 4, 8 * im.stack.word)
    && MapsTo(m, im.T, 0, PagesOf(im.progSz), 8 * im.prog.word)
    && MapsTo(m, im.T, Page(PERIPHERAL_BASE), PagesOf(PERIPHERAL_SIZE), PERIPHERAL_BASE)
  }

  /** The memory behind the mapping: whole pages, in nobody else's hands. */
  ghost predicate Backed(words: nat, live: set<Span>, im: Image) {
    && im.stack in live && im.prog in live && im.stack != im.prog
    && im.stack !in Own(im.T) && im.prog !in Own(im.T)
    && im.stack.word % PAGE_WORDS == 0 && 8 * im.stack.count == USER_STACK_SIZE
    && im.prog.word % PAGE_WORDS == 0 && 8 * im.prog.count >= im.progSz
    && im.progSz % 4096 == 0 && 0 < im.progSz <= PERIPHERAL_BASE
    && im.stack.word + im.stack.count <= words && im.prog.word + im.prog.count <= words && 8 * words <= PHYS_LIMIT
  }

  /** A process image in memory. */
  ghost predicate ImageOk(m: seq<nat>, live: set<Span>, im: Image) {
    TreeOk(m, im.T, im.root, live) && UserMapped(m, im) && Backed(|m|, live, im)
  }

  lemma MappedByte(m: seq<nat>, T: Tables, first: nat, n: nat, pa: nat, va: nat)
    requires MapsTo(m, T, first, n, pa) && first * 4096 <= va < (first + n) * 4096
    requires pa % 4096 == 0 && pa + n * 4096 <= PHYS_LIMIT
    ensures Translate(m, T, va) == pa + (va - first * 4096)
  {
    var q := Page(va);
    assert first <= q < first + n;
    UserFlag();
    assert va == 4096 * q + va % 4096;
    assert (pa + (q - first) * 4096) % 4096 == 0;
    hide Translate, AddrOf, Leaf, LeafEntry, HasTables;
    MappedTranslates(m, T, va, pa + (q - first) * 4096, PD_AP_EL0);
  }

  /** Every page the mapping covers has a valid user page descriptor: its frame, type 3, access flag, user access. */
  lemma MappedDescriptor(m: seq<nat>, T: Tables, first: nat, n: nat, pa: nat, q: nat)
    requires MapsTo(m, T, first, n, pa) && first <= q < first + n
    requires pa % 4096 == 0 && pa + n * 4096 <= PHYS_LIMIT
    ensures Leaf(m, T, q) == pa + (q - first) * 4096 + 0x20_0000_0000_0447
  {
    hide Leaf, LeafEntry;
    assert (pa + (q - first) * 4096) % 4096 == 0;
    UserEntry(pa + (q - first) * 4096);
  }

  /** The descriptors behind all addresses of a process. */
  lemma UserDescriptor(m: seq<nat>, live: set<Span>, im: Image, va: nat)
    requires ImageOk(m, live, im) && (UserAddress(va, im.progSz) || Peripheral(va))
    ensures var frame := (if UserAddress(va, im.progSz) then UserPhys(va, im.stack, im.prog) else va) / 4096;
            Leaf(m, im.T, Page(va)) == frame * 4096 + 0x20_0000_0000_0447
  {
    hide MapsTo, Leaf, TreeOk;
    if OnStack(va) {
      FrameAlong(8 * im.stack.word, USER_STACK_ADDR, va);
      MappedDescriptor(m, im.T, Page(USER_STACK_ADDR), 4, 8 * im.stack.word, Page(va));
    } else if va < im.progSz {
      FrameAlong(8 * im.prog.word, 0, va);
      MappedDescriptor(m, im.T, 0, PagesOf(im.progSz), 8 * im.prog.word, Page(va));
    } else {
      MappedDescriptor(m, im.T, Page(PERIPHERAL_BASE), PagesOf(PERIPHERAL_SIZE), PERIPHERAL_BASE, Page(va));
    }
  }

  /** Byte va of a range mapped from `first` on lies as many frames behind pa as pages behind `first`. */
  lemma FrameAlong(pa: nat, first: nat, va: nat)
    requires pa % 4096 == 0 && first % 4096 == 0 && first <= va
    ensures (pa + (va - first)) / 4096 * 4096 == pa + (Page(va) - Page(first)) * 4096
  {
    DivUnique(va - first, 4096, Page(va) - Page(first), va % 4096);
    DivUnique(pa + (va - first), 4096, pa / 4096 + (Page(va) - Page(first)), va % 4096);
  }

  /** Every stack and program address translates into the process's own two spans. */
  lemma UserTranslates(m: seq<nat>, live: set<Span>, im: Image, va: nat)
    requires UserMapped(m, im) && Backed(|m|, live, im) && UserAddress(va, im.progSz)
    ensures Translate(m, im.T, va) == UserPhys(va, im.stack, im.prog)
  {
    hide MapsTo, Translate;
    if OnStack(va) {
      MappedByte(m, im.T, Page(USER_STACK_ADDR), 4, 8 * im.stack.word, va);
    } else {
      MappedByte(m, im.T, 0, PagesOf(im.progSz), 8 * im.prog.word, va);
    }
  }

  /** The span a user address falls into. */
  ghost function SpanOf(im: Image, va: nat): Span {
    if OnStack(va) then im.stack else im.prog
  }

  lemma UserWord(words: nat, live: set<Span>, im: Image, va: nat)
    requires Backed(words, live, im) && UserAddress(va, im.progSz)
    ensures var p, s := UserPhys(va, im.stack, im.prog), SpanOf(im, va);
            s in live && s.word <= p / 8 < s.word + s.count && p / 8 < words && p % 8 == va % 8
  {
  }

  /** Peripherals are mapped to themselves. */
  lemma PeripheralTranslates(m: seq<nat>, im: Image, va: nat)
    requires UserMapped(m, im) && Peripheral(va)
    ensures Translate(m, im.T, va) == va
  {
    hide MapsTo, Translate;
    MappedByte(m, im.T, Page(PERIPHERAL_BASE), PagesOf(PERIPHERAL_SIZE), PERIPHERAL_BASE, va);
  }

  /** The byte a process reads at a user address. */
  ghost function UserByte(m: seq<nat>, T: Tables, va: nat): nat {
    var p := Translate(m, T, va);
    if p / 8 < |m| then Shr(m[p / 8], 8 * (p % 8)) % 256 else 0
  }

  // ---- keeping memory ------------------------------------------------------

  /** Everything in somebody's hands before still is, and reads the same. */
  ghost predicate Since(live: set<Span>, m: seq<nat>, live': set<Span>, m': seq<nat>) {
    live <= live' && Kept(live, m, m')
  }

  lemma SinceTrans(l: set<Span>, m: seq<nat>, l1: set<Span>, m1: seq<nat>, l2: set<Span>, m2: seq<nat>)
    requires Since(l, m, l1, m1) && Since(l1, m1, l2, m2)
    ensures Since(l, m, l2, m2)
  {
  }

  /** n words from `src` on in m are the n words from `dst` on in m'. */
  ghost predicate Copied(m: seq<nat>, src: nat, m': seq<nat>, dst: nat, n: nat) {
    && src + n <= |m| && dst + n <= |m'|
    && forall j: nat :: dst <= j < dst + n ==> m'[j] == m[j - dst + src]
  }

  /** memcpy of whole words into a span of one's own. */
  method CopyWords(heap: Heap, dst: nat, src: nat, n: nat, ghost sp: Span, ghost from: Span)
    requires heap.Valid() && sp in heap.live && sp.word == dst && n <= sp.count
    requires from in heap.live && from.word == src && n <= from.count && from != sp
    modifies heap.mem
    ensures heap.Valid() && Copied(old(heap.mem[..]), src, heap.mem[..], dst, n)
    ensures Kept(heap.live - {sp}, old(heap.mem[..]), heap.mem[..])
  {
    hide Heap.Valid;
    heap.LiveInMemory(sp);
    heap.LiveInMemory(from);
    heap.OthersKept(sp);
    hide Copied, SameOutside, Kept, Meet;
    ghost var m0 := heap.mem[..];
    CopyStart(m0, src, dst, sp);
    var i: nat := 0;
    while i < n
      invariant i <= n && heap.Valid()
      invariant Copied(m0, src, heap.mem[..], dst, i) && SameOutside(m0, heap.mem[..], sp)
    {
      CopyStep(m0, heap.mem[..], src, dst, i, sp, from);
      heap.Store(dst + i, heap.mem[src + i], sp);
      i := i + 1;
    }
    CopyEnd(m0, heap.mem[..], heap.live, sp);
  }

  /** Outside the span nothing differs. */
  ghost predicate SameOutside(m: seq<nat>, m': seq<nat>, sp: Span) {
    |m'| == |m| && forall w: nat :: w < |m| && !(sp.word <= w < sp.word + sp.count) ==> m'[w] == m[w]
  }

  lemma CopyStart(m: seq<nat>, src: nat, dst: nat, sp: Span)
    requires src <= |m| && dst <= |m|
    ensures Copied(m, src, m, dst, 0) && SameOutside(m, m, sp)
  {
  }

  lemma CopyStep(m0: seq<nat>, m: seq<nat>, src: nat, dst: nat, i: nat, sp: Span, from: Span)
    requires Copied(m0, src, m, dst, i) && SameOutside(m0, m, sp) && !Meet(from, sp)
    requires sp.word == dst && i < sp.count && from.word == src && i < from.count
    requires sp.word + sp.count <= |m| && from.word + from.count <= |m|
    ensures var m' := m[dst + i := m[src + i]]; Copied(m0, src, m', dst, i + 1) && SameOutside(m0, m', sp)
  {
    assert m[src + i] == m0[src + i];
  }

  lemma CopyEnd(m0: seq<nat>, m: seq<nat>, live: set<Span>, sp: Span)
    requires SameOutside(m0, m, sp) && forall q :: q in live && q != sp ==> !Meet(q, sp)
    ensures Kept(live - {sp}, m0, m)
  {
    KeptOutside(live - {sp}, m0, m, sp);
  }

  // ---- isolation -----------------------------------------------------------

  ghost predicate AllApart(live: set<Span>) {
    forall a, b :: a in live && b in live && a != b ==> !Meet(a, b)
  }

  /** Two images share no memory: neither pages nor tables. */
  ghost predicate Separate(a: Image, b: Image) {
    && {a.stack, a.prog} !! {b.stack, b.prog}
    && a.stack !in Own(b.T) && a.prog !in Own(b.T) && b.stack !in Own(a.T) && b.prog !in Own(a.T)
  }

  /** User addresses of separate images never fall into one physical page. */
  lemma FramesApart(words: nat, live: set<Span>, a: Image, b: Image, va: nat, vb: nat)
    requires Backed(words, live, a) && Backed(words, live, b) && Separate(a, b) && AllApart(live)
    requires UserAddress(va, a.progSz) && UserAddress(vb, b.progSz)
    ensures UserPhys(va, a.stack, a.prog) / 4096 != UserPhys(vb, b.stack, b.prog) / 4096
  {
    UserWord(words, live, a, va);
    UserWord(words, live, b, vb);
    assert !Meet(SpanOf(a, va), SpanOf(b, vb));
    UserFrame(words, live, a, va);
    UserFrame(words, live, b, vb);
  }

  /** The whole frame behind a user address belongs to the image. */
  lemma UserFrame(words: nat, live: set<Span>, im: Image, va: nat)
    requires Backed(words, live, im) && UserAddress(va, im.progSz)
    ensures var f, s := UserPhys(va, im.stack, im.prog) / 4096, SpanOf(im, va);
            s.word <= f * PAGE_WORDS && f * PAGE_WORDS + PAGE_WORDS <= s.word + s.count
  {
    if OnStack(va) {
      FrameInside(im.stack, UserPhys(va, im.stack, im.prog));
    } else {
      FrameInside(Span(im.prog.word, im.progSz / 8), UserPhys(va, im.stack, im.prog));
    }
  }

  /** A span of whole pages that holds a byte holds all of its frame. */
  lemma FrameInside(s: Span, p: nat)
    requires s.word % PAGE_WORDS == 0 && s.count % PAGE_WORDS == 0 && s.word <= p / 8 < s.word + s.count
    ensures s.word <= p / 4096 * PAGE_WORDS && p / 4096 * PAGE_WORDS + PAGE_WORDS <= s.word + s.count
  {
  }

  /** A write off the tables of an image keeps the image. */
  lemma WriteOffTables(m: seq<nat>, live: set<Span>, im: Image, w: nat, x: nat)
    requires ImageOk(m, live, im) && w < |m|
    requires forall p :: p in im.T ==> !(im.T[p] * PAGE_WORDS <= w < im.T[p] * PAGE_WORDS + PAGE_WORDS)
    ensures ImageOk(m[w := x], live, im)
  {
    TreeGrownRefl(m, im.T, im.root, live);
    TreeElsewhere(m, m[w := x], im.T, im.root, live, live);
    hide TreeOk;
    SameMap(m, m[w := x], im);
  }

  /** A write into a span that holds none of an image's tables keeps the image. */
  lemma WriteKeepsImage(m: seq<nat>, live: set<Span>, im: Image, sp: Span, w: nat, x: nat)
    requires ImageOk(m, live, im) && AllApart(live) && sp in live && sp !in Own(im.T)
    requires sp.word <= w < sp.word + sp.count && w < |m|
    ensures ImageOk(m[w := x], live, im)
  {
    TablesAway(live, im.T, sp, w) by { TreeGrownRefl(m, im.T, im.root, live); }
    WriteOffTables(m, live, im, w, x);
  }

  /** A write through one mapping changes nothing that the other reads, and keeps both images. */
  lemma WriteStaysPrivate(m: seq<nat>, live: set<Span>, a: Image, b: Image, va: nat, vb: nat, x: nat)
    requires ImageOk(m, live, a) && ImageOk(m, live, b) && Separate(a, b) && AllApart(live)
    requires UserAddress(va, a.progSz) && UserAddress(vb, b.progSz)
    ensures Translate(m, a.T, va) / 8 < |m|
    ensures var m' := m[Translate(m, a.T, va) / 8 := x];
            ImageOk(m', live, a) && ImageOk(m', live, b) && UserByte(m', b.T, vb) == UserByte(m, b.T, vb)
  {
    UserTranslates(m, live, a, va);
    UserWord(|m|, live, a, va);
    UserWord(|m|, live, b, vb);
    var sp, w := SpanOf(a, va), UserPhys(va, a.stack, a.prog) / 8;
    var m' := m[w := x];
    WriteKeepsImage(m, live, a, sp, w, x);
    WriteKeepsImage(m, live, b, sp, w, x);
    assert !Meet(sp, SpanOf(b, vb));
    hide ImageOk, Separate, AllApart, UserAddress, UserPhys, UserByte, Translate;
    ByteKept(m, m', live, b, vb);
  }

  /** A byte reads the same while its word is the same and the image is whole. */
  lemma ByteKept(m: seq<nat>, m': seq<nat>, live: set<Span>, im: Image, va: nat)
    requires ImageOk(m, live, im) && ImageOk(m', live, im) && |m'| == |m| && UserAddress(va, im.progSz)
    requires var w := UserPhys(va, im.stack, im.prog) / 8; w < |m| ==> m'[w] == m[w]
    ensures UserByte(m', im.T, va) == UserByte(m, im.T, va)
  {
    UserTranslates(m, live, im, va);
    UserTranslates(m', live, im, va);
    UserWord(|m|, live, im, va);
    hide ImageOk, TreeOk, UserMapped, Translate, Backed, UserPhys;
  }

  // ---- any interleaving ----------------------------------------------------

  /** One store of the first or the second process, at any of its addresses: a function of the word it hits,
      so that stores of single bytes are among them. */
  datatype Access = Access(first: bool, va: nat, change: nat -> nat)

  ghost function Pick(a: Image, b: Image, first: bool): Image { if first then a else b }

  ghost function Stored(m: seq<nat>, T: Tables, va: nat, change: nat -> nat): (r: seq<nat>)
    ensures |r| == |m|
  {
    var w := Translate(m, T, va) / 8;
    if w < |m| then m[w := change(m[w])] else m
  }

  /** Memory after the stores ws, in order. */
  ghost function Apply(m: seq<nat>, a: Image, b: Image, ws: seq<Access>): (r: seq<nat>)
    ensures |r| == |m|
  {
    if ws == [] then m
    else
      var last := ws[|ws| - 1];
      Stored(Apply(m, a, b, ws[..|ws| - 1]), Pick(a, b, last.first).T, last.va, last.change)
  }

  /** The stores of one process. */
  ghost function Only(ws: seq<Access>, first: bool): seq<Access> {
    if ws == [] then []
    else
      var rest := Only(ws[..|ws| - 1], first);
      if ws[|ws| - 1].first == first then rest + [ws[|ws| - 1]] else rest
  }

  /** A store to a stack or program address, or through the peripheral window when no span of the heap lies there. */
  ghost predicate Legal(live: set<Span>, im: Image, va: nat) {
    UserAddress(va, im.progSz) || (Peripheral(va) && forall s :: s in live ==> OffWindow(s))
  }

  /** No word of the span is in the physical range of the peripherals. */
  ghost predicate OffWindow(s: Span) {
    8 * (s.word + s.count) <= PERIPHERAL_BASE || PERIPHERAL_BASE + PERIPHERAL_SIZE <= 8 * s.word
  }

  ghost predicate AllLegal(live: set<Span>, a: Image, b: Image, ws: seq<Access>) {
    forall i :: 0 <= i < |ws| ==> Legal(live, Pick(a, b, ws[i].first), ws[i].va)
  }

  /** The physical word a legal store hits. */
  ghost function WordOf(im: Image, va: nat): nat {
    if UserAddress(va, im.progSz) then UserPhys(va, im.stack, im.prog) / 8 else va / 8
  }

  lemma StoredWord(m: seq<nat>, live: set<Span>, im: Image, va: nat, change: nat -> nat)
    requires ImageOk(m, live, im) && Legal(live, im, va)
    ensures var w := WordOf(im, va);
            Stored(m, im.T, va, change) == if w < |m| then m[w := change(m[w])] else m
  {
    hide Translate, TreeOk;
    if UserAddress(va, im.progSz) { UserTranslates(m, live, im, va); } else { PeripheralTranslates(m, im, va); }
  }

  /** A legal store hits no table of either process, and no stack or program word of the other. */
  lemma LegalWord(words: nat, live: set<Span>, a: Image, b: Image, va: nat)
    requires Backed(words, live, a) && Backed(words, live, b) && Separate(a, b) && AllApart(live) && Legal(live, a, va)
    requires IsSubset(a.T, live) && IsSubset(b.T, live)
    ensures var w := WordOf(a, va);
            && (forall p :: p in a.T ==> !(a.T[p] * PAGE_WORDS <= w < a.T[p] * PAGE_WORDS + PAGE_WORDS))
            && (forall p :: p in b.T ==> !(b.T[p] * PAGE_WORDS <= w < b.T[p] * PAGE_WORDS + PAGE_WORDS))
            && !Holds(b, w)
  {
    var w := WordOf(a, va);
    if UserAddress(va, a.progSz) {
      UserWord(words, live, a, va);
      var sp := SpanOf(a, va);
      TablesAway(live, a.T, sp, w);
      TablesAway(live, b.T, sp, w);
      assert !Meet(sp, b.stack) && !Meet(sp, b.prog);
    } else {
      hide AllApart, Separate;
      WindowWord(va);
      OffTables(live, a.T, w);
      OffTables(live, b.T, w);
      assert OffWindow(b.stack) && OffWindow(b.prog);
    }
  }

  lemma WindowWord(va: nat)
    requires Peripheral(va)
    ensures forall s: Span :: OffWindow(s) ==> !(s.word <= va / 8 < s.word + s.count)
  {
  }

  lemma OffTables(live: set<Span>, T: Tables, w: nat)
    requires IsSubset(T, live) && forall s :: s in live ==> !(s.word <= w < s.word + s.count)
    ensures forall p :: p in T ==> !(T[p] * PAGE_WORDS <= w < T[p] * PAGE_WORDS + PAGE_WORDS)
  {
    forall p | p in T ensures !(T[p] * PAGE_WORDS <= w < T[p] * PAGE_WORDS + PAGE_WORDS) {
      assert TableSpan(T[p]) in live;
    }
  }

  ghost predicate Holds(im: Image, w: nat) {
    im.stack.word <= w < im.stack.word + im.stack.count || im.prog.word <= w < im.prog.word + im.prog.count
  }

  /** Two memories that agree on what a process can reach. */
  ghost predicate Agree(m: seq<nat>, n: seq<nat>, im: Image) {
    |m| == |n| && forall w: nat :: w < |m| && Holds(im, w) ==> m[w] == n[w]
  }

  lemma AgreeBytes(m: seq<nat>, n: seq<nat>, live: set<Span>, im: Image, va: nat)
    requires ImageOk(m, live, im) && ImageOk(n, live, im) && Agree(m, n, im) && UserAddress(va, im.progSz)
    ensures UserByte(m, im.T, va) == UserByte(n, im.T, va)
  {
    UserWord(|m|, live, im, va);
    ByteKept(n, m, live, im, va);
  }

  /** One store: both images stay, and the other process sees nothing of it. */
  lemma StoreStep(m: seq<nat>, live: set<Span>, a: Image, b: Image, va: nat, change: nat -> nat)
    requires ImageOk(m, live, a) && ImageOk(m, live, b) && Separate(a, b) && AllApart(live) && Legal(live, a, va)
    ensures var m' := Stored(m, a.T, va, change); ImageOk(m', live, a) && ImageOk(m', live, b) && Agree(m, m', b)
  {
    StoredWord(m, live, a, va, change);
    TreeGrownRefl(m, a.T, a.root, live);
    TreeGrownRefl(m, b.T, b.root, live);
    LegalWord(|m|, live, a, b, va);
    var w := WordOf(a, va);
    if w < |m| {
      hide ImageOk, Stored, WordOf, Legal, Separate, AllApart;
      WriteOffTables(m, live, a, w, change(m[w]));
      WriteOffTables(m, live, b, w, change(m[w]));
    }
  }

  /** The same store in two memories that agree leaves them in agreement. */
  lemma StoreAgrees(m: seq<nat>, n: seq<nat>, live: set<Span>, im: Image, va: nat, change: nat -> nat)
    requires ImageOk(m, live, im) && ImageOk(n, live, im) && Agree(m, n, im) && AllApart(live) && Legal(live, im, va)
    ensures Agree(Stored(m, im.T, va, change), Stored(n, im.T, va, change), im)
  {
    StoredWord(m, live, im, va, change);
    StoredWord(n, live, im, va, change);
    if UserAddress(va, im.progSz) {
      UserWord(|m|, live, im, va);
    } else {
      WindowWord(va);
      assert OffWindow(im.stack) && OffWindow(im.prog);
    }
    hide ImageOk, Stored, UserPhys, Backed;
  }

  lemma OnlyLegal(live: set<Span>, a: Image, b: Image, ws: seq<Access>, n: nat)
    requires AllLegal(live, a, b, ws) && n <= |ws|
    ensures AllLegal(live, a, b, ws[..n])
  {
  }

  /** Whatever stores the two processes make, in any order: both images stay whole, and memory agrees, for each
      process, with the memory it would have alone. */
  lemma {:induction false} IsolatedRun(m: seq<nat>, live: set<Span>, a: Image, b: Image, ws: seq<Access>, first: bool)
    requires ImageOk(m, live, a) && ImageOk(m, live, b) && Separate(a, b) && AllApart(live) && AllLegal(live, a, b, ws)
    ensures ImageOk(Apply(m, a, b, ws), live, a) && ImageOk(Apply(m, a, b, ws), live, b)
    ensures ImageOk(Apply(m, a, b, Only(ws, first)), live, a) && ImageOk(Apply(m, a, b, Only(ws, first)), live, b)
    ensures Agree(Apply(m, a, b, ws), Apply(m, a, b, Only(ws, first)), Pick(a, b, first))
  {
    hide ImageOk, Separate, AllApart, Legal, Stored, Agree;
    if ws == [] {
      AgreeRefl(m, Pick(a, b, first));
    } else {
      var pre, last := ws[..|ws| - 1], ws[|ws| - 1];
      OnlyLegal(live, a, b, ws, |ws| - 1);
      IsolatedRun(m, live, a, b, pre, first);
      var x, y := Apply(m, a, b, pre), Apply(m, a, b, Only(pre, first));
      var mine, other := Pick(a, b, last.first), Pick(a, b, !last.first);
      assert Legal(live, mine, last.va);
      SeparateSym(a, b);
      StoreStep(x, live, mine, other, last.va, last.change);
      var x' := Stored(x, mine.T, last.va, last.change);
      if last.first == first {
        StoreStep(y, live, mine, other, last.va, last.change);
        StoreAgrees(x, y, live, mine, last.va, last.change);
        ApplyLast(m, a, b, Only(pre, first), last);
      } else {
        AgreeTrans(x', x, y, other);
      }
    }
  }

  lemma ApplyLast(m: seq<nat>, a: Image, b: Image, ws: seq<Access>, last: Access)
    ensures Apply(m, a, b, ws + [last]) ==
            Stored(Apply(m, a, b, ws), Pick(a, b, last.first).T, last.va, last.change)
  {
    assert (ws + [last])[..|ws|] == ws;
  }

  lemma AgreeRefl(m: seq<nat>, im: Image)
    ensures Agree(m, m, im)
  {
  }

  lemma AgreeTrans(x': seq<nat>, x: seq<nat>, y: seq<nat>, im: Image)
    requires Agree(x, x', im) && Agree(x, y, im)
    ensures Agree(x', y, im)
  {
  }

  lemma SeparateSym(a: Image, b: Image)
    requires Separate(a, b)
    ensures Separate(b, a)
  {
  }

  /** Isolation: after any interleaving each process reads at each of its addresses what it would read had the
      other done nothing. */
  lemma Isolation(m: seq<nat>, live: set<Span>, a: Image, b: Image, ws: seq<Access>, first: bool, va: nat)
    requires ImageOk(m, live, a) && ImageOk(m, live, b) && Separate(a, b) && AllApart(live) && AllLegal(live, a, b, ws)
    requires UserAddress(va, Pick(a, b, first).progSz)
    ensures var T := Pick(a, b, first).T;
            UserByte(Apply(m, a, b, ws), T, va) == UserByte(Apply(m, a, b, Only(ws, first)), T, va)
  {
    IsolatedRun(m, live, a, b, ws, first);
    hide ImageOk, Agree, Apply, Only, UserByte, Separate, AllApart, AllLegal;
    AgreeBytes(Apply(m, a, b, ws), Apply(m, a, b, Only(ws, first)), live, Pick(a, b, first), va);
  }

  // ---- the peripheral window -----------------------------------------------

  ghost function ThroughWindow(m: seq<nat>, va: nat, x: nat): seq<nat> {
    if va / 8 < |m| then m[va / 8 := x] else m
  }

  /** Stores of a through the window never change what b reads. */
  ghost predicate WindowPrivate(m: seq<nat>, a: Image, b: Image) {
    forall va: nat, x: nat, vb: nat ::
      Peripheral(va) && UserAddress(vb, b.progSz) ==>
        UserByte(ThroughWindow(m, va, x), b.T, vb) == UserByte(m, b.T, vb)
  }

  /** Every process can reach the same physical range through its window.  Provided no page table of b lies there,
      stores through the window stay private exactly when no stack or program byte of b lies there. */
  lemma WindowExactly(m: seq<nat>, live: set<Span>, a: Image, b: Image)
    requires ImageOk(m, live, a) && ImageOk(m, live, b) && AllApart(live)
    requires forall p :: p in b.T ==> OffWindow(TableSpan(b.T[p]))
    ensures forall va: nat :: Peripheral(va) ==> Translate(m, a.T, va) == va
    ensures WindowPrivate(m, a, b) <==>
            forall vb: nat :: UserAddress(vb, b.progSz) ==> !Peripheral(UserPhys(vb, b.stack, b.prog))
  {
    forall va: nat | Peripheral(va) ensures Translate(m, a.T, va) == va { PeripheralTranslates(m, a, va); }
    hide ImageOk, Translate, UserByte;
    if vb: nat :| UserAddress(vb, b.progSz) && Peripheral(UserPhys(vb, b.stack, b.prog)) {
      WindowLeak(m, live, b, vb);
    } else {
      forall va: nat, x: nat, vb: nat | Peripheral(va) && UserAddress(vb, b.progSz)
        ensures UserByte(ThroughWindow(m, va, x), b.T, vb) == UserByte(m, b.T, vb)
      {
        WindowMisses(m, live, b, va, x, vb);
      }
    }
  }

  lemma WindowMisses(m: seq<nat>, live: set<Span>, b: Image, va: nat, x: nat, vb: nat)
    requires ImageOk(m, live, b) && Peripheral(va) && UserAddress(vb, b.progSz)
    requires forall p :: p in b.T ==> OffWindow(TableSpan(b.T[p]))
    requires !Peripheral(UserPhys(vb, b.stack, b.prog))
    ensures UserByte(ThroughWindow(m, va, x), b.T, vb) == UserByte(m, b.T, vb)
  {
    hide ImageOk, UserPhys, UserByte, UserAddress;
    WindowWord(va);
    forall p | p in b.T ensures !(b.T[p] * PAGE_WORDS <= va / 8 < b.T[p] * PAGE_WORDS + PAGE_WORDS) {
      assert OffWindow(TableSpan(b.T[p]));
    }
    assert UserPhys(vb, b.stack, b.prog) / 8 != va / 8;
    if va / 8 < |m| {
      WriteOffTables(m, live, b, va / 8, x);
      ByteKept(m, ThroughWindow(m, va, x), live, b, vb);
    }
  }

  /** A byte of b in the window can be changed by a store through it. */
  lemma WindowLeak(m: seq<nat>, live: set<Span>, b: Image, vb: nat)
    requires ImageOk(m, live, b) && AllApart(live)
    requires UserAddress(vb, b.progSz) && Peripheral(UserPhys(vb, b.stack, b.prog))
    ensures exists va: nat, x: nat ::
              Peripheral(va) && UserByte(ThroughWindow(m, va, x), b.T, vb) != UserByte(m, b.T, vb)
  {
    var p := UserPhys(vb, b.stack, b.prog);
    UserWord(|m|, live, b, vb);
    UserTranslates(m, live, b, vb);
    var x := OtherByte(m[p / 8], 8 * (p % 8));
    WriteKeepsImage(m, live, b, SpanOf(b, vb), p / 8, x);
    UserTranslates(ThroughWindow(m, p, x), live, b, vb);
    hide ImageOk, TreeOk, UserMapped, Translate, UserPhys;
    assert UserByte(ThroughWindow(m, p, x), b.T, vb) != UserByte(m, b.T, vb);
  }

  /** A word that differs from v in the byte at bit k. */
  lemma OtherByte(v: nat, k: nat) returns (x: nat)
    ensures Shr(x, k) % 256 != Shr(v, k) % 256
  {
    if Shr(v, k) % 256 == 0 {
      x := Shl(1, k);
      DivUnique(Pow2(k), Pow2(k), 1, 0);
    } else {
      x := 0;
      SmallMod(0, Pow2(k));
    }
  }

  lemma TablesAway(live: set<Span>, T: Tables, sp: Span, w: nat)
    requires AllApart(live) && sp in live && sp !in Own(T) && sp.word <= w < sp.word + sp.count
    requires IsSubset(T, live)
    ensures forall p :: p in T ==> !(T[p] * PAGE_WORDS <= w < T[p] * PAGE_WORDS + PAGE_WORDS)
  {
    forall p | p in T ensures !(T[p] * PAGE_WORDS <= w < T[p] * PAGE_WORDS + PAGE_WORDS) {
      assert TableSpan(T[p]) in Own(T) && TableSpan(T[p]) in live;
      assert !Meet(sp, TableSpan(T[p]));
    }
  }

  lemma SameMap(m: seq<nat>, m': seq<nat>, im: Image)
    requires UserMapped(m, im) && forall q: nat :: Leaf(m', im.T, q) == Leaf(m, im.T, q)
    ensures UserMapped(m', im)
  {
    SameMapsTo(m, m', im.T, Page(USER_STACK_ADDR), 4, 8 * im.stack.word);
    SameMapsTo(m, m', im.T, 0, PagesOf(im.progSz), 8 * im.prog.word);
    SameMapsTo(m, m', im.T, Page(PERIPHERAL_BASE), PagesOf(PERIPHERAL_SIZE), PERIPHERAL_BASE);
  }

  lemma SameMapsTo(m: seq<nat>, m': seq<nat>, T: Tables, first: nat, n: nat, pa: nat)
    requires MapsTo(m, T, first, n, pa) && forall q: nat :: Leaf(m', T, q) == Leaf(m, T, q)
    ensures MapsTo(m', T, first, n, pa)
  {
  }

  /** An image survives whatever leaves its memory alone. */
  lemma ImageSince(live: set<Span>, m: seq<nat>, live': set<Span>, m': seq<nat>, im: Image)
    requires ImageOk(m, live, im) && Since(live, m, live', m')
    ensures ImageOk(m', live', im)
  {
    TablesKept(m, m', im.T, live);
    TreeElsewhere(m, m', im.T, im.root, live, live');
    SameMap(m, m', im);
  }

  /** The two images read the same byte at every user address. */
  ghost predicate SameBytes(m: seq<nat>, a: Image, b: Image) {
    a.progSz == b.progSz
    && forall va: nat :: UserAddress(va, a.progSz) ==> UserByte(m, a.T, va) == UserByte(m, b.T, va)
  }

  lemma CopiesAreSame(m: seq<nat>, live: set<Span>, a: Image, b: Image)
    requires ImageOk(m, live, a) && ImageOk(m, live, b) && a.progSz == b.progSz
    requires Copied(m, a.stack.word, m, b.stack.word, USER_STACK_SIZE / 8)
    requires Copied(m, a.prog.word, m, b.prog.word, a.progSz / 8)
    ensures SameBytes(m, a, b)
  {
    forall va: nat | UserAddress(va, a.progSz) ensures UserByte(m, a.T, va) == UserByte(m, b.T, va) {
      UserTranslates(m, live, a, va);
      UserTranslates(m, live, b, va);
      UserWord(|m|, live, a, va);
      UserWord(|m|, live, b, va);
      CopiedAt(m, a, b, va);
    }
  }

  lemma CopiedAt(m: seq<nat>, a: Image, b: Image, va: nat)
    requires UserAddress(va, a.progSz) && a.progSz % 4096 == 0
    requires Copied(m, a.stack.word, m, b.stack.word, USER_STACK_SIZE / 8)
    requires Copied(m, a.prog.word, m, b.prog.word, a.progSz / 8)
    ensures var p, q := UserPhys(va, a.stack, a.prog) / 8, UserPhys(va, b.stack, b.prog) / 8;
            p < |m| && q < |m| && m[p] == m[q]
  {
    hide Copied;
    if OnStack(va) {
      CopiedByte(m, a.stack.word, b.stack.word, USER_STACK_SIZE / 8, va - USER_STACK_ADDR);
    } else {
      assert a.progSz == 8 * (a.progSz / 8);
      CopiedByte(m, a.prog.word, b.prog.word, a.progSz / 8, va);
    }
  }

  lemma CopiedByte(m: seq<nat>, src: nat, dst: nat, n: nat, x: nat)
    requires Copied(m, src, m, dst, n) && x < 8 * n
    ensures var p, q := (8 * src + x) / 8, (8 * dst + x) / 8; p < |m| && q < |m| && m[p] == m[q]
  {
    assert (8 * src + x) / 8 == src + x / 8 && (8 * dst + x) / 8 == dst + x / 8;
    assert x / 8 < n;
  }

  // ---- sys_fork, the address space -----------------------------------------

  class Process {
    const space: AddressSpace
    const progAddr: nat
    const progSz: nat
    ghost const stack: Span
    ghost const prog: Span

    ghost function View(): Image
      reads space
    {
      Image(space.tables, space.root, stack, prog, progSz)
    }

    ghost predicate Valid()
      reads space, space.heap.Repr()
    {
      && space.Valid()
      && ImageOk(space.heap.mem[..], space.heap.live, View())
      && progAddr == PhysToVirt(8 * prog.word)
    }

    constructor (space: AddressSpace, progAddr: nat, progSz: nat, ghost stack: Span, ghost prog: Span)
      ensures this.space == space && this.progAddr == progAddr && this.progSz == progSz
      ensures this.stack == stack && this.prog == prog
    {
      this.space := space;
      this.progAddr := progAddr;
      this.progSz := progSz;
      this.stack := stack;
      this.prog := prog;
    }
  }

  lemma HeapApart(heap: Heap)
    requires heap.Valid()
    ensures AllApart(heap.live)
  {
    forall a, b | a in heap.live && b in heap.live && a != b ensures !Meet(a, b) {
      heap.LiveDisjoint(a, b);
    }
  }

  /** kmalloc then memcpy: a private copy of whole pages. */
  method CloneSpan(heap: Heap, size: nat, src: nat, ghost from: Span) returns (ptr: Option<nat>, ghost sp: Span)
    requires heap.Valid() && size % 4096 == 0 && size > 0
    requires from in heap.live && src == from.word && size <= 8 * from.count
    modifies heap.Repr()
    ensures heap.Valid() && Since(old(heap.live), old(heap.mem[..]), heap.live, heap.mem[..])
    ensures ptr.None? ==> heap.NoBlock(OrderOf(size))
    ensures ptr.Some? ==>
              && sp !in old(heap.live) && heap.live == old(heap.live) + {sp}
              && ptr.value == PhysToVirt(8 * sp.word) && sp.word % PAGE_WORDS == 0 && 8 * sp.count >= size
              && 8 * sp.count == Shl(4096, OrderOf(size))
              && Copied(old(heap.mem[..]), src, heap.mem[..], sp.word, size / 8)
  {
    hide Heap.Valid;
    ghost var live0, m0 := heap.live, heap.mem[..];
    ptr, sp := heap.Kmalloc(size);
    if ptr.Some? {
      ghost var m1 := heap.mem[..];
      PageMultipleCovered(size);
      PointerWord(heap, ptr.value, sp);
      CopyWords(heap, VirtToPhys(ptr.value) / 8, src, size / 8, sp, from);
      assert heap.live - {sp} == live0;
      heap.LiveInMemory(from);
      CopiedBefore(live0, m0, m1, heap.mem[..], from, sp.word, size / 8);
      KeptOn(live0, live0, m0, m1, heap.mem[..]);
    }
  }

  lemma PointerWord(heap: Heap, v: nat, sp: Span)
    requires heap.Valid() && sp in heap.live && v == PhysToVirt(8 * sp.word)
    ensures VirtToPhys(v) == 8 * sp.word
  {
    heap.LiveInMemory(sp);
    heap.Sizes();
    LinearMap(8 * sp.word);
  }

  /** The source read the same when the copy was made as it did before the allocation. */
  lemma CopiedBefore(live: set<Span>, m0: seq<nat>, m1: seq<nat>, m2: seq<nat>, from: Span, dst: nat, n: nat)
    requires from in live && Kept(live, m0, m1) && n <= from.count && from.word + from.count <= |m1|
    requires Copied(m1, from.word, m2, dst, n)
    ensures Copied(m0, from.word, m2, dst, n)
  {
  }

  /** Copied words stay equal while both spans are left alone. */
  lemma CopiedSince(live: set<Span>, m: seq<nat>, live': set<Span>, m': seq<nat>, from: Span, sp: Span, n: nat)
    requires Since(live, m, live', m') && from in live && sp in live && n <= from.count && n <= sp.count
    requires Copied(m, from.word, m, sp.word, n)
    ensures Copied(m', from.word, m', sp.word, n)
  {
  }

  lemma CopiedNow(live: set<Span>, m0: seq<nat>, live': set<Span>, m: seq<nat>, from: Span, dst: nat, n: nat)
    requires Since(live, m0, live', m) && from in live && n <= from.count
    requires Copied(m0, from.word, m, dst, n)
    ensures Copied(m, from.word, m, dst, n)
  {
  }

  lemma MapsToKept(m: seq<nat>, T: Tables, m': seq<nat>, T': Tables, l: set<Span>, l': set<Span>,
                   first: nat, n: nat, pa: nat, lo: nat, hi: nat)
    requires MapsTo(m, T, first, n, pa) && Grown(T, T', l, l')
    requires first + n <= PAGES && (first + n <= lo || hi <= first)
    requires forall q: nat :: q < PAGES && !(lo <= q < hi) ==> Leaf(m', T', q) == Leaf(m, T, q)
    ensures MapsTo(m', T', first, n, pa)
  {
    hide Leaf, LeafEntry;
    forall q: nat | first <= q < first + n ensures HasTables(T', q) {
      assert HasTables(T, q);
      StillTables(T, T', l, l', q);
    }
  }

  lemma KeptGrown(T: Tables, T1: Tables, l: set<Span>, l1: set<Span>, m: seq<nat>, m1: seq<nat>, m2: seq<nat>)
    requires Grown(T, T1, l, l1) && Kept(l - Own(T), m, m1) && Kept(l1 - Own(T1), m1, m2)
    ensures Kept(l - Own(T), m, m2)
  {
    OlderOthers(T, T1, l, l1);
  }

  /** The three mappings of a user address space. */
  method MapImage(space: AddressSpace, stackPa: nat, progPa: nat, progSz: nat, ghost stack: Span, ghost prog: Span)
    returns (ok: bool)
    requires space.Valid() && progSz % 4096 == 0 && 0 < progSz <= PERIPHERAL_BASE
    requires stackPa == 8 * stack.word && progPa == 8 * prog.word
    modifies space, space.heap.Repr()
    ensures space.Valid() && Grown(old(space.tables), space.tables, old(space.heap.live), space.heap.live)
    ensures Kept(old(space.heap.live) - Own(old(space.tables)), old(space.heap.mem[..]), space.heap.mem[..])
    ensures OthersKept(old(space.heap.mem[..]), old(space.tables), space.heap.mem[..], space.tables, progSz)
    ensures ok ==> UserMapped(space.heap.mem[..], Image(space.tables, space.root, stack, prog, progSz))
    ensures !ok ==> space.heap.NoBlock(0)
  {
    hide Heap.Valid, TreeOk, Kept, Grown, Own, MapsTo, Leaf, LeafEntry, HasTables, OthersKept;
    ghost var heap := space.heap;
    ghost var T0, l0, m0 := space.tables, heap.live, heap.mem[..];
    ok := space.MapPages(USER_STACK_ADDR, USER_STACK_SIZE, stackPa, PD_AP_EL0);
    ghost var T1, l1, m1 := space.tables, heap.live, heap.mem[..];
    OthersSame(m0, T0, progSz);
    OthersStep(m0, T0, m0, T0, m1, T1, Page(USER_STACK_ADDR), Page(USER_STACK_ADDR) + 4, progSz);
    if !ok { return; }
    MapsToIntro(m1, T1, Page(USER_STACK_ADDR), 4, stackPa);
    ok := space.MapPages(0, progSz, progPa, PD_AP_EL0);
    ghost var T2, l2, m2 := space.tables, heap.live, heap.mem[..];
    GrownTrans(T0, T1, T2, l0, l1, l2);
    KeptGrown(T0, T1, l0, l1, m0, m1, m2);
    OthersStep(m0, T0, m1, T1, m2, T2, 0, PagesOf(progSz), progSz);
    if !ok { return; }
    MapsToIntro(m2, T2, 0, PagesOf(progSz), progPa);
    MapsToKept(m1, T1, m2, T2, l1, l2, Page(USER_STACK_ADDR), 4, stackPa, 0, PagesOf(progSz));
    ok := space.MapPages(PERIPHERAL_BASE, PERIPHERAL_SIZE, PERIPHERAL_BASE, PD_AP_EL0);
    ghost var T3, l3, m3 := space.tables, heap.live, heap.mem[..];
    GrownTrans(T0, T2, T3, l0, l2, l3);
    KeptGrown(T0, T2, l0, l2, m0, m2, m3);
    ghost var lo, hi := Page(PERIPHERAL_BASE), Page(PERIPHERAL_BASE) + PagesOf(PERIPHERAL_SIZE);
    OthersStep(m0, T0, m2, T2, m3, T3, lo, hi, progSz);
    if !ok { return; }
    MapsToIntro(m3, T3, lo, PagesOf(PERIPHERAL_SIZE), PERIPHERAL_BASE);
    MapsToKept(m2, T2, m3, T3, l2, l3, Page(USER_STACK_ADDR), 4, stackPa, lo, hi);
    MapsToKept(m2, T2, m3, T3, l2, l3, 0, PagesOf(progSz), progPa, lo, hi);
  }

  /** Page q belongs to the stack, the program or the peripherals. */
  ghost predicate UserPage(q: nat, progSz: nat) {
    || Page(USER_STACK_ADDR) <= q < Page(USER_STACK_ADDR) + 4
    || q < PagesOf(progSz)
    || Page(PERIPHERAL_BASE) <= q < Page(PERIPHERAL_BASE) + PagesOf(PERIPHERAL_SIZE)
  }

  /** All other pages keep their entries. */
  ghost predicate OthersKept(m: seq<nat>, T: Tables, m': seq<nat>, T': Tables, progSz: nat) {
    forall q: nat :: q < PAGES && !UserPage(q, progSz) ==> Leaf(m', T', q) == Leaf(m, T, q)
  }

  /** All other pages are unmapped. */
  ghost predicate OnlyUser(m: seq<nat>, T: Tables, progSz: nat) {
    forall q: nat :: q < PAGES && !UserPage(q, progSz) ==> Leaf(m, T, q) == 0
  }

  lemma OthersSame(m: seq<nat>, T: Tables, progSz: nat)
    ensures OthersKept(m, T, m, T, progSz)
  {
  }

  lemma OthersStep(m: seq<nat>, T: Tables, m1: seq<nat>, T1: Tables, m2: seq<nat>, T2: Tables, lo: nat, hi: nat, progSz: nat)
    requires OthersKept(m, T, m1, T1, progSz) && forall q: nat :: lo <= q < hi ==> UserPage(q, progSz)
    requires forall q: nat :: q < PAGES && !(lo <= q < hi) ==> Leaf(m2, T2, q) == Leaf(m1, T1, q)
    ensures OthersKept(m, T, m2, T2, progSz)
  {
    hide Leaf, UserPage;
  }

  lemma OnlyUserNow(m: seq<nat>, T: Tables, m': seq<nat>, T': Tables, progSz: nat)
    requires OthersKept(m, T, m', T', progSz) && forall q: nat :: Leaf(m, T, q) == 0
    ensures OnlyUser(m', T', progSz)
  {
    hide Leaf;
  }

  lemma MapsToIntro(m: seq<nat>, T: Tables, first: nat, n: nat, pa: nat)
    requires forall q: nat :: first <= q < first + n ==>
               Leaf(m, T, q) == LeafEntry(pa + (q - first) * 4096, PD_AP_EL0) && HasTables(T, q)
    ensures MapsTo(m, T, first, n, pa)
  {
  }

  lemma SinceRefl(live: set<Span>, m: seq<nat>)
    ensures Since(live, m, live, m)
  {
  }

  lemma SinceIntro(live: set<Span>, m: seq<nat>, live': set<Span>, m': seq<nat>)
    requires live <= live' && Kept(live, m, m')
    ensures Since(live, m, live', m')
  {
  }

  lemma ImageTree(m: seq<nat>, live: set<Span>, im: Image)
    requires ImageOk(m, live, im)
    ensures TreeOk(m, im.T, im.root, live)
  {
  }

  /** The walk from the stack's base address finds the stack span. */
  lemma StackBase(m: seq<nat>, live: set<Span>, im: Image)
    requires ImageOk(m, live, im)
    ensures Translate(m, im.T, USER_STACK_ADDR) / 8 == im.stack.word
    ensures im.stack in live && USER_STACK_SIZE <= 8 * im.stack.count
  {
    UserTranslates(m, live, im, USER_STACK_ADDR);
  }

  lemma ProgBase(m: seq<nat>, live: set<Span>, im: Image)
    requires ImageOk(m, live, im)
    ensures im.prog in live && im.progSz <= 8 * im.prog.count && im.progSz % 4096 == 0 && 0 < im.progSz <= PERIPHERAL_BASE
  {
  }

  lemma ZeroedSince(live: set<Span>, m: seq<nat>, live': set<Span>, m': seq<nat>, frame: nat)
    requires Since(live, m, live', m') && TableSpan(frame) in live && ZeroedPage(m, frame)
    ensures TableSpan(frame) in live'
    ensures forall w: nat :: w < |m'| && frame * PAGE_WORDS <= w < frame * PAGE_WORDS + PAGE_WORDS ==> m'[w] == 0
  {
  }

  /** Everything fork allocates before it maps: a zeroed root table and copies of the two spans. */
  ghost predicate Cloned(l0: set<Span>, m0: seq<nat>, l: set<Span>, m: seq<nat>, im: Image,
                         frame: nat, stack: Span, prog: Span) {
    && Since(l0, m0, l, m) && ImageOk(m0, l0, im)
    && l == l0 + {TableSpan(frame), stack, prog} && {TableSpan(frame), stack, prog} !! l0
    && TableSpan(frame) != stack && TableSpan(frame) != prog && stack != prog
    && ZeroedPage(m, frame)
    && Copied(m, im.stack.word, m, stack.word, USER_STACK_SIZE / 8)
    && Copied(m, im.prog.word, m, prog.word, im.progSz / 8)
    && stack.word % PAGE_WORDS == 0 && 8 * stack.count == USER_STACK_SIZE
    && prog.word % PAGE_WORDS == 0 && 8 * prog.count >= im.progSz
  }

  /** The buddy system cannot give a page for a table, or a block for the stack, or one for the program. */
  ghost predicate NoRoom(heap: Heap, progSz: nat)
    reads heap, heap.zone
  {
    heap.NoBlock(0) || heap.NoBlock(OrderOf(USER_STACK_SIZE)) || heap.NoBlock(OrderOf(progSz))
  }

  /** The allocations and copies of sys_fork. */
  method ClonePages(parent: Process)
    returns (ok: bool, frame: nat, stackPa: nat, progPa: nat, ghost stack: Span, ghost prog: Span)
    requires parent.Valid()
    modifies parent.space.heap.Repr()
    ensures parent.Valid()
    ensures var h := parent.space.heap; Since(old(h.live), old(h.mem[..]), h.live, h.mem[..])
    ensures ok ==> stackPa == 8 * stack.word && progPa == 8 * prog.word
    ensures !ok ==> NoRoom(parent.space.heap, parent.progSz)
    ensures var h := parent.space.heap;
            ok ==> Cloned(old(h.live), old(h.mem[..]), h.live, h.mem[..], parent.View(), frame, stack, prog)
  {
    hide Heap.Valid, TreeOk, ImageOk, Kept, Own, Since, AllApart, Copied, Translate, Cloned, ZeroedPage;
    var heap := parent.space.heap;
    ghost var im, l0, m0 := parent.View(), heap.live, heap.mem[..];
    ok, frame, stackPa, progPa, stack, prog := false, 0, 0, 0, im.stack, im.prog;
    SinceRefl(l0, m0);
    var table := CreateEmptyPageTable(heap);
    ghost var l1, m1 := heap.live, heap.mem[..];
    SinceIntro(l0, m0, l1, m1);
    ImageSince(l0, m0, l1, m1, im);
    ImageTree(m1, l1, im);
    if table.None? { return; }
    frame := table.value;

    var parentStack := parent.space.SimulateWalk(USER_STACK_ADDR);
    StackBase(m1, l1, im);
    var stackPtr;
    stackPtr, stack := CloneSpan(heap, USER_STACK_SIZE, parentStack / 8, im.stack);
    ghost var l2, m2 := heap.live, heap.mem[..];
    SinceTrans(l0, m0, l1, m1, l2, m2);
    ImageSince(l1, m1, l2, m2, im);
    ImageTree(m2, l2, im);
    if stackPtr.None? { return; }
    PointerWord(heap, stackPtr.value, stack);
    stackPa := VirtToPhys(stackPtr.value);

    ProgBase(m2, l2, im);
    PointerWord(heap, parent.progAddr, im.prog);
    var progPtr;
    progPtr, prog := CloneSpan(heap, parent.progSz, VirtToPhys(parent.progAddr) / 8, im.prog);
    ghost var l3, m3 := heap.live, heap.mem[..];
    SinceTrans(l0, m0, l2, m2, l3, m3);
    ImageSince(l2, m2, l3, m3, im);
    ImageTree(m3, l3, im);
    if progPtr.None? { return; }
    PointerWord(heap, progPtr.value, prog);
    progPa := VirtToPhys(progPtr.value);
    ok := true;
    StackOrder();
    CloneFacts(l0, m0, l1, m1, l2, m2, l3, m3, im, frame, stack, prog);
  }

  lemma StackOrder()
    ensures Shl(4096, OrderOf(USER_STACK_SIZE)) == USER_STACK_SIZE
  {
    assert OrderOf(0x4000) == 1 + OrderOf(0x2000) == 2 + OrderOf(0x1000) == 2;
    assert Pow2(2) == 4;
  }

  lemma CloneFacts(l0: set<Span>, m0: seq<nat>, l1: set<Span>, m1: seq<nat>, l2: set<Span>, m2: seq<nat>,
                   l3: set<Span>, m3: seq<nat>, im: Image, frame: nat, stack: Span, prog: Span)
    requires Since(l0, m0, l3, m3) && Since(l0, m0, l1, m1) && Since(l1, m1, l2, m2) && Since(l2, m2, l3, m3)
    requires ImageOk(m0, l0, im) && ImageOk(m1, l1, im) && ImageOk(m2, l2, im)
    requires TableSpan(frame) !in l0 && l1 == l0 + {TableSpan(frame)} && ZeroedPage(m1, frame)
    requires stack !in l1 && l2 == l1 + {stack} && prog !in l2 && l3 == l2 + {prog}
    requires Copied(m1, im.stack.word, m2, stack.word, USER_STACK_SIZE / 8)
    requires Copied(m2, im.prog.word, m3, prog.word, im.progSz / 8)
    requires stack.word % PAGE_WORDS == 0 && 8 * stack.count == USER_STACK_SIZE
    requires prog.word % PAGE_WORDS == 0 && 8 * prog.count >= im.progSz
    ensures Cloned(l0, m0, l3, m3, im, frame, stack, prog)
  {
    hide TreeOk, UserMapped, ImageOk, Copied, Translate;
    StackBase(m1, l1, im);
    ProgBase(m2, l2, im);
    CopiedNow(l1, m1, l2, m2, im.stack, stack.word, USER_STACK_SIZE / 8);
    CopiedSince(l2, m2, l3, m3, im.stack, stack, USER_STACK_SIZE / 8);
    CopiedNow(l2, m2, l3, m3, im.prog, prog.word, im.progSz / 8);
    SinceTrans(l1, m1, l2, m2, l3, m3);
    ZeroedSince(l1, m1, l3, m3, frame);
  }

  /** What the mapping makes of the clones. */
  lemma ChildOk(l0: set<Span>, m0: seq<nat>, l: set<Span>, m: seq<nat>, l': set<Span>, m': seq<nat>,
                im: Image, frame: nat, T0: Tables, child: Image)
    requires Cloned(l0, m0, l, m, im, frame, child.stack, child.prog) && child.progSz == im.progSz
    requires T0 == map[[] := frame] && Grown(T0, child.T, l, l') && Kept(l - Own(T0), m, m')
    requires TreeOk(m', child.T, child.root, l') && UserMapped(m', child) && AllApart(l')
    requires forall s :: s in l' ==> s.word + s.count <= |m'|
    ensures Since(l0, m0, l', m') && ImageOk(m', l', im) && ImageOk(m', l', child)
    ensures SameBytes(m', im, child) && Separate(im, child)
  {
    var keep := l - Own(T0);
    NewTables(l, l', frame, T0, child.T);
    ImageParts(m0, l0, im);
    hide TreeOk, UserMapped, Own, Kept, Copied;
    KeptLess(keep, l0, m, m');
    KeptOn(l0, l0, m0, m, m');
    SinceIntro(l0, m0, l', m');
    ImageSince(l0, m0, l', m', im);
    SinceIntro(keep, m, l', m');
    CopiedSince(keep, m, l', m', im.stack, child.stack, USER_STACK_SIZE / 8);
    CopiedSince(keep, m, l', m', im.prog, child.prog, im.progSz / 8);
    CopiesAreSame(m', l', im, child);
  }

  lemma NewTables(l: set<Span>, l': set<Span>, frame: nat, T0: Tables, T: Tables)
    requires T0 == map[[] := frame] && Grown(T0, T, l, l')
    ensures Own(T0) == {TableSpan(frame)} && l <= l'
    ensures forall s :: s in Own(T) ==> s == TableSpan(frame) || s !in l
  {
    assert T0[[]] == frame;
  }

  lemma ImageParts(m: seq<nat>, live: set<Span>, im: Image)
    requires ImageOk(m, live, im)
    ensures im.stack in live && im.prog in live && Own(im.T) <= live
    ensures 8 * im.stack.count == USER_STACK_SIZE && 8 * im.prog.count >= im.progSz
    ensures im.progSz % 4096 == 0 && 0 < im.progSz <= PERIPHERAL_BASE && 8 * |m| <= PHYS_LIMIT
  {
  }

  /** The address-space half of sys_fork.  Null: some allocation failed, and the kernel goes on with wild pointers. */
  method ForkSpace(parent: Process) returns (child: Process?)
    requires parent.Valid()
    modifies parent.space.heap.Repr()
    ensures parent.Valid()
    ensures var h := parent.space.heap; Since(old(h.live), old(h.mem[..]), h.live, h.mem[..])
    // it fails only when one of its allocations does
    ensures child == null ==> NoRoom(parent.space.heap, parent.progSz)
    ensures child != null ==>
              && fresh(child) && fresh(child.space) && child.Valid() && child.space.heap == parent.space.heap
              && SameBytes(parent.space.heap.mem[..], parent.View(), child.View())
              && Separate(parent.View(), child.View()) && AllApart(parent.space.heap.live)
              && child.progSz == parent.progSz && OnlyUser(child.space.heap.mem[..], child.space.tables, child.progSz)
              // it takes the child's own memory and no more
              && child.space.heap.live == old(parent.space.heap.live) + Own(child.space.tables) + {child.stack, child.prog}
  {
    hide Heap.Valid, TreeOk, ImageOk, Kept, Own, Since, AllApart, Grown, SameBytes, Separate, Cloned, UserMapped,
         OthersKept, OnlyUser;
    var heap := parent.space.heap;
    ghost var im, l0, m0 := parent.View(), heap.live, heap.mem[..];
    var ok, frame, stackPa, progPa, stack, prog := ClonePages(parent);
    if !ok { return null; }
    ghost var l, m := heap.live, heap.mem[..];
    CloneRoot(l0, m0, l, m, im, frame, stack, prog);
    var space := new AddressSpace(heap, frame);
    ghost var T0 := space.tables;
    ok := MapImage(space, stackPa, progPa, parent.progSz, stack, prog);
    ghost var l1, m1 := heap.live, heap.mem[..];
    CloneKept(l0, m0, l, m, l1, m1, im, frame, T0, space.tables, stack, prog);
    ImageTree(m1, l1, im);
    if !ok { return null; }
    OnlyUserNow(m, T0, m1, space.tables, parent.progSz);
    HeapApart(heap);
    HeapInMemory(heap);
    ChildOk(l0, m0, l, m, l1, m1, im, frame, T0, Image(space.tables, space.root, stack, prog, parent.progSz));
    ForkTakes(l0, m0, l, m, l1, im, frame, T0, space.tables, stack, prog);
    child := new Process(space, PhysToVirt(progPa), parent.progSz, stack, prog);
  }

  lemma ForkTakes(l0: set<Span>, m0: seq<nat>, l: set<Span>, m: seq<nat>, l': set<Span>, im: Image, frame: nat,
                  T0: Tables, T: Tables, stack: Span, prog: Span)
    requires Cloned(l0, m0, l, m, im, frame, stack, prog) && T0 == map[[] := frame] && Grown(T0, T, l, l')
    ensures l' == l0 + Own(T) + {stack, prog}
  {
    hide ImageOk, Since, Copied;
    RootOwned(frame, T0, T, l, l');
  }

  lemma ExecTakes(l0: set<Span>, l': set<Span>, frame: nat, T0: Tables, T: Tables, stack: Span)
    requires T0 == map[[] := frame] && Grown(T0, T, l0 + {TableSpan(frame)} + {stack}, l')
    ensures l' == l0 + Own(T) + {stack}
  {
    RootOwned(frame, T0, T, l0 + {TableSpan(frame)} + {stack}, l');
  }

  lemma RootOwned(frame: nat, T0: Tables, T: Tables, l: set<Span>, l': set<Span>)
    requires T0 == map[[] := frame] && Grown(T0, T, l, l')
    ensures TableSpan(frame) in Own(T)
  {
    assert [] in T0 && [] in T && T[[]] == frame;
  }

  lemma HeapInMemory(heap: Heap)
    requires heap.Valid()
    ensures forall s :: s in heap.live ==> s.word + s.count <= heap.mem.Length
  {
    forall s | s in heap.live ensures s.word + s.count <= heap.mem.Length { heap.LiveInMemory(s); }
  }

  lemma CloneRoot(l0: set<Span>, m0: seq<nat>, l: set<Span>, m: seq<nat>, im: Image, frame: nat, stack: Span, prog: Span)
    requires Cloned(l0, m0, l, m, im, frame, stack, prog)
    ensures TableSpan(frame) in l && ImageOk(m0, l0, im) && im.progSz % 4096 == 0 && 0 < im.progSz <= PERIPHERAL_BASE
    ensures forall w: nat :: w < |m| && frame * PAGE_WORDS <= w < frame * PAGE_WORDS + PAGE_WORDS ==> m[w] == 0
  {
    ImageParts(m0, l0, im);
  }

  lemma CloneKept(l0: set<Span>, m0: seq<nat>, l: set<Span>, m: seq<nat>, l': set<Span>, m': seq<nat>,
                  im: Image, frame: nat, T0: Tables, T: Tables, stack: Span, prog: Span)
    requires Cloned(l0, m0, l, m, im, frame, stack, prog)
    requires T0 == map[[] := frame] && Grown(T0, T, l, l') && Kept(l - Own(T0), m, m')
    ensures Since(l0, m0, l', m') && ImageOk(m', l', im)
  {
    NewTables(l, l', frame, T0, T);
    hide TreeOk, UserMapped, Own, Kept, Copied, ImageOk;
    KeptLess(l - Own(T0), l0, m, m');
    KeptOn(l0, l0, m0, m, m');
    SinceIntro(l0, m0, l', m');
    ImageSince(l0, m0, l', m', im);
  }

  // ---- the first image of a process ----------------------------------------

  /** The three mappings of do_exec: program, stack, peripherals. */
  method MapExec(space: AddressSpace, stackPa: nat, progPa: nat, progSz: nat, ghost stack: Span, ghost prog: Span)
    returns (ok: bool)
    requires space.Valid() && progSz % 4096 == 0 && 0 < progSz <= PERIPHERAL_BASE
    requires stackPa == 8 * stack.word && progPa == 8 * prog.word
    modifies space, space.heap.Repr()
    ensures space.Valid() && Grown(old(space.tables), space.tables, old(space.heap.live), space.heap.live)
    ensures Kept(old(space.heap.live) - Own(old(space.tables)), old(space.heap.mem[..]), space.heap.mem[..])
    ensures OthersKept(old(space.heap.mem[..]), old(space.tables), space.heap.mem[..], space.tables, progSz)
    ensures ok ==> UserMapped(space.heap.mem[..], Image(space.tables, space.root, stack, prog, progSz))
    ensures !ok ==> space.heap.NoBlock(0)
  {
    hide Heap.Valid, TreeOk, Kept, Grown, Own, MapsTo, Leaf, LeafEntry, HasTables, OthersKept;
    ghost var heap := space.heap;
    ghost var T0, l0, m0 := space.tables, heap.live, heap.mem[..];
    ghost var lo, hi := Page(PERIPHERAL_BASE), Page(PERIPHERAL_BASE) + PagesOf(PERIPHERAL_SIZE);
    ok := space.MapPages(0, progSz, progPa, PD_AP_EL0);
    ghost var T1, l1, m1 := space.tables, heap.live, heap.mem[..];
    OthersStep(m0, T0, m0, T0, m1, T1, 0, PagesOf(progSz), progSz) by { OthersSame(m0, T0, progSz); }
    if !ok { return; }
    MapsToIntro(m1, T1, 0, PagesOf(progSz), progPa);
    ok := space.MapPages(USER_STACK_ADDR, USER_STACK_SIZE, stackPa, PD_AP_EL0);
    ghost var T2, l2, m2 := space.tables, heap.live, heap.mem[..];
    GrownTrans(T0, T1, T2, l0, l1, l2);
    KeptGrown(T0, T1, l0, l1, m0, m1, m2);
    OthersStep(m0, T0, m1, T1, m2, T2, Page(USER_STACK_ADDR), Page(USER_STACK_ADDR) + 4, progSz);
    if !ok { return; }
    MapsToIntro(m2, T2, Page(USER_STACK_ADDR), 4, stackPa);
    MapsToKept(m1, T1, m2, T2, l1, l2, 0, PagesOf(progSz), progPa, Page(USER_STACK_ADDR), Page(USER_STACK_ADDR) + 4);
    ok := space.MapPages(PERIPHERAL_BASE, PERIPHERAL_SIZE, PERIPHERAL_BASE, PD_AP_EL0);
    ghost var T3, l3, m3 := space.tables, heap.live, heap.mem[..];
    GrownTrans(T0, T2, T3, l0, l2, l3);
    KeptGrown(T0, T2, l0, l2, m0, m2, m3);
    OthersStep(m0, T0, m2, T2, m3, T3, lo, hi, progSz);
    if !ok { return; }
    MapsToIntro(m3, T3, lo, PagesOf(PERIPHERAL_SIZE), PERIPHERAL_BASE);
    MapsToKept(m2, T2, m3, T3, l2, l3, Page(USER_STACK_ADDR), 4, stackPa, lo, hi);
    MapsToKept(m2, T2, m3, T3, l2, l3, 0, PagesOf(progSz), progPa, lo, hi);
  }

  /** do_exec for a task without page tables: a program already in memory gets a stack and an address space.
      Null: some allocation failed, and the kernel goes on with wild pointers. */
  method Exec(heap: Heap, func: nat, size: nat, ghost prog: Span) returns (p: Process?)
    requires heap.Valid() && prog in heap.live && prog.word % PAGE_WORDS == 0 && func == PhysToVirt(8 * prog.word)
    requires size % 4096 == 0 && 0 < size <= PERIPHERAL_BASE && size <= 8 * prog.count
    modifies heap.Repr()
    ensures heap.Valid() && Since(old(heap.live), old(heap.mem[..]), heap.live, heap.mem[..])
    ensures p == null ==> NoRoom(heap, 0)
    ensures p != null ==>
              && fresh(p) && fresh(p.space) && p.Valid() && p.space.heap == heap
              && p.progSz == size && p.prog == prog && p.stack !in old(heap.live)
              && OnlyUser(heap.mem[..], p.space.tables, size)
              && heap.live == old(heap.live) + Own(p.space.tables) + {p.stack}
  {
    hide Heap.Valid, TreeOk, ImageOk, Kept, Own, Since, Grown, UserMapped, OthersKept, OnlyUser, ZeroedPage;
    hide FromSlab, CutShort, PhysToVirt, VirtToPhys, Buddy.Took, Tiling.Moves, Tiling.FreeRun;
    ghost var l0, m0 := heap.live, heap.mem[..];
    var table := CreateEmptyPageTable(heap);
    ghost var l1, m1 := heap.live, heap.mem[..];
    SinceIntro(l0, m0, l1, m1);
    if table.None? { return null; }
    StackOrder();
    var ptr, stack := heap.Kmalloc(USER_STACK_SIZE);
    ghost var l2, m2 := heap.live, heap.mem[..];
    SinceIntro(l1, m1, l2, m2);
    SinceTrans(l0, m0, l1, m1, l2, m2);
    if ptr.None? { return null; }
    ZeroedSince(l1, m1, l2, m2, table.value);
    PointerWord(heap, ptr.value, stack);
    PointerWord(heap, func, prog);
    var space := new AddressSpace(heap, table.value);
    ghost var T0 := space.tables;
    var ok := MapExec(space, VirtToPhys(ptr.value), VirtToPhys(func), size, stack, prog);
    ghost var l3, m3 := heap.live, heap.mem[..];
    ExecSince(l0, m0, l2, m2, l3, m3, table.value, T0, space.tables);
    if !ok { return null; }
    OnlyUserNow(m2, T0, m3, space.tables, size);
    SpaceTree(space);
    HeapInMemory(heap);
    ExecOk(l2, l3, m3, table.value, T0, Image(space.tables, space.root, stack, prog, size));
    ExecTakes(l0, l3, table.value, T0, space.tables, stack);
    p := new Process(space, func, size, stack, prog);
  }

  lemma ExecSince(l0: set<Span>, m0: seq<nat>, l: set<Span>, m: seq<nat>, l': set<Span>, m': seq<nat>,
                  frame: nat, T0: Tables, T: Tables)
    requires Since(l0, m0, l, m) && TableSpan(frame) !in l0
    requires T0 == map[[] := frame] && Grown(T0, T, l, l') && Kept(l - Own(T0), m, m')
    ensures Since(l0, m0, l', m')
  {
    NewTables(l, l', frame, T0, T);
    hide Own, Kept;
    KeptLess(l - Own(T0), l0, m, m');
    KeptOn(l0, l0, m0, m, m');
  }

  lemma SpaceTree(space: AddressSpace)
    requires space.Valid()
    ensures TreeOk(space.heap.mem[..], space.tables, space.root, space.heap.live)
    ensures 8 * space.heap.mem.Length <= PHYS_LIMIT
  {
    space.heap.Sizes();
  }

  /** A fresh tree over two spans that were in use before it grew makes a whole image. */
  lemma ExecOk(l: set<Span>, l': set<Span>, m: seq<nat>, frame: nat, T0: Tables, im: Image)
    requires im.stack in l && im.prog in l && im.stack != im.prog
    requires im.stack != TableSpan(frame) && im.prog != TableSpan(frame)
    requires T0 == map[[] := frame] && Grown(T0, im.T, l, l')
    requires TreeOk(m, im.T, im.root, l') && UserMapped(m, im) && 8 * |m| <= PHYS_LIMIT
    requires im.stack.word % PAGE_WORDS == 0 && 8 * im.stack.count == USER_STACK_SIZE
    requires im.prog.word % PAGE_WORDS == 0 && 8 * im.prog.count >= im.progSz
    requires im.progSz % 4096 == 0 && 0 < im.progSz <= PERIPHERAL_BASE
    requires forall s :: s in l' ==> s.word + s.count <= |m|
    ensures ImageOk(m, l', im)
  {
    NewTables(l, l', frame, T0, im.T);
    hide TreeOk, UserMapped, Own;
  }
}
