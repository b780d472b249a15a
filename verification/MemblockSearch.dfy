// Walking the free intervals and the first-fit search on them.
module MemblockSearch {
  import opened Bits
  import opened Memblock

  /** Gap j of the reserved list: from the end of region j - 1 to the start of region j. */
  function GapStart(b: seq<Region>, j: nat): nat
    requires j <= |b|
  {
    if j == 0 then 0 else b[j - 1].End()
  }

  function GapEnd(b: seq<Region>, j: nat, limit: nat): nat
    requires j <= |b|
  {
    if j < |b| then b[j].base else limit
  }

  ghost predicate Within(a: seq<Region>, limit: nat) {
    forall i :: 0 <= i < |a| ==> a[i].End() <= limit
  }

  /** Everything the iterator still yields from cursor (ia, ib). */
  function Yields(a: seq<Region>, b: seq<Region>, limit: nat, ia: nat, ib: nat): seq<Region>
    decreases |a| - ia, |b| + 1 - ib
  {
    if ia >= |a| || ib > |b| then []
    else
      var m, rs, re := a[ia], GapStart(b, ib), GapEnd(b, ib, limit);
      if rs >= m.End() then Yields(a, b, limit, ia + 1, ib)
      else if m.base < re then
        var s, e := Max(m.base, rs), Min(m.End(), re);
        var (ja, jb) := if m.End() <= re then (ia + 1, ib) else (ia, ib + 1);
        [Region(s, if s <= e then e - s else 0)] + Yields(a, b, limit, ja, jb)
      else Yields(a, b, limit, ia, ib + 1)
  }

  /** Everything the iterator yields in one walk. */
  function Gaps(a: seq<Region>, b: seq<Region>, limit: nat): seq<Region> {
    Yields(a, b, limit, 0, 0)
  }

  /** Free addresses: memory that is not reserved. */
  ghost predicate Free(a: seq<Region>, b: seq<Region>, x: int) {
    Covers(a, x) && !Covers(b, x)
  }

  // ---- exactness -----------------------------------------------------------

  /** y is a canonical list of intervals above the cursor and covers what is free there. */
  ghost predicate Exact(a: seq<Region>, b: seq<Region>, ia: nat, ib: nat, y: seq<Region>)
    requires ia <= |a| && ib <= |b|
  {
    && Canon(y)
    && (y != [] ==> ia < |a| && a[ia].base <= y[0].base && GapStart(b, ib) <= y[0].base)
    && forall x: nat :: Covers(y, x) <==> Covers(a[ia..], x) && x >= GapStart(b, ib) && !Covers(b, x)
  }

  lemma {:induction false} YieldsExact(a: seq<Region>, b: seq<Region>, limit: nat, ia: nat, ib: nat)
    requires Shape(a) && Shape(b) && Within(a, limit) && ia <= |a| && ib <= |b|
    ensures Exact(a, b, ia, ib, Yields(a, b, limit, ia, ib))
    decreases |a| - ia, |b| + 1 - ib
  {
    hide Exact, Shape, Covers, Canon;
    if ia == |a| {
      NothingLeft(a, b, ib);
    } else {
      var m, rs, re := a[ia], GapStart(b, ib), GapEnd(b, ib, limit);
      if rs >= m.End() {
        YieldsExact(a, b, limit, ia + 1, ib);
        SkipMemory(a, b, limit, ia, ib, Yields(a, b, limit, ia + 1, ib));
      } else if m.base < re {
        var s, e := Max(m.base, rs), Min(m.End(), re);
        LastGap(a, b, limit, ia, ib);
        var (ja, jb) := if m.End() <= re then (ia + 1, ib) else (ia, ib + 1);
        YieldsExact(a, b, limit, ja, jb);
        YieldGap(a, b, limit, ia, ib, Yields(a, b, limit, ja, jb));
      } else {
        LastGap(a, b, limit, ia, ib);
        YieldsExact(a, b, limit, ia, ib + 1);
        SkipGap(a, b, limit, ia, ib, Yields(a, b, limit, ia, ib + 1));
      }
    }
  }

  lemma NothingLeft(a: seq<Region>, b: seq<Region>, ib: nat)
    requires ib <= |b|
    ensures Exact(a, b, |a|, ib, [])
  {
    assert a[|a|..] == [];
  }

  /** No memory region reaches past the last gap, and only the dummy reserved entry leaves an empty one. */
  lemma LastGap(a: seq<Region>, b: seq<Region>, limit: nat, ia: nat, ib: nat)
    requires Shape(a) && Shape(b) && Within(a, limit) && ia < |a| && ib <= |b|
    requires GapStart(b, ib) < a[ia].End()
    ensures a[ia].size > 0
    ensures ib == |b| ==> a[ia].base < limit && a[ia].End() <= limit
    ensures a[ia].base < GapEnd(b, ib, limit) ==> GapStart(b, ib) < GapEnd(b, ib, limit)
  {
  }

  lemma InGap(b: seq<Region>, j: nat, limit: nat, x: nat)
    requires Shape(b) && j <= |b| && GapStart(b, j) <= x
    ensures x < GapEnd(b, j, limit) ==> !Covers(b, x)
    ensures j < |b| && GapEnd(b, j, limit) <= x < GapStart(b, j + 1) ==> Covers(b, x)
    ensures j < |b| ==> GapEnd(b, j, limit) <= GapStart(b, j + 1)
  {
    if j < |b| && b[j].base <= x < b[j].End() { assert b[j].Has(x); }
  }

  lemma SkipMemory(a: seq<Region>, b: seq<Region>, limit: nat, ia: nat, ib: nat, y: seq<Region>)
    requires Shape(a) && Shape(b) && ia < |a| && ib <= |b| && GapStart(b, ib) >= a[ia].End()
    requires Exact(a, b, ia + 1, ib, y)
    ensures Exact(a, b, ia, ib, y)
  {
    NextAbove(a, ia);
    hide Covers, Canon, Shape;
    forall x: nat
      ensures Covers(y, x) <==> Covers(a[ia..], x) && x >= GapStart(b, ib) && !Covers(b, x)
    {
      CoversHead(a[ia..], x);
      assert a[ia..][1..] == a[ia + 1..];
    }
  }

  lemma NextAbove(a: seq<Region>, ia: nat)
    requires Shape(a) && ia < |a|
    ensures ia + 1 < |a| ==> a[ia].base <= a[ia + 1].base
  {
  }

  lemma SkipGap(a: seq<Region>, b: seq<Region>, limit: nat, ia: nat, ib: nat, y: seq<Region>)
    requires Shape(a) && Shape(b) && ia < |a| && ib < |b| && a[ia].base >= GapEnd(b, ib, limit)
    requires Exact(a, b, ia, ib + 1, y)
    ensures Exact(a, b, ia, ib, y)
  {
    InGap(b, ib, limit, GapStart(b, ib));
    assert Canon(y) && (y != [] ==> a[ia].base <= y[0].base && GapStart(b, ib) <= y[0].base);
    hide Canon, Shape;
    forall x: nat
      ensures Covers(y, x) <==> Covers(a[ia..], x) && x >= GapStart(b, ib) && !Covers(b, x)
    {
      if Covers(a[ia..], x) && x >= GapStart(b, ib) {
        FromHere(a, ia, x);
        InGap(b, ib, limit, x);
      }
    }
    hide Covers;
  }

  lemma FromHere(a: seq<Region>, ia: nat, x: nat)
    requires Shape(a) && ia < |a| && Covers(a[ia..], x)
    ensures a[ia].base <= x && (!a[ia].Has(x) ==> ia + 1 < |a| && a[ia].End() < a[ia + 1].base <= x)
  {
    var i :| 0 <= i < |a[ia..]| && a[ia..][i].Has(x);
    assert a[ia + i].Has(x);
  }

  lemma YieldGap(a: seq<Region>, b: seq<Region>, limit: nat, ia: nat, ib: nat, y: seq<Region>)
    requires Shape(a) && Shape(b) && Within(a, limit) && ia < |a| && ib <= |b|
    requires GapStart(b, ib) < a[ia].End() && a[ia].base < GapEnd(b, ib, limit)
    requires a[ia].size > 0 && GapStart(b, ib) < GapEnd(b, ib, limit)
    requires var (ja, jb) := if a[ia].End() <= GapEnd(b, ib, limit) then (ia + 1, ib) else (ia, ib + 1);
             jb <= |b| && Exact(a, b, ja, jb, y)
    ensures var s, e := Max(a[ia].base, GapStart(b, ib)), Min(a[ia].End(), GapEnd(b, ib, limit));
            s < e && Exact(a, b, ia, ib, [Region(s, e - s)] + y)
  {
    var m, rs, re := a[ia], GapStart(b, ib), GapEnd(b, ib, limit);
    var s, e := Max(m.base, rs), Min(m.End(), re);
    var g := Region(s, e - s);
    forall x: nat
      ensures Covers([g] + y, x) <==> Covers(a[ia..], x) && x >= rs && !Covers(b, x)
    {
      CoversCons(g, y, x);
      CoversHead(a[ia..], x);
      assert a[ia..][1..] == a[ia + 1..];
      if x >= rs { InGap(b, ib, limit, x); }
      if Covers(a[ia..], x) { FromHere(a, ia, x); }
    }
    assert y != [] ==> e < y[0].base;
  }

  // ---- __next_mem_range ----------------------------------------------------

  /** One call of the iterator from cursor (ia, ib): the next interval and where the cursor goes, or nothing. */
  datatype Pull = Stop | Yield(start: nat, end: nat, ja: nat, jb: nat)

  function Next(a: seq<Region>, b: seq<Region>, limit: nat, ia: nat, ib: nat): Pull
    decreases |a| - ia, |b| + 1 - ib
  {
    if ia >= |a| || ib > |b| then Stop
    else
      var m, rs, re := a[ia], GapStart(b, ib), GapEnd(b, ib, limit);
      if rs >= m.End() then Next(a, b, limit, ia + 1, ib)
      else if m.base < re then
        var (ja, jb) := if m.End() <= re then (ia + 1, ib) else (ia, ib + 1);
        Yield(Max(m.base, rs), Min(m.End(), re), ja, jb)
      else Next(a, b, limit, ia, ib + 1)
  }

  lemma NextStep(a: seq<Region>, b: seq<Region>, limit: nat, ia: nat, ib: nat)
    requires ia < |a| && ib <= |b|
    ensures var m, rs, re := a[ia], GapStart(b, ib), GapEnd(b, ib, limit);
            Next(a, b, limit, ia, ib) ==
            if rs >= m.End() then Next(a, b, limit, ia + 1, ib)
            else if m.base >= re then Next(a, b, limit, ia, ib + 1)
            else Yield(Max(m.base, rs), Min(m.End(), re), if m.End() <= re then ia + 1 else ia,
                       if m.End() <= re then ib else ib + 1)
  {
  }

  lemma NextStop(a: seq<Region>, b: seq<Region>, limit: nat, ib: nat)
    ensures Next(a, b, limit, |a|, ib) == Stop
  {
  }

  ghost predicate Head(y: seq<Region>, start: nat, end: nat, rest: seq<Region>) {
    start < end && y != [] && y[0] == Region(start, end - start) && y[1..] == rest
  }

  /** Calling the iterator again and again takes the free intervals off one by one; the cursor moves forward. */
  lemma {:induction false} YieldsNext(a: seq<Region>, b: seq<Region>, limit: nat, ia: nat, ib: nat)
    requires Shape(a) && Shape(b) && Within(a, limit) && ia <= |a| && ib <= |b|
    ensures var y := Yields(a, b, limit, ia, ib);
            match Next(a, b, limit, ia, ib)
            case Stop => y == []
            case Yield(s, e, ja, jb) =>
              ja <= |a| && jb <= |b| && ja + jb > ia + ib && Head(y, s, e, Yields(a, b, limit, ja, jb))
    decreases |a| - ia, |b| + 1 - ib
  {
    hide Shape, Within, Yields, Next, Head;
    if ia == |a| {
      NextStop(a, b, limit, ib);
      YieldsStop(a, b, limit, ib);
    } else {
      var m, rs, re := a[ia], GapStart(b, ib), GapEnd(b, ib, limit);
      NextStep(a, b, limit, ia, ib);
      YieldsStep(a, b, limit, ia, ib);
      if rs >= m.End() {
        YieldsNext(a, b, limit, ia + 1, ib);
      } else {
        LastGap(a, b, limit, ia, ib);
        if m.base >= re { YieldsNext(a, b, limit, ia, ib + 1); }
      }
    }
  }

  lemma YieldsStep(a: seq<Region>, b: seq<Region>, limit: nat, ia: nat, ib: nat)
    requires ia < |a| && ib <= |b|
    ensures var m, rs, re := a[ia], GapStart(b, ib), GapEnd(b, ib, limit);
            var s, e := Max(m.base, rs), Min(m.End(), re);
            var y := Yields(a, b, limit, ia, ib);
            if rs >= m.End() then y == Yields(a, b, limit, ia + 1, ib)
            else if m.base >= re then y == Yields(a, b, limit, ia, ib + 1)
            else
              s < e ==> Head(y, s, e, if m.End() <= re then Yields(a, b, limit, ia + 1, ib)
                                      else Yields(a, b, limit, ia, ib + 1))
  {
  }

  lemma YieldsStop(a: seq<Region>, b: seq<Region>, limit: nat, ib: nat)
    ensures Yields(a, b, limit, |a|, ib) == []
  {
  }

  method LoadCursor(idx: nat, ghost ia: nat, ghost ib: nat) returns (idxA: nat, idxB: nat)
    requires ia < U32 && idx == Pack(ia, ib)
    ensures idxA == ia && idxB == ib
  {
    Unpack(ia, ib);
    idxA := And(idx, U32 - 1);
    idxB := Shr(idx, 32);
  }

  /** start and end are what the caller's two variables hold; at exhaustion they and the cursor are left alone. */
  method NextMemRange(idx: nat, a: MemblockType, b: MemblockType, limit: nat, start: nat, end: nat,
                      ghost ia: nat, ghost ib: nat)
    returns (next: nat, outStart: nat, outEnd: nat)
    requires a.Valid() && b.Valid() && Within(a.View(), limit)
    requires a.cnt + 1 < U32 && ia <= a.cnt && ib <= b.cnt && idx == Pack(ia, ib)
    ensures match Next(a.View(), b.View(), limit, ia, ib)
            case Stop => next == idx && outStart == start && outEnd == end
            case Yield(s, e, ja, jb) => next == Pack(ja, jb) && outStart == s && outEnd == e
  {
    hide Next, Pack, Shape, Within;
    var idxA, idxB := LoadCursor(idx, ia, ib);
    next, outStart, outEnd := idx, start, end;
    ghost var A, B := a.View(), b.View();
    while idxA < a.cnt
      invariant ia <= idxA <= a.cnt && ib <= idxB <= b.cnt
      invariant Next(A, B, limit, idxA, idxB) == Next(A, B, limit, ia, ib)
    {
      var mStart := a.regions[idxA].base;
      var mEnd := mStart + a.regions[idxA].size;
      assert A[idxA] == a.regions[idxA];
      while idxB < b.cnt + 1
        invariant ib <= idxB <= b.cnt
        invariant Next(A, B, limit, idxA, idxB) == Next(A, B, limit, ia, ib)
        decreases b.cnt + 1 - idxB
      {
        assert idxB > 0 ==> B[idxB - 1] == b.regions[idxB - 1];
        assert idxB < b.cnt ==> B[idxB] == b.regions[idxB];
        var rStart := if idxB != 0 then b.regions[idxB - 1].base + b.regions[idxB - 1].size else 0;
        var rEnd := if idxB < b.cnt then b.regions[idxB].base else limit;
        NextStep(A, B, limit, idxA, idxB);
        if rStart >= mEnd { break; }
        LastGap(A, B, limit, idxA, idxB);
        if mStart < rEnd {
          outStart, outEnd := Max(mStart, rStart), Min(mEnd, rEnd);
          if mEnd <= rEnd { idxA := idxA + 1; } else { idxB := idxB + 1; }
          next := Pack(idxA, idxB);
          return;
        }
        idxB := idxB + 1;
      }
      idxA := idxA + 1;
    }
    NextStop(A, B, limit, idxB);
  }

  // ---- first fit -----------------------------------------------------------

  /** Address x can hold `size` bytes: aligned, inside [start, end), and wholly free. */
  ghost predicate Fits(a: seq<Region>, b: seq<Region>, size: nat, k: nat, start: nat, end: nat, x: nat) {
    && Aligned(x, k) && start <= x && x + Max(size, 1) <= end
    && forall p: nat :: x <= p < x + Max(size, 1) ==> Free(a, b, p)
  }

  /** x is the lowest address that can hold `size` bytes. */
  ghost predicate Lowest(a: seq<Region>, b: seq<Region>, size: nat, k: nat, start: nat, end: nat, x: nat) {
    && Fits(a, b, size, k, start, end, x)
    && forall y: nat :: Fits(a, b, size, k, start, end, y) ==> x <= y
  }

  ghost predicate NothingFits(a: seq<Region>, b: seq<Region>, size: nat, k: nat, start: nat, end: nat) {
    forall x: nat :: !Fits(a, b, size, k, start, end, x)
  }

  ghost predicate FitsIn(g: Region, size: nat, k: nat, start: nat, end: nat, x: nat) {
    && Aligned(x, k) && start <= x && x + Max(size, 1) <= end
    && g.base <= x && x + Max(size, 1) <= g.End()
  }

  ghost predicate FitsSome(y: seq<Region>, size: nat, k: nat, start: nat, end: nat, x: nat) {
    exists i :: 0 <= i < |y| && FitsIn(y[i], size, k, start, end, x)
  }

  function Clamp(v: nat, lo: nat, hi: nat): nat {
    Min(Max(v, lo), hi)
  }

  /** If anything fits in g, then c does, and c is the lowest. */
  ghost predicate Best(g: Region, size: nat, k: nat, start: nat, end: nat, c: nat) {
    forall x: nat :: FitsIn(g, size, k, start, end, x) ==> FitsIn(g, size, k, start, end, c) && c <= x
  }

  /** What the search computes for one free interval. */
  lemma Candidate(g: Region, size: nat, k: nat, start: nat, end: nat)
    requires g.size > 0 && k <= 64 && end + Pow2(k) <= WORD
    ensures var lo, hi := Clamp(g.base, start, end), Clamp(g.End(), start, end);
            var c := AlignUp(lo, Pow2(k));
            && (c < hi && hi - c >= size <==> FitsIn(g, size, k, start, end, c))
            && Best(g, size, k, start, end, c)
  {
    var lo := Clamp(g.base, start, end);
    AlignUpLeast(lo, k);
    LowestInside(g, size, k, start, end, AlignUp(lo, Pow2(k)));
  }

  lemma LowestInside(g: Region, size: nat, k: nat, start: nat, end: nat, c: nat)
    requires g.size > 0 && Aligned(c, k) && Clamp(g.base, start, end) <= c
    requires forall m: nat :: Aligned(m, k) && m >= Clamp(g.base, start, end) ==> c <= m
    ensures var hi := Clamp(g.End(), start, end);
            && (c < hi && hi - c >= size <==> FitsIn(g, size, k, start, end, c))
            && Best(g, size, k, start, end, c)
  {
    hide Aligned;
  }

  /** A run of covered addresses never leaves one interval of a canonical list. */
  lemma RunInOne(y: seq<Region>, x: nat, w: nat)
    requires Canon(y) && w >= 1 && forall p: nat :: x <= p < x + w ==> Covers(y, p)
    ensures exists i :: 0 <= i < |y| && y[i].base <= x && x + w <= y[i].End()
  {
    assert Covers(y, x);
    var i :| 0 <= i < |y| && y[i].Has(x);
    EndIsOutside(y, i);
  }

  lemma EndIsOutside(y: seq<Region>, i: nat)
    requires Canon(y) && i < |y|
    ensures !Covers(y, y[i].End())
  {
  }

  /** An address fits exactly when it fits inside one of the intervals the iterator yields. */
  lemma FitsIffYield(a: seq<Region>, b: seq<Region>, limit: nat, size: nat, k: nat, start: nat, end: nat, x: nat)
    requires Shape(a) && Shape(b) && Within(a, limit)
    ensures var y := Gaps(a, b, limit);
            Fits(a, b, size, k, start, end, x) <==> FitsSome(y, size, k, start, end, x)
  {
    var y := Gaps(a, b, limit);
    GapsAreFree(a, b, limit);
    hide Shape, Gaps, Canon, Covers, Free, Within, Aligned;
    var w := Max(size, 1);
    if Fits(a, b, size, k, start, end, x) {
      forall p: nat | x <= p < x + w ensures Covers(y, p) { assert Free(a, b, p); }
      RunInOne(y, x, w);
      var i :| 0 <= i < |y| && y[i].base <= x && x + w <= y[i].End();
      assert FitsIn(y[i], size, k, start, end, x);
    }
    if FitsSome(y, size, k, start, end, x) {
      var i :| 0 <= i < |y| && FitsIn(y[i], size, k, start, end, x);
      forall p: nat | x <= p < x + w ensures Free(a, b, p) {
        CoveredBy(y, i, p);
      }
    }
  }

  lemma CoveredBy(y: seq<Region>, i: nat, p: nat)
    requires i < |y| && y[i].Has(p)
    ensures Covers(y, p)
  {
  }

  lemma GapsAreFree(a: seq<Region>, b: seq<Region>, limit: nat)
    requires Shape(a) && Shape(b) && Within(a, limit)
    ensures Canon(Gaps(a, b, limit))
    ensures forall x: nat :: Covers(Gaps(a, b, limit), x) <==> Free(a, b, x)
  {
    hide Shape, Canon, Yields, Within, Covers;
    YieldsExact(a, b, limit, 0, 0);
    assert a[0..] == a;
  }

  /** The intervals the iterator yields are the maximal free intervals, each exactly once, in order. */
  lemma YieldsAreTheFreeIntervals(a: seq<Region>, b: seq<Region>, limit: nat)
    requires Shape(a) && Shape(b) && Within(a, limit)
    ensures Canon(Gaps(a, b, limit))
    ensures forall x: nat :: Covers(Gaps(a, b, limit), x) <==> Free(a, b, x)
    ensures forall z :: Canon(z) && (forall x: nat :: Covers(z, x) <==> Free(a, b, x)) ==> z == Gaps(a, b, limit)
  {
    var y := Gaps(a, b, limit);
    GapsAreFree(a, b, limit);
    hide Shape, Canon, Gaps, Within, Covers;
    forall z | Canon(z) && (forall x: nat :: Covers(z, x) <==> Free(a, b, x)) ensures z == y {
      forall x: nat ensures Covers(z, x) <==> Covers(y, x) {
        assert Covers(z, x) <==> Free(a, b, x);
      }
      CanonUnique(z, y);
    }
  }

  // ---- the search loop, turn by turn ---------------------------------------

  /** The loop variables after a turn: the cursor and the clamped interval. */
  datatype Turning = Turning(ia: nat, ib: nat, start: nat, end: nat)

  /** One turn of memblock_find_in_range: call the iterator, clamp what the two variables hold. */
  function Turn(a: seq<Region>, b: seq<Region>, limit: nat, start: nat, end: nat, t: Turning): Turning {
    match Next(a, b, limit, t.ia, t.ib)
    case Stop => Turning(t.ia, t.ib, Clamp(t.start, start, end), Clamp(t.end, start, end))
    case Yield(s, e, ja, jb) => Turning(ja, jb, Clamp(s, start, end), Clamp(e, start, end))
  }

  function Turns(a: seq<Region>, b: seq<Region>, limit: nat, start: nat, end: nat, t: Turning, n: nat): Turning {
    if n == 0 then t else Turn(a, b, limit, start, end, Turns(a, b, limit, start, end, t, n - 1))
  }

  /** The test at the end of a turn. */
  predicate Accepted(t: Turning, size: nat, align: nat)
    requires 0 < align <= WORD
  {
    var cand := AlignUp(t.start, align);
    cand < t.end && t.end - cand >= size
  }

  /** No number of turns gets past the test. */
  ghost predicate Diverges(a: seq<Region>, b: seq<Region>, limit: nat, size: nat, align: nat, start: nat, end: nat, t: Turning)
    requires 0 < align <= WORD
  {
    forall n: nat :: n >= 1 ==> !Accepted(Turns(a, b, limit, start, end, t, n), size, align)
  }

  /** The first turn that passes the test is turn n, and its candidate is c. */
  ghost predicate ReturnsAt(a: seq<Region>, b: seq<Region>, limit: nat, size: nat, align: nat, start: nat, end: nat, t: Turning,
                            n: nat, c: nat)
    requires 0 < align <= WORD
  {
    && n >= 1 && NoneAccepted(a, b, limit, size, align, start, end, t, n)
    && Accepted(Turns(a, b, limit, start, end, t, n), size, align)
    && c == AlignUp(Turns(a, b, limit, start, end, t, n).start, align)
  }

  ghost predicate NoneAccepted(a: seq<Region>, b: seq<Region>, limit: nat, size: nat, align: nat, start: nat, end: nat,
                               t: Turning, n: nat)
    requires 0 < align <= WORD
  {
    forall j: nat :: 1 <= j < n ==> !Accepted(Turns(a, b, limit, start, end, t, j), size, align)
  }

  /** Once the iterator has nothing more, a turn changes nothing at all. */
  lemma ExhaustedTurn(a: seq<Region>, b: seq<Region>, limit: nat, start: nat, end: nat, t: Turning)
    requires Next(a, b, limit, t.ia, t.ib) == Stop
    ensures var u := Turn(a, b, limit, start, end, t);
            u.ia == t.ia && u.ib == t.ib && Turn(a, b, limit, start, end, u) == u
  {
  }

  lemma {:induction false} TurnsStay(a: seq<Region>, b: seq<Region>, limit: nat, start: nat, end: nat, t: Turning, i: nat, n: nat)
    requires i <= n
    requires var u := Turns(a, b, limit, start, end, t, i); Turn(a, b, limit, start, end, u) == u
    ensures Turns(a, b, limit, start, end, t, n) == Turns(a, b, limit, start, end, t, i)
    decreases n
  {
    if i < n { TurnsStay(a, b, limit, start, end, t, i, n - 1); }
  }

  /** A search that has turned down every interval turns the last one down for ever. */
  lemma Spinning(a: seq<Region>, b: seq<Region>, limit: nat, size: nat, align: nat, start: nat, end: nat, t: Turning, i: nat)
    requires 0 < align <= WORD && i >= 1 && NoneAccepted(a, b, limit, size, align, start, end, t, i + 1)
    requires var u := Turns(a, b, limit, start, end, t, i); Next(a, b, limit, u.ia, u.ib) == Stop
    requires var u := Turns(a, b, limit, start, end, t, i); u.start == Clamp(u.start, start, end) && u.end == Clamp(u.end, start, end)
    ensures Diverges(a, b, limit, size, align, start, end, t)
  {
    hide Accepted, Next, Clamp;
    forall n: nat | n >= 1 ensures !Accepted(Turns(a, b, limit, start, end, t, n), size, align) {
      if n > i { TurnsStay(a, b, limit, start, end, t, i, n); }
    }
  }

  /** When no interval is yielded at all, every turn looks at what the two variables held before the loop. */
  lemma {:induction false} NothingYielded(a: seq<Region>, b: seq<Region>, limit: nat, start: nat, end: nat, s: nat, e: nat, n: nat)
    requires Next(a, b, limit, 0, 0) == Stop && n >= 1
    ensures Turns(a, b, limit, start, end, Turning(0, 0, s, e), n) == Turning(0, 0, Clamp(s, start, end), Clamp(e, start, end))
  {
    var t := Turning(0, 0, s, e);
    assert Turns(a, b, limit, start, end, t, 1) == Turn(a, b, limit, start, end, Turns(a, b, limit, start, end, t, 0));
    ExhaustedTurn(a, b, limit, start, end, t);
    TurnsStay(a, b, limit, start, end, t, 1, n);
  }

  // ---- the search ----------------------------------------------------------

  /** How a call ends: with an address; in a loop that repeats one turn for ever; by reading two
      variables nobody set; or in memblock_double_array. */
  datatype Search = Found(addr: nat) | Endless | Unset | Full

  /** The body of the search loop: the lowest aligned address in one clamped free interval. */
  method TryGap(s: nat, e: nat, size: nat, align: nat, start: nat, end: nat, ghost k: nat)
    returns (thisStart: nat, thisEnd: nat, fits: bool, cand: nat)
    requires s < e && k <= 64 && align == Pow2(k) && end + align <= WORD
    ensures thisStart == Clamp(s, start, end) && thisEnd == Clamp(e, start, end)
    ensures forall ia, ib :: fits == Accepted(Turning(ia, ib, thisStart, thisEnd), size, align)
    ensures cand == AlignUp(thisStart, align)
    ensures fits <==> FitsIn(Region(s, e - s), size, k, start, end, cand)
    ensures Best(Region(s, e - s), size, k, start, end, cand)
  {
    Candidate(Region(s, e - s), size, k, start, end);
    thisStart := Clamp(s, start, end);
    thisEnd := Clamp(e, start, end);
    cand := AlignUp(thisStart, align);
    fits := cand < thisEnd && thisEnd - cand >= size;
  }

  /** The search loop of memblock_find_in_range.  start0 and end0 are what its two variables hold at first.
      A turn that leaves the cursor where it was would be repeated for ever: the model stops there. */
  method SearchGaps(memory: MemblockType, reserved: MemblockType, limit: nat, size: nat, align: nat,
                    start: nat, end: nat, start0: nat, end0: nat, ghost k: nat)
    returns (r: Search)
    requires memory.Valid() && reserved.Valid() && Within(memory.View(), limit) && memory.cnt + 1 < U32
    requires k <= 64 && align == Pow2(k) && end + align <= WORD
    ensures var A, B, t := memory.View(), reserved.View(), Turning(0, 0, start0, end0);
            var y := Gaps(A, B, limit);
            match r
            case Found(c) =>
              && (exists n: nat :: ReturnsAt(A, B, limit, size, align, start, end, t, n, c))
              && FitsSome(y, size, k, start, end, c) && forall x: nat :: FitsSome(y, size, k, start, end, x) ==> c <= x
            case Endless =>
              && Diverges(A, B, limit, size, align, start, end, t)
              && y != [] && forall x: nat :: !FitsSome(y, size, k, start, end, x)
            case Unset => y == []
            case Full => false
  {
    hide Yields, Next, Turn, Accepted, Pack, FitsIn, FitsSome, NoneBefore, Canon, Shape, AlignUp, Clamp, Within, Best, Covers,
         Total, Pow2, Dummy, NoneAccepted, ReturnsAt, Diverges;
    ghost var A, B, t0 := memory.View(), reserved.View(), Turning(0, 0, start0, end0);
    ghost var y := Gaps(A, B, limit);
    ghost var n: nat, t := 0, t0;
    GapsAreFree(A, B, limit);
    PackZero();
    NoneYet(y, size, k, start, end);
    NoTurnYet(A, B, limit, size, align, start, end, t0);
    var idx, thisStart, thisEnd := 0, start0, end0;
    while true
      invariant t.ia <= memory.cnt && t.ib <= reserved.cnt && idx == Pack(t.ia, t.ib)
      invariant n <= |y| && y[n..] == Yields(A, B, limit, t.ia, t.ib)
      invariant t == Turns(A, B, limit, start, end, t0, n) && t.start == thisStart && t.end == thisEnd
      invariant n == 0 <==> idx == 0
      invariant n >= 1 ==> thisStart == Clamp(thisStart, start, end) && thisEnd == Clamp(thisEnd, start, end)
      invariant NoneBefore(y, n, size, k, start, end)
      invariant NoneAccepted(A, B, limit, size, align, start, end, t0, n + 1)
      decreases |y| - n
    {
      YieldsNext(A, B, limit, t.ia, t.ib);
      var next, s, e := NextMemRange(idx, memory, reserved, limit, thisStart, thisEnd, t.ia, t.ib);
      SameCursor(A, B, limit, t.ia, t.ib, next);
      if next == idx {
        assert n == |y|;
        if idx == 0 { return Unset; }
        Spinning(A, B, limit, size, align, start, end, t0, n);
        NoneAtAll(y, size, k, start, end);
        return Endless;
      }
      ghost var pull := Next(A, B, limit, t.ia, t.ib);
      assert y[n] == y[n..][0] == Region(s, e - s) && y[n + 1..] == y[n..][1..];
      var fits, cand;
      thisStart, thisEnd, fits, cand := TryGap(s, e, size, align, start, end, k);
      t := Turning(pull.ja, pull.jb, thisStart, thisEnd);
      TurnTaken(A, B, limit, size, align, start, end, t0, n, s, e, t);
      if fits {
        FirstIsLowest(y, n, size, k, start, end, cand);
        assert ReturnsAt(A, B, limit, size, align, start, end, t0, n + 1, cand);
        return Found(cand);
      }
      NoneHere(y, n, size, k, start, end, cand);
      ClampTwice(s, start, end);
      ClampTwice(e, start, end);
      idx, n := next, n + 1;
    }
  }

  lemma NoTurnYet(a: seq<Region>, b: seq<Region>, limit: nat, size: nat, align: nat, start: nat, end: nat, t: Turning)
    requires 0 < align <= WORD
    ensures NoneAccepted(a, b, limit, size, align, start, end, t, 1)
    ensures Turns(a, b, limit, start, end, t, 0) == t
  {
  }

  lemma ClampTwice(v: nat, lo: nat, hi: nat)
    ensures Clamp(Clamp(v, lo, hi), lo, hi) == Clamp(v, lo, hi)
  {
  }

  /** The cursor stands still exactly when nothing is left. */
  lemma SameCursor(a: seq<Region>, b: seq<Region>, limit: nat, ia: nat, ib: nat, next: nat)
    requires ia < U32
    requires match Next(a, b, limit, ia, ib)
             case Stop => next == Pack(ia, ib)
             case Yield(s, e, ja, jb) => ja < U32 && ja + jb > ia + ib && next == Pack(ja, jb)
    ensures next == Pack(ia, ib) <==> Next(a, b, limit, ia, ib) == Stop
    ensures Pack(ia, ib) == 0 ==> ia == 0 && ib == 0
    ensures next == Pack(ia, ib) || next != 0
  {
    hide Next, Pack;
    PackIs(ia, ib);
    match Next(a, b, limit, ia, ib)
    case Stop =>
    case Yield(s, e, ja, jb) => PackIs(ja, jb);
  }

  lemma TurnTaken(a: seq<Region>, b: seq<Region>, limit: nat, size: nat, align: nat, start: nat, end: nat, t0: Turning,
                  n: nat, s: nat, e: nat, u: Turning)
    requires 0 < align <= WORD && NoneAccepted(a, b, limit, size, align, start, end, t0, n + 1)
    requires var t := Turns(a, b, limit, start, end, t0, n);
             Next(a, b, limit, t.ia, t.ib) == Yield(s, e, u.ia, u.ib)
             && u.start == Clamp(s, start, end) && u.end == Clamp(e, start, end)
    ensures Turns(a, b, limit, start, end, t0, n + 1) == u
    ensures Accepted(u, size, align) ==>
              ReturnsAt(a, b, limit, size, align, start, end, t0, n + 1, AlignUp(u.start, align))
    ensures !Accepted(u, size, align) ==> NoneAccepted(a, b, limit, size, align, start, end, t0, n + 2)
  {
    hide Accepted, Next, Clamp, AlignUp;
  }

  // ---- the two ways not to find anything -----------------------------------

  /** Memory [0x1000, 0x3000) with eight bytes reserved in the middle has no room for 0x1800 bytes:
      the search repeats its last turn for ever. */
  lemma FragmentedMemory()
    ensures var a, b := [Region(0x1000, 0x2000)], [Region(0x2000, 8)];
            && Shape(a) && Shape(b) && Within(a, 0x3000)
            && !NothingFree(a, b) && NothingFits(a, b, 0x1800, 3, 0, 0x3000)
  {
    var a, b := [Region(0x1000, 0x2000)], [Region(0x2000, 8)];
    SingleCovers(a[0]);
    SingleCovers(b[0]);
    assert Free(a, b, 0x1000) && !Free(a, b, 0x2000);
    forall x: nat ensures !Fits(a, b, 0x1800, 3, 0, 0x3000, x) {
      assert Free(a, b, x) ==> x >= 0x1000;
      assert Free(a, b, x + 0x17ff) ==> x + 0x17ff < 0x3000;
    }
  }

  /** Memory that is reserved altogether yields no interval: the search looks at two variables nobody set. */
  lemma ReservedAltogether()
    ensures var a, b := [Region(0x1000, 0x2000)], [Region(0x1000, 0x2000)];
            Shape(a) && Shape(b) && Within(a, 0x3000) && NothingFree(a, b) && Next(a, b, 0x3000, 0, 0) == Stop
  {
    var a, b := [Region(0x1000, 0x2000)], [Region(0x1000, 0x2000)];
    NextStep(a, b, 0x3000, 0, 0);
    NextStep(a, b, 0x3000, 0, 1);
    NextStop(a, b, 0x3000, 1);
  }

  // ---- the allocator -------------------------------------------------------

  class BootMemory {
    const memory: MemblockType
    const reserved: MemblockType
    var phys_addr_max: nat
    ghost var blocks: seq<Region>

    /** What every caller relies on: memory ends at phys_addr_max, every address fits a word,
        and all blocks handed out so far are reserved and apart from one another. */
    ghost predicate Valid()
      reads this, memory, memory.regions, reserved, reserved.regions
    {
      && memory != reserved && memory.regions != reserved.regions
      && memory.Valid() && reserved.Valid()
      && memory.regions.Length + 1 < U32 && Within(memory.View(), phys_addr_max)
      && phys_addr_max + 4096 <= WORD
      && HandedOut(blocks, reserved.View())
    }

    /** memblock_init, up to the reservations: all of memory, nothing reserved. */
    constructor (base: nat, size: nat, max: nat)
      requires 1 <= max && max + 1 < U32 && base + size + 4096 <= WORD
      ensures Valid() && fresh(memory) && fresh(reserved) && fresh(memory.regions) && fresh(reserved.regions)
      ensures phys_addr_max == base + size && blocks == []
      ensures forall x: nat :: Covers(memory.View(), x) <==> base <= x < base + size
      ensures forall x: nat :: !Covers(reserved.View(), x)
    {
      var m := new MemblockType(max);
      var r := new MemblockType(max);
      phys_addr_max := base + size;
      blocks := [];
      assert Dummy(m.View()) && Dummy(r.View());
      assert m.View() == [Region(0, 0)];
      SingleCovers(Region(0, 0));
      assert r.View() == [Region(0, 0)];
      var done := m.AddRange(base, size);
      assert done == Done;
      CoveredWithin(m.View(), base, base + size);
      memory := m;
      reserved := r;
    }

    /** memblock_find_in_range */
    method FindInRange(size: nat, align: nat, start: nat, end: nat, ghost k: nat) returns (r: Search)
      requires Valid() && k <= 64 && align == Pow2(k) && end + align <= WORD
      ensures Searched(memory.View(), reserved.View(), size, k, start, end, r)
    {
      hide FitsSome, Fits, FitsIn, HandedOut, Gaps, Shape, Within, Total, Diverges, ReturnsAt, Searched;
      ghost var A, B := memory.View(), reserved.View();
      var limit := phys_addr_max;
      var start0: nat, end0: nat := *, *;
      r := SearchGaps(memory, reserved, limit, size, align, start, end, start0, end0, k);
      assert memory.View() == A && reserved.View() == B;
      SearchedAll(A, B, limit, size, k, start, end, r);
    }

    /** memblock_reserve: sizes are rounded up to a multiple of eight. */
    method Reserve(base: nat, size: nat) returns (r: AddResult)
      requires Valid() && size + 8 <= WORD
      modifies reserved, reserved.regions
      ensures Valid() && blocks == old(blocks) && memory.View() == old(memory.View())
      ensures r == Spins <==> old(reserved.TooFull(base, AlignUp(size, 8)))
      ensures r == Done ==> Extended(old(reserved.View()), reserved.View(), base, AlignUp(size, 8))
      ensures size <= AlignUp(size, 8) < size + 8
      ensures r == Spins ==> reserved.View() == old(reserved.View())
    {
      hide AlignUp, HandedOut, Extended, Covers, Pieces, Total, Shape, Within, MemblockType.TooFull;
      AlignEight(size);
      r := reserved.AddRange(base, AlignUp(size, 8));
      if r == Done { StillHandedOut(blocks, old(reserved.View()), reserved.View(), base, AlignUp(size, 8)); }
    }

    /** memblock_phys_alloc_range */
    method PhysAllocRange(size: nat, align: nat, start: nat, end0: nat, ghost k: nat) returns (r: Search)
      requires Valid() && k <= 12 && align == Pow2(k) && end0 <= phys_addr_max && size + 8 <= WORD
      modifies this`blocks, reserved, reserved.regions
      ensures Valid() && memory.View() == old(memory.View())
      // the search ends as it does, unless the lowest place found cannot be recorded
      ensures var end := if end0 == 0 then phys_addr_max else end0;
              r != Full ==> Searched(old(memory.View()), old(reserved.View()), size, k, start, end, r)
      ensures var end := if end0 == 0 then phys_addr_max else end0;
              r == Full <==> exists x: nat :: x != 0 && Lowest(old(memory.View()), old(reserved.View()), size, k, start, end, x)
                                             && old(reserved.TooFull(x, AlignUp(size, 8)))
      // address 0 reads as failure: the block is taken exactly when the address is not 0
      ensures if r.Found? && r.addr != 0 then
                && blocks == old(blocks) + [Region(r.addr, size)]
                && Extended(old(reserved.View()), reserved.View(), r.addr, AlignUp(size, 8))
              else blocks == old(blocks) && reserved.View() == old(reserved.View())
    {
      hide AlignUp, Fits, Lowest, Searched, Extended, HandedOut, Covers, Shape, Within, Total, MemblockType.TooFull;
      ghost var A, B := memory.View(), reserved.View();
      SmallAlign(k);
      var end := if end0 == 0 then phys_addr_max else end0;
      r := FindInRange(size, align, start, end, k);
      assert memory.View() == A && reserved.View() == B;
      SearchedFacts(A, B, size, k, start, end, r);
      if r.Found? && r.addr != 0 {
        LowestIsFree(A, B, size, k, start, end, r.addr);
        var done := TakeBlock(r.addr, size);
        if !done { return Full; }
      }
    }

    method TakeBlock(base: nat, size: nat) returns (ok: bool)
      requires Valid() && size + 8 <= WORD
      requires forall x :: Region(base, size).Has(x) ==> !Covers(reserved.View(), x)
      modifies this`blocks, reserved, reserved.regions
      ensures Valid() && memory.View() == old(memory.View())
      ensures ok <==> !old(reserved.TooFull(base, AlignUp(size, 8)))
      ensures ok ==>
                && blocks == old(blocks) + [Region(base, size)]
                && Extended(old(reserved.View()), reserved.View(), base, AlignUp(size, 8))
      ensures !ok ==> blocks == old(blocks) && reserved.View() == old(reserved.View())
    {
      hide AlignUp, HandedOut, Extended, Covers, Shape, Within, Total, Pieces;
      var done := Reserve(base, size);
      ok := done == Done;
      if ok {
        ExtendedHolds(old(reserved.View()), reserved.View(), base, AlignUp(size, 8), size);
        HandOut(blocks, old(reserved.View()), reserved.View(), Region(base, size));
        blocks := blocks + [Region(base, size)];
      }
    }
  }

  /** Nothing is free at all. */
  ghost predicate NothingFree(a: seq<Region>, b: seq<Region>) {
    forall x: nat :: !Free(a, b, x)
  }

  /** How a search ends, and exactly when. */
  ghost predicate Searched(a: seq<Region>, b: seq<Region>, size: nat, k: nat, start: nat, end: nat, r: Search) {
    && (forall c: nat :: r == Found(c) <==> Lowest(a, b, size, k, start, end, c))
    && (r == Endless <==> !NothingFree(a, b) && NothingFits(a, b, size, k, start, end))
    && (r == Unset <==> NothingFree(a, b))
  }

  lemma SearchedAll(a: seq<Region>, b: seq<Region>, limit: nat, size: nat, k: nat, start: nat, end: nat, r: Search)
    requires Shape(a) && Shape(b) && Within(a, limit)
    requires var y := Gaps(a, b, limit);
             match r
             case Found(c) =>
               FitsSome(y, size, k, start, end, c) && forall x: nat :: FitsSome(y, size, k, start, end, x) ==> c <= x
             case Endless => y != [] && forall x: nat :: !FitsSome(y, size, k, start, end, x)
             case Unset => y == []
             case Full => false
    ensures Searched(a, b, size, k, start, end, r)
  {
    FitsAll(a, b, limit, size, k, start, end);
    GapsEmpty(a, b, limit);
    hide FitsSome, Fits, Gaps, Shape, Within, Searched, NothingFree, Covers;
    if r.Found? {
      FoundSearched(a, b, size, k, start, end, r.addr);
    } else {
      NoneSearched(a, b, size, k, start, end);
    }
  }

  lemma FoundSearched(a: seq<Region>, b: seq<Region>, size: nat, k: nat, start: nat, end: nat, c: nat)
    requires Lowest(a, b, size, k, start, end, c)
    ensures Searched(a, b, size, k, start, end, Found(c))
  {
    hide Fits, NothingFree;
    if NothingFree(a, b) { NothingFreeFits(a, b, size, k, start, end); }
  }

  lemma NoneSearched(a: seq<Region>, b: seq<Region>, size: nat, k: nat, start: nat, end: nat)
    requires NothingFits(a, b, size, k, start, end)
    ensures Searched(a, b, size, k, start, end, if NothingFree(a, b) then Unset else Endless)
  {
    hide Fits, NothingFree;
  }

  lemma GapsEmpty(a: seq<Region>, b: seq<Region>, limit: nat)
    requires Shape(a) && Shape(b) && Within(a, limit)
    ensures Gaps(a, b, limit) == [] <==> NothingFree(a, b)
  {
    GapsAreFree(a, b, limit);
    var y := Gaps(a, b, limit);
    hide Gaps, Free;
    if y != [] { FirstCovered(y); }
  }

  lemma NothingFreeFits(a: seq<Region>, b: seq<Region>, size: nat, k: nat, start: nat, end: nat)
    requires NothingFree(a, b)
    ensures NothingFits(a, b, size, k, start, end)
  {
    hide Free;
    forall x: nat ensures !Fits(a, b, size, k, start, end, x) {
      assert !Free(a, b, x);
    }
  }

  /** An address that fits lowest rules out the other ends, and there is only one. */
  lemma SearchedFacts(a: seq<Region>, b: seq<Region>, size: nat, k: nat, start: nat, end: nat, r: Search)
    requires Searched(a, b, size, k, start, end, r)
    ensures r != Full
    ensures forall x: nat :: Lowest(a, b, size, k, start, end, x) <==> r == Found(x)
  {
    hide Fits, Free;
    if r == Full {
      assert !NothingFits(a, b, size, k, start, end);
      var x: nat :| Fits(a, b, size, k, start, end, x);
      LeastOne(a, b, size, k, start, end, x);
    }
  }

  lemma LeastOne(a: seq<Region>, b: seq<Region>, size: nat, k: nat, start: nat, end: nat, x: nat)
    requires Fits(a, b, size, k, start, end, x)
    ensures exists c: nat :: Lowest(a, b, size, k, start, end, c)
  {
    hide Fits;
    if !Lowest(a, b, size, k, start, end, x) {
      var y: nat :| Fits(a, b, size, k, start, end, y) && y < x;
      LeastOne(a, b, size, k, start, end, y);
    }
  }

  lemma StillHandedOut(blocks: seq<Region>, b: seq<Region>, b1: seq<Region>, base: nat, size: nat)
    requires HandedOut(blocks, b) && Extended(b, b1, base, size)
    ensures HandedOut(blocks, b1)
  {
  }

  lemma ExtendedHolds(b: seq<Region>, b1: seq<Region>, base: nat, size: nat, less: nat)
    requires Extended(b, b1, base, size) && less <= size
    ensures forall x :: Covers(b, x) || Region(base, less).Has(x) ==> Covers(b1, x)
  {
  }

  lemma LowestIsFree(a: seq<Region>, b: seq<Region>, size: nat, k: nat, start: nat, end: nat, r: nat)
    requires Lowest(a, b, size, k, start, end, r)
    ensures forall x :: Region(r, size).Has(x) ==> !Covers(b, x)
  {
    forall x | Region(r, size).Has(x) ensures !Covers(b, x) {
      FitsFree(a, b, size, k, start, end, r, x);
    }
  }

  lemma FitsFree(a: seq<Region>, b: seq<Region>, size: nat, k: nat, start: nat, end: nat, r: nat, x: int)
    requires Fits(a, b, size, k, start, end, r) && r <= x < r + size
    ensures !Covers(b, x)
  {
    assert Free(a, b, x);
  }

  lemma AlignEight(size: nat)
    requires size + 8 <= WORD
    ensures size <= AlignUp(size, 8) < size + 8
  {
    assert Pow2(3) == 8;
    AlignUpLeast(size, 3);
  }

  lemma SmallAlign(k: nat)
    requires k <= 12
    ensures Pow2(k) <= 4096
  {
    Pow2Mono(k, 12);
    assert Pow2(4) == 16;
    Pow2Add(4, 4);
    Pow2Add(8, 4);
  }

  lemma PackZero()
    ensures Pack(0, 0) == 0
  {
    SmallMod(0, U32);
  }

  lemma CoveredWithin(s: seq<Region>, base: nat, end: nat)
    requires Shape(s) && base <= end && forall x: nat :: Covers(s, x) ==> base <= x < end
    ensures Within(s, end)
  {
    forall i | 0 <= i < |s| ensures s[i].End() <= end {
      if s[i].size > 0 {
        assert s[i].Has(s[i].End() - 1);
        assert Covers(s, s[i].End() - 1);
      }
    }
  }

  lemma FitsAll(a: seq<Region>, b: seq<Region>, limit: nat, size: nat, k: nat, start: nat, end: nat)
    requires Shape(a) && Shape(b) && Within(a, limit)
    ensures forall x: nat :: Fits(a, b, size, k, start, end, x) <==>
              FitsSome(Gaps(a, b, limit), size, k, start, end, x)
  {
    forall x: nat
      ensures Fits(a, b, size, k, start, end, x) <==> FitsSome(Gaps(a, b, limit), size, k, start, end, x)
    {
      FitsIffYield(a, b, limit, size, k, start, end, x);
    }
  }

  /** The candidate of the first interval that has one is the lowest address of all. */
  lemma FirstIsLowest(y: seq<Region>, n: nat, size: nat, k: nat, start: nat, end: nat, c: nat)
    requires Canon(y) && n < |y| && FitsIn(y[n], size, k, start, end, c)
    requires NoneBefore(y, n, size, k, start, end)
    requires Best(y[n], size, k, start, end, c)
    ensures FitsSome(y, size, k, start, end, c)
    ensures forall x: nat :: FitsSome(y, size, k, start, end, x) ==> c <= x
  {
  }

  ghost predicate NoneBefore(y: seq<Region>, n: nat, size: nat, k: nat, start: nat, end: nat) {
    forall i, x: nat :: 0 <= i < n && i < |y| ==> !FitsIn(y[i], size, k, start, end, x)
  }

  lemma NoneYet(y: seq<Region>, size: nat, k: nat, start: nat, end: nat)
    ensures NoneBefore(y, 0, size, k, start, end)
  {
  }

  lemma NoneAtAll(y: seq<Region>, size: nat, k: nat, start: nat, end: nat)
    requires NoneBefore(y, |y|, size, k, start, end)
    ensures forall x: nat :: !FitsSome(y, size, k, start, end, x)
  {
  }

  lemma NoneHere(y: seq<Region>, n: nat, size: nat, k: nat, start: nat, end: nat, c: nat)
    requires n < |y| && NoneBefore(y, n, size, k, start, end) && !FitsIn(y[n], size, k, start, end, c)
    requires Best(y[n], size, k, start, end, c)
    ensures NoneBefore(y, n + 1, size, k, start, end)
  {
  }

  /** The blocks handed out: all reserved, no two share an address. */
  ghost predicate HandedOut(blocks: seq<Region>, reserved: seq<Region>) {
    && (forall i, x :: 0 <= i < |blocks| && blocks[i].Has(x) ==> Covers(reserved, x))
    && (forall i, j, x :: 0 <= i < j < |blocks| && blocks[i].Has(x) ==> !blocks[j].Has(x))
  }

  lemma HandOut(blocks: seq<Region>, r0: seq<Region>, r1: seq<Region>, b: Region)
    requires HandedOut(blocks, r0)
    requires forall x :: b.Has(x) ==> !Covers(r0, x)
    requires forall x :: Covers(r0, x) || b.Has(x) ==> Covers(r1, x)
    ensures HandedOut(blocks + [b], r1)
  {
  }
}
