// The boot-time allocator: sorted arrays of address intervals.
module Memblock {

  datatype Region = Region(base: nat, size: nat) {
    function End(): nat { base + size }

    ghost predicate Has(x: int) {
      base <= x < base + size
    }
  }

  // ---- sets of addresses as region sequences -------------------------------

  ghost predicate Covers(s: seq<Region>, x: int) {
    exists i :: 0 <= i < |s| && s[i].Has(x)
  }

  /** t covers what s covers, and [base, base + size). */
  ghost predicate Extended(s: seq<Region>, t: seq<Region>, base: nat, size: nat) {
    forall x :: Covers(t, x) <==> Covers(s, x) || base <= x < base + size
  }

  /** Ascending, disjoint and non-empty; neighbours may touch. */
  ghost predicate Sorted(s: seq<Region>) {
    && (forall i :: 0 <= i < |s| ==> s[i].size > 0)
    && (forall i, j :: 0 <= i < j < |s| ==> s[i].End() <= s[j].base)
  }

  /** Sorted, and no two regions touch. */
  ghost predicate Canon(s: seq<Region>) {
    && (forall i :: 0 <= i < |s| ==> s[i].size > 0)
    && (forall i, j :: 0 <= i < j < |s| ==> s[i].End() < s[j].base)
  }

  ghost predicate Dummy(s: seq<Region>) {
    |s| == 1 && s[0] == Region(0, 0)
  }

  /** What a region array holds between calls: one empty dummy entry, or a canonical list. */
  ghost predicate Shape(s: seq<Region>) {
    Dummy(s) || (s != [] && Canon(s))
  }

  function Total(s: seq<Region>): nat {
    if s == [] then 0 else s[0].size + Total(s[1..])
  }

  lemma CoversCons(r: Region, s: seq<Region>, x: nat)
    ensures Covers([r] + s, x) <==> r.Has(x) || Covers(s, x)
  {
    var t := [r] + s;
    if Covers(t, x) {
      var i :| 0 <= i < |t| && t[i].Has(x);
      assert i > 0 ==> s[i - 1].Has(x);
    }
    if r.Has(x) { assert t[0].Has(x); }
    if Covers(s, x) {
      var i :| 0 <= i < |s| && s[i].Has(x);
      assert t[i + 1].Has(x);
    }
  }

  lemma CoversHead(s: seq<Region>, x: nat)
    requires s != []
    ensures Covers(s, x) <==> s[0].Has(x) || Covers(s[1..], x)
  {
    assert s == [s[0]] + s[1..];
    CoversCons(s[0], s[1..], x);
  }

  ghost function CoverSet(s: seq<Region>): set<nat> {
    set i: nat, x: nat | i < |s| && x < s[i].End() && s[i].Has(x) :: x
  }

  lemma IntervalSize(r: Region)
    ensures |CoverSet([r])| == r.size
    decreases r.size
  {
    if r.size == 0 {
      assert CoverSet([r]) == {};
    } else {
      var q := Region(r.base, r.size - 1);
      IntervalSize(q);
      assert [r][0].Has(r.base + r.size - 1);
      forall x | x in CoverSet([q]) ensures x in CoverSet([r]) { assert [r][0].Has(x); }
      forall x | x in CoverSet([r]) && x != r.base + r.size - 1 ensures x in CoverSet([q]) { assert [q][0].Has(x); }
      assert CoverSet([r]) == CoverSet([q]) + {r.base + r.size - 1};
    }
  }

  /** total_size is the number of addresses covered. */
  lemma {:induction false} TotalIsMeasure(s: seq<Region>)
    requires Sorted(s)
    ensures |CoverSet(s)| == Total(s)
  {
    if s == [] {
      assert CoverSet(s) == {};
    } else {
      TotalIsMeasure(s[1..]);
      IntervalSize(s[0]);
      var a, b := CoverSet([s[0]]), CoverSet(s[1..]);
      forall x: nat ensures x in CoverSet(s) <==> x in a || x in b {
        CoversHead(s, x);
        CoversHead([s[0]], x);
        InCoverSet(s, x);
        InCoverSet([s[0]], x);
        InCoverSet(s[1..], x);
      }
      assert CoverSet(s) == a + b;
      forall x: nat | x in b ensures x !in a {
        InCoverSet(s[1..], x);
        InCoverSet([s[0]], x);
        CoversHead([s[0]], x);
        TailAbove(s, x);
      }
      assert a !! b;
    }
  }

  lemma InCoverSet(s: seq<Region>, x: nat)
    ensures x in CoverSet(s) <==> Covers(s, x)
  {
  }

  lemma TailAbove(s: seq<Region>, x: nat)
    requires Sorted(s) && s != []
    ensures Covers(s[1..], x) ==> x >= s[0].End()
  {
  }

  /** A canonical list is determined by the set it covers. */
  lemma {:induction false} CanonUnique(s: seq<Region>, t: seq<Region>)
    requires Canon(s) && Canon(t)
    requires forall x: nat :: Covers(s, x) <==> Covers(t, x)
    ensures s == t
    decreases |s|
  {
    if s != [] { FirstCovered(s); }
    if t != [] { FirstCovered(t); }
    if s != [] && t != [] {
      FirstBase(s, t);
      FirstBase(t, s);
      FirstEnd(s, t);
      FirstEnd(t, s);
      forall x: nat ensures Covers(s[1..], x) <==> Covers(t[1..], x) {
        CoversHead(s, x);
        CoversHead(t, x);
        RestAbove(s, x);
        RestAbove(t, x);
      }
      CanonUnique(s[1..], t[1..]);
      assert s == [s[0]] + s[1..] && t == [t[0]] + t[1..];
    }
  }

  lemma FirstCovered(s: seq<Region>)
    requires Canon(s) && s != []
    ensures Covers(s, s[0].base)
  {
    assert s[0].Has(s[0].base);
  }

  lemma RestAbove(s: seq<Region>, x: nat)
    requires Canon(s) && s != []
    ensures Covers(s[1..], x) ==> x > s[0].End()
  {
  }

  lemma FirstBase(s: seq<Region>, t: seq<Region>)
    requires Canon(s) && Canon(t) && s != [] && t != []
    requires forall x: nat :: Covers(s, x) <==> Covers(t, x)
    ensures s[0].base >= t[0].base
  {
    FirstCovered(s);
  }

  lemma FirstEnd(s: seq<Region>, t: seq<Region>)
    requires Canon(s) && Canon(t) && s != [] && t != [] && s[0].base == t[0].base
    requires forall x: nat :: Covers(s, x) <==> Covers(t, x)
    ensures s[0].End() <= t[0].End()
  {
    var e := t[0].End();
    if s[0].End() > e {
      assert s[0].Has(e);
      assert Covers(s, e);
    }
  }

  // ---- memblock_add_range, the list it builds ------------------------------

  function Min(a: nat, b: nat): nat { if a <= b then a else b }

  function Max(a: nat, b: nat): nat { if a >= b then a else b }

  /** The regions after the gaps of s inside [base, end) have been filled. */
  function Fill(s: seq<Region>, base: nat, end: nat): seq<Region> {
    if s == [] || s[0].base >= end then
      if base < end then [Region(base, end - base)] + s else s
    else if s[0].End() <= base then
      [s[0]] + Fill(s[1..], base, end)
    else
      var rest := [s[0]] + Fill(s[1..], Min(s[0].End(), end), end);
      if s[0].base > base then [Region(base, s[0].base - base)] + rest else rest
  }

  /** How many regions the filling adds. */
  function Pieces(s: seq<Region>, base: nat, end: nat): (n: int) {
    |Fill(s, base, end)| - |s|
  }

  lemma {:induction false} PiecesBound(s: seq<Region>, base: nat, end: nat)
    ensures 0 <= Pieces(s, base, end) <= |s| + 1
  {
    if s != [] {
      PiecesBound(s[1..], base, end);
      PiecesBound(s[1..], Min(s[0].End(), end), end);
    }
  }

  /** When nothing is added the list is as it was. */
  lemma {:induction false} NoPieces(s: seq<Region>, base: nat, end: nat)
    requires Pieces(s, base, end) == 0
    ensures Fill(s, base, end) == s
  {
    if s != [] {
      PiecesBound(s[1..], base, end);
      PiecesBound(s[1..], Min(s[0].End(), end), end);
      if s[0].base < end {
        NoPieces(s[1..], if s[0].End() <= base then base else Min(s[0].End(), end), end);
      }
    }
  }

  lemma {:induction false} FillCovers(s: seq<Region>, base: nat, end: nat, x: nat)
    requires Sorted(s) && base <= end
    ensures Covers(Fill(s, base, end), x) <==> Covers(s, x) || base <= x < end
  {
    hide Covers;
    var gap := Region(base, end - base);
    if s == [] {
      CoversEmpty(x);
      CoversCons(gap, [], x);
    } else {
      var r, t := s[0], s[1..];
      CoversHead(s, x);
      if r.base >= end {
        CoversCons(gap, s, x);
      } else if r.End() <= base {
        FillCovers(t, base, end, x);
        CoversCons(r, Fill(t, base, end), x);
      } else {
        var m := Min(r.End(), end);
        var g := Region(base, if r.base > base then r.base - base else 0);
        var f := Fill(t, m, end);
        FillCovers(t, m, end, x);
        CoversCons(r, f, x);
        CoversCons(g, [r] + f, x);
      }
    }
  }

  lemma CoversEmpty(x: nat)
    ensures !Covers([], x)
  {
  }

  /** Filling keeps the list sorted: everything starts at or after a common lower bound. */
  lemma {:induction false} FillSorted(s: seq<Region>, base: nat, end: nat, low: nat)
    requires Sorted(s) && base <= end
    requires s != [] ==> low <= s[0].base
    requires base < end ==> low <= base
    ensures Sorted(Fill(s, base, end))
    ensures forall i :: 0 <= i < |Fill(s, base, end)| ==> low <= Fill(s, base, end)[i].base
  {
    hide Sorted;
    var gap := Region(base, end - base);
    if s == [] {
      SortedOne(gap);
      if base < end { SortedCons(gap, [], low); }
    } else {
      var r, t := s[0], s[1..];
      SortedTail(s);
      if r.base >= end {
        if base < end { SortedCons(gap, s, low); } else { SortedFrom(s, low); }
      } else if r.End() <= base {
        FillSorted(t, base, end, r.End());
        SortedCons(r, Fill(t, base, end), low);
      } else {
        var m := Min(r.End(), end);
        var f := Fill(t, m, end);
        FillSorted(t, m, end, r.End());
        SortedCons(r, f, r.base);
        SortedCons(r, f, low);
        if r.base > base {
          var g := Region(base, r.base - base);
          SortedCons(g, [r] + f, low);
        }
      }
    }
  }

  lemma SortedOne(r: Region)
    ensures Sorted([]) && (r.size > 0 ==> Sorted([r]))
  {
  }

  lemma SortedTail(s: seq<Region>)
    requires Sorted(s) && s != []
    ensures s[0].size > 0 && Sorted(s[1..])
    ensures forall i :: 0 <= i < |s| ==> s[0].base <= s[i].base
    ensures |s| > 1 ==> s[0].End() <= s[1..][0].base
  {
  }

  lemma SortedFrom(s: seq<Region>, low: nat)
    requires Sorted(s) && (s != [] ==> low <= s[0].base)
    ensures forall i :: 0 <= i < |s| ==> low <= s[i].base
  {
  }

  lemma SortedCons(r: Region, s: seq<Region>, low: nat)
    requires Sorted(s) && low <= r.base
    requires forall i :: 0 <= i < |s| ==> r.End() <= s[i].base
    ensures r.size > 0 ==> Sorted([r] + s)
    ensures Sorted([])
    ensures forall i :: 0 <= i < |[r] + s| ==> low <= ([r] + s)[i].base
  {
  }

  // ---- memblock_merge_regions, the list it builds --------------------------

  function Joined(r: Region, q: Region): Region {
    Region(r.base, r.size + q.size)
  }

  function Merge(s: seq<Region>): seq<Region>
    decreases |s|
  {
    if |s| <= 1 then s
    else if s[0].End() == s[1].base then Merge([Joined(s[0], s[1])] + s[2..])
    else [s[0]] + Merge(s[1..])
  }

  lemma {:induction false} MergeCanon(s: seq<Region>)
    requires Sorted(s)
    ensures Canon(Merge(s)) && Total(Merge(s)) == Total(s)
    ensures s != [] ==> Merge(s) != [] && Merge(s)[0].base == s[0].base
    decreases |s|
  {
    if |s| > 1 {
      if s[0].End() == s[1].base {
        var t := [Joined(s[0], s[1])] + s[2..];
        SortedJoin(s, t);
        MergeCanon(t);
        assert t[1..] == s[2..] == s[1..][1..];
      } else {
        MergeCanon(s[1..]);
        CanonCons(s[0], Merge(s[1..]));
        assert ([s[0]] + Merge(s[1..]))[1..] == Merge(s[1..]);
      }
    }
  }

  lemma SortedJoin(s: seq<Region>, t: seq<Region>)
    requires Sorted(s) && |s| > 1 && s[0].End() == s[1].base && t == [Joined(s[0], s[1])] + s[2..]
    ensures Sorted(t)
  {
  }

  lemma CanonCons(r: Region, m: seq<Region>)
    requires Canon(m) && r.size > 0 && (m != [] ==> r.End() < m[0].base)
    ensures Canon([r] + m)
  {
  }

  lemma {:induction false} MergeCovers(s: seq<Region>, x: nat)
    ensures Covers(Merge(s), x) <==> Covers(s, x)
    decreases |s|
  {
    if |s| > 1 {
      CoversHead(s, x);
      CoversHead(s[1..], x);
      if s[0].End() == s[1].base {
        var r := Joined(s[0], s[1]);
        MergeCovers([r] + s[2..], x);
        CoversCons(r, s[2..], x);
        assert s[1..][1..] == s[2..];
      } else {
        MergeCovers(s[1..], x);
        CoversCons(s[0], Merge(s[1..]), x);
      }
    }
  }

  /** The piece that fills the gap between base and region r, if there is one. */
  function GapBefore(r: Region, base: nat): (g: seq<Region>) {
    if r.End() > base && r.base > base then [Region(base, r.base - base)] else []
  }

  function NextBase(r: Region, base: nat, end: nat): nat {
    if r.End() > base then Min(r.End(), end) else base
  }

  /** What one turn of either pass does to the list still to be built. */
  lemma FillStep(pre: seq<Region>, s: seq<Region>, base: nat, end: nat)
    requires s != [] && s[0].base < end
    ensures var g, b := GapBefore(s[0], base), NextBase(s[0], base, end);
            && pre + Fill(s, base, end) == (pre + g + [s[0]]) + Fill(s[1..], b, end)
            && Pieces(s, base, end) == |g| + Pieces(s[1..], b, end)
            && Pieces(s[1..], b, end) >= 0
  {
    var g, b := GapBefore(s[0], base), NextBase(s[0], base, end);
    FillUnfold(s, base, end);
    hide Fill, Pieces;
    PiecesBound(s[1..], b, end);
    assert pre + (g + [s[0]] + Fill(s[1..], b, end)) == (pre + g + [s[0]]) + Fill(s[1..], b, end);
  }

  lemma FillUnfold(s: seq<Region>, base: nat, end: nat)
    requires s != [] && s[0].base < end
    ensures var g, b := GapBefore(s[0], base), NextBase(s[0], base, end);
            && Fill(s, base, end) == g + [s[0]] + Fill(s[1..], b, end)
            && Pieces(s, base, end) == |g| + Pieces(s[1..], b, end)
  {
  }

  lemma Shifted(v: seq<Region>, w: seq<Region>, i: nat, g: seq<Region>)
    requires i < |v| && w == v[..i] + g + v[i..]
    ensures i + |g| + 1 <= |w|
    ensures w[..i + |g| + 1] == v[..i] + g + [v[i]]
    ensures w[i + |g| + 1..] == v[i + 1..]
  {
  }

  lemma FillStop(s: seq<Region>, base: nat, end: nat)
    requires s == [] || s[0].base >= end
    ensures Fill(s, base, end) == if base < end then [Region(base, end - base)] + s else s
  {
  }

  /** The state of the inserting pass: the list w still reads as before from idx on,
      and what precedes idx is finished. */
  ghost predicate Filling(s: seq<Region>, w: seq<Region>, idx: nat, k: nat, base: nat, obase: nat, end: nat) {
    && k <= |s| && idx <= |w| && w[idx..] == s[k..]
    && w[..idx] + Fill(s[k..], base, end) == Fill(s, obase, end)
  }

  lemma FillingStart(s: seq<Region>, obase: nat, end: nat)
    ensures Filling(s, s, 0, 0, obase, obase, end)
  {
  }

  lemma FillingFacts(s: seq<Region>, w: seq<Region>, idx: nat, k: nat, base: nat, obase: nat, end: nat)
    requires Filling(s, w, idx, k, base, obase, end)
    ensures k <= |s| && idx <= |w| && |w| - idx == |s| - k
    ensures idx < |w| ==> k < |s| && w[idx] == s[k]
    ensures idx < |w| && w[idx].base < end ==> idx - k + |GapBefore(w[idx], base)| <= Pieces(s, obase, end)
    ensures idx == |w| || w[idx].base >= end ==>
              && Fill(s, obase, end) == (if base < end then w[..idx] + [Region(base, end - base)] + w[idx..] else w)
              && Pieces(s, obase, end) == idx - k + if base < end then 1 else 0
  {
    if idx < |w| && w[idx].base < end {
      assert w[idx] == w[idx..][0] == s[k..][0] == s[k];
      FillStep(w[..idx], s[k..], base, end);
    } else {
      if idx < |w| { assert w[idx] == w[idx..][0] == s[k..][0]; }
      FillStop(s[k..], base, end);
      assert w == w[..idx] + w[idx..];
    }
  }

  lemma FillingStep(s: seq<Region>, v: seq<Region>, w: seq<Region>, idx: nat, k: nat, base: nat, obase: nat, end: nat)
    requires Filling(s, v, idx, k, base, obase, end) && k < |s| && idx < |v| && v[idx] == s[k] && s[k].base < end
    requires w == v[..idx] + GapBefore(s[k], base) + v[idx..]
    ensures Filling(s, w, idx + |GapBefore(s[k], base)| + 1, k + 1, NextBase(s[k], base, end), obase, end)
  {
    TailOf(s, k);
    TailOf(v, idx);
    FillStep(v[..idx], s[k..], base, end);
    Shifted(v, w, idx, GapBefore(s[k], base));
    hide Fill, GapBefore, NextBase, Pieces;
    var i := idx + |GapBefore(s[k], base)| + 1;
    assert w[i..] == s[k + 1..];
  }

  lemma TailOf(s: seq<Region>, k: nat)
    requires k < |s|
    ensures s[k..] != [] && s[k..][0] == s[k] && s[k..][1..] == s[k + 1..]
  {
  }

  lemma MergeKeep(v: seq<Region>, i: nat)
    requires i + 1 < |v| && v[i].End() != v[i + 1].base
    ensures v[..i] + Merge(v[i..]) == v[..i + 1] + Merge(v[i + 1..])
  {
    assert v[i..][1..] == v[i + 1..];
    assert v[..i + 1] == v[..i] + [v[i]];
  }

  lemma MergeJoin(v: seq<Region>, w: seq<Region>, i: nat)
    requires i + 1 < |v| && v[i].End() == v[i + 1].base
    requires w == v[..i] + [Joined(v[i], v[i + 1])] + v[i + 2..]
    ensures v[..i] + Merge(v[i..]) == w[..i] + Merge(w[i..])
  {
    assert w[i..] == [Joined(v[i], v[i + 1])] + v[i..][2..];
    assert w[..i] == v[..i];
  }

  lemma MergeDone(v: seq<Region>, i: nat)
    requires i <= |v| <= i + 1
    ensures v[..i] + Merge(v[i..]) == v
  {
  }

  lemma TotalAppend(s: seq<Region>, t: seq<Region>)
    ensures Total(s + t) == Total(s) + Total(t)
  {
    if s == [] {
      assert s + t == t;
    } else {
      TotalAppend(s[1..], t);
      assert (s + t)[1..] == s[1..] + t;
    }
  }

  /** Spins stands for memblock_double_array, which never returns. */
  datatype AddResult = Done | Spins

  /** The pieces of [base, base + size) that are not there yet do not fit an array of max entries. */
  ghost predicate Overflows(s: seq<Region>, max: nat, base: nat, size: nat) {
    size > 0 && !Dummy(s) && 2 * |s| + 1 >= max && |s| + Pieces(s, base, base + size) > max
  }

  /** It happens: 32 separate regions fill the array, and one more does not fit. */
  lemma FullArray()
    ensures var s := seq(32, i requires 0 <= i < 32 => Region(16 * i + 16, 8));
            Canon(s) && Overflows(s, 32, 0, 8)
  {
    var s := seq(32, i requires 0 <= i < 32 => Region(16 * i + 16, 8));
    FillStop(s, 0, 8);
  }

  class MemblockType {
    const regions: array<Region>
    var cnt: nat
    var total_size: nat

    ghost predicate Valid()
      reads this, regions
    {
      && 1 <= cnt <= regions.Length
      && Shape(View())
      && total_size == Total(View())
    }

    /** Records lo .. hi - 1 of a block move from src to dest are done. */
    static ghost predicate Moved(now: seq<Region>, was: seq<Region>, dest: nat, src: nat, lo: nat, hi: nat) {
      && |now| == |was| && dest + hi <= |was| && src + hi <= |was|
      && (forall k: nat :: dest + lo <= k < dest + hi ==> now[k] == was[k - dest + src])
      && (forall k: nat :: k < |was| && !(dest + lo <= k < dest + hi) ==> now[k] == was[k])
    }

    static lemma MovedAll(now: seq<Region>, was: seq<Region>, dest: nat, src: nat, n: nat)
      requires Moved(now, was, dest, src, 0, n)
      ensures now[dest..dest + n] == was[src..src + n]
    {
    }

    ghost function View(): (s: seq<Region>)
      reads this, regions
      requires cnt <= regions.Length
    {
      regions[..cnt]
    }

    constructor (max: nat)
      requires max > 0
      ensures Valid() && fresh(regions) && Dummy(View()) && regions.Length == max
    {
      regions := new Region[max](_ => Region(0, 0));
      cnt := 1;
      total_size := 0;
      new;
    }

    /** memmove of n records inside the array: overlapping blocks are copied from the safe end. */
    method Memmove(dest: nat, src: nat, n: nat)
      requires dest + n <= regions.Length && src + n <= regions.Length
      modifies regions
      ensures regions[dest..dest + n] == old(regions[src..src + n])
      ensures forall i: nat :: i < regions.Length && !(dest <= i < dest + n) ==> regions[i] == old(regions[i])
    {
      ghost var was := regions[..];
      if src < dest {
        var i: int := n - 1;
        while i >= 0
          invariant -1 <= i < n && Moved(regions[..], was, dest, src, i + 1, n)
        {
          regions[dest + i] := regions[src + i];
          i := i - 1;
        }
      } else {
        for i := 0 to n
          invariant Moved(regions[..], was, dest, src, 0, i)
        {
          regions[dest + i] := regions[src + i];
        }
      }
      MovedAll(regions[..], was, dest, src, n);
    }

    /** memblock_insert_region */
    method InsertRegion(idx: nat, base: nat, size: nat)
      requires idx <= cnt < regions.Length
      modifies this, regions
      ensures cnt == old(cnt) + 1 && total_size == old(total_size) + size
      ensures View() == old(View()[..idx]) + [Region(base, size)] + old(View()[idx..])
    {
      ghost var v := View();
      Memmove(idx + 1, idx, cnt - idx);
      assert regions[idx + 1..cnt + 1] == v[idx..];
      regions[idx] := Region(base, size);
      cnt := cnt + 1;
      total_size := total_size + size;
      assert regions[..idx] == v[..idx];
      assert View() == regions[..idx] + [regions[idx]] + regions[idx + 1..cnt];
    }

    /** memblock_merge_regions */
    method MergeRegions()
      requires cnt <= regions.Length
      modifies this, regions
      ensures cnt <= regions.Length && View() == Merge(old(View())) && total_size == old(total_size)
    {
      hide Merge;
      var i: nat := 0;
      while i + 1 < cnt
        invariant cnt <= regions.Length && (i < cnt || i == cnt == 0)
        invariant View()[..i] + Merge(View()[i..]) == Merge(old(View()))
        invariant total_size == old(total_size)
        decreases cnt - i
      {
        ghost var v := View();
        if regions[i].base + regions[i].size != regions[i + 1].base {
          MergeKeep(v, i);
          i := i + 1;
        } else {
          JoinNext(i);
          MergeJoin(v, View(), i);
        }
      }
      MergeDone(View(), i);
    }

    /** Region i swallows the one after it, and the rest moves down. */
    method JoinNext(i: nat)
      requires i + 1 < cnt <= regions.Length
      modifies this, regions
      ensures cnt == old(cnt) - 1 && total_size == old(total_size)
      ensures View() == old(View()[..i]) + [Joined(old(regions[i]), old(regions[i + 1]))] + old(View()[i + 2..])
    {
      ghost var v := View();
      regions[i] := Joined(regions[i], regions[i + 1]);
      Memmove(i + 1, i + 2, cnt - (i + 2));
      cnt := cnt - 1;
      assert regions[i + 1..cnt] == v[i + 2..];
      assert regions[..i] == v[..i];
      assert View() == regions[..i] + [regions[i]] + regions[i + 1..cnt];
    }

    /** The counting pass of memblock_add_range. */
    method CountPieces(obase: nat, end: nat) returns (nrNew: nat)
      requires cnt <= regions.Length
      ensures nrNew == Pieces(View(), obase, end)
    {
      ghost var s := View();
      var base: nat := obase;
      var idx: nat := 0;
      nrNew := 0;
      while idx < cnt
        invariant idx <= cnt
        invariant Pieces(s, obase, end) == nrNew + Pieces(s[idx..], base, end)
      {
        assert s[idx..][0] == regions[idx] && s[idx..][1..] == s[idx + 1..];
        var rbase, rend := regions[idx].base, regions[idx].base + regions[idx].size;
        if rbase >= end { break; }
        if rend > base {
          if rbase > base { nrNew := nrNew + 1; }
          base := Min(rend, end);
        }
        idx := idx + 1;
      }
      if base < end { nrNew := nrNew + 1; }
    }

    /** What the inserting pass does at one region that starts below end. */
    method VisitRegion(idx: nat, base: nat, end: nat) returns (added: nat, next: nat)
      requires idx < cnt <= regions.Length && regions[idx].base < end
      requires cnt + |GapBefore(regions[idx], base)| <= regions.Length
      modifies this, regions
      ensures added == |GapBefore(old(regions[idx]), base)| && cnt == old(cnt) + added <= regions.Length
      ensures View() == old(View()[..idx]) + GapBefore(old(regions[idx]), base) + old(View()[idx..])
      ensures next == NextBase(old(regions[idx]), base, end)
      ensures total_size == old(total_size) + Total(View()) - Total(old(View()))
    {
      var rbase, rend := regions[idx].base, regions[idx].base + regions[idx].size;
      ghost var v := View();
      added, next := 0, base;
      if rend > base {
        if rbase > base {
          InsertRegion(idx, base, rbase - base);
          TotalInsert(v, idx, Region(base, rbase - base));
          added := 1;
        }
        next := Min(rend, end);
      }
      assert added == 0 ==> View() == v[..idx] + [] + v[idx..];
    }

    /** The inserting pass: the array grows under the loop. */
    method InsertPieces(obase: nat, end: nat) returns (nrNew: nat)
      requires cnt <= regions.Length && cnt + Pieces(View(), obase, end) <= regions.Length
      modifies this, regions
      ensures cnt <= regions.Length && View() == Fill(old(View()), obase, end)
      ensures nrNew == Pieces(old(View()), obase, end)
      ensures total_size == old(total_size) + Total(View()) - Total(old(View()))
    {
      hide Fill, Total, GapBefore, NextBase, Min, Filling, Pieces;
      ghost var s := View();
      ghost var k: nat := 0;
      var base: nat := obase;
      var idx: nat := 0;
      nrNew := 0;
      FillingStart(s, obase, end);
      while idx < cnt
        invariant idx == k + nrNew && cnt == |s| + nrNew
        invariant cnt + Pieces(s, obase, end) - nrNew <= regions.Length && cnt <= regions.Length
        invariant Filling(s, View(), idx, k, base, obase, end)
        invariant total_size == old(total_size) + Total(View()) - Total(s)
        decreases |s| - k
      {
        ghost var v := View();
        FillingFacts(s, v, idx, k, base, obase, end);
        if regions[idx].base >= end { break; }
        var added, next := VisitRegion(idx, base, end);
        FillingStep(s, v, View(), idx, k, base, obase, end);
        idx := idx + added + 1;
        nrNew := nrNew + added;
        base := next;
        k := k + 1;
      }
      ghost var v := View();
      FillingFacts(s, v, idx, k, base, obase, end);
      if base < end {
        nrNew := nrNew + 1;
        InsertRegion(idx, base, end - base);
        TotalInsert(v, idx, Region(base, end - base));
      }
    }

    ghost predicate TooFull(base: nat, size: nat)
      reads this, regions
      requires cnt <= regions.Length
    {
      Overflows(View(), regions.Length, base, size)
    }

    /** memblock_add_range: union with [base, base + size) in canonical form. */
    method AddRange(base: nat, size: nat) returns (r: AddResult)
      requires Valid()
      modifies this, regions
      ensures r == Spins <==> old(TooFull(base, size))
      ensures r == Spins ==> cnt == old(cnt) && View() == old(View()) && total_size == old(total_size)
      ensures Valid()
      ensures r == Done ==> Extended(old(View()), View(), base, size)
    {
      var end := base + size;
      if size == 0 { return Done; }
      ghost var s := View();
      if regions[0].size == 0 {
        assert Dummy(s) && s == [Region(0, 0)];
        regions[0] := Region(base, size);
        total_size := size;
        assert View() == [Region(base, size)];
        SingleCovers(Region(base, size));
        SingleCovers(Region(0, 0));
        return Done;
      }
      assert !Dummy(s) && Canon(s);
      PiecesBound(s, base, end);
      AddedCanon(s, base, end);
      if !(cnt * 2 + 1 < regions.Length) {
        var nrNew := CountPieces(base, end);
        if nrNew == 0 {
          NoPieces(s, base, end);
          return Done;
        }
        if cnt + nrNew > regions.Length { return Spins; }
      }
      var nrNew := InsertPieces(base, end);
      if nrNew == 0 {
        NoPieces(s, base, end);
        return Done;
      }
      MergeRegions();
      return Done;
    }
  }

  lemma SingleCovers(r: Region)
    ensures forall x :: Covers([r], x) <==> r.Has(x)
  {
    forall x: int ensures Covers([r], x) <==> r.Has(x) {
      if r.Has(x) { assert [r][0].Has(x); }
    }
  }

  /** Filling and merging a canonical list: the set union, again in canonical form. */
  lemma AddedCanon(s: seq<Region>, base: nat, end: nat)
    requires s != [] && Canon(s) && base <= end
    ensures var f := Fill(s, base, end);
            && Canon(Merge(f)) && Merge(f) != [] && Total(Merge(f)) == Total(f)
            && (forall x: nat :: Covers(Merge(f), x) <==> Covers(s, x) || base <= x < end)
            && (forall x: nat :: Covers(f, x) <==> Covers(s, x) || base <= x < end)
  {
    var f := Fill(s, base, end);
    assert Sorted(s);
    FillSorted(s, base, end, 0);
    FillNonEmpty(s, base, end);
    MergeCanon(f);
    forall x: nat
      ensures Covers(Merge(f), x) <==> Covers(s, x) || base <= x < end
      ensures Covers(f, x) <==> Covers(s, x) || base <= x < end
    {
      FillCovers(s, base, end, x);
      MergeCovers(f, x);
    }
  }

  lemma FillNonEmpty(s: seq<Region>, base: nat, end: nat)
    requires s != []
    ensures Fill(s, base, end) != []
  {
  }

  lemma TotalInsert(s: seq<Region>, i: nat, r: Region)
    requires i <= |s|
    ensures Total(s[..i] + [r] + s[i..]) == Total(s) + r.size
  {
    assert s == s[..i] + s[i..];
    TotalAppend(s[..i], s[i..]);
    TotalAppend(s[..i], [r] + s[i..]);
    assert s[..i] + [r] + s[i..] == s[..i] + ([r] + s[i..]);
  }
}
