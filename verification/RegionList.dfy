/** The region list as a value: what it means as flat memory, and what splitting, dropping,
    re-protecting and inserting regions does to that meaning. */
module RegionList {
  import opened Words
  import opened FlatMemory

  /** The state of one region object. Its size is the length of its byte buffer. */
  datatype RegionView = RegionView(
    base: u64, prot: Prot, name: string, backing: Backing, bytes: seq<u8>, initialized: seq<bool>)
  {
    function End(): int { base + |bytes| }

    /** Non-empty, below the top of the address space, with a full shadow. */
    predicate Good() {
      |bytes| == |initialized| && |bytes| > 0 && End() < TWO_64
    }

    predicate Covers(a: int) { base <= a < End() }

    function CellOf(a: int): Cell
      requires Covers(a) && |bytes| == |initialized|
    {
      Cell(bytes[a - base], initialized[a - base], prot, name, Shifted(backing, a - base))
    }

    function Cells(): Memory
      requires |bytes| == |initialized|
    {
      map a | base <= a < End() :: CellOf(a)
    }

    /** `clone_slice(lo, lo - base, hi - lo)` */
    function Slice(lo: int, hi: int): RegionView
      requires |bytes| == |initialized| && base <= lo <= hi <= End() && lo < TWO_64
    {
      RegionView(lo, prot, name, Shifted(backing, lo - base), bytes[lo - base..hi - base], initialized[lo - base..hi - base])
    }

    predicate Inside(lo: int, hi: int) { lo <= base && End() <= hi }

    predicate Outside(lo: int, hi: int) { hi <= base || End() <= lo }
  }

  predicate AllGood(rs: seq<RegionView>) {
    forall i :: 0 <= i < |rs| ==> rs[i].Good()
  }

  /** The regions are disjoint and in address order. */
  predicate Ordered(rs: seq<RegionView>) {
    forall i, j :: 0 <= i < j < |rs| ==> rs[i].End() <= rs[j].base
  }

  predicate WellFormed(rs: seq<RegionView>) {
    AllGood(rs) && Ordered(rs)
  }

  /** Every region starts and ends on a page boundary. */
  predicate Granular(rs: seq<RegionView>) {
    forall i :: 0 <= i < |rs| ==> Aligned(rs[i].base) && Aligned(rs[i].End())
  }

  /** Some region puts cell c at address a. */
  ghost predicate Has(rs: seq<RegionView>, a: int, c: Cell)
    requires AllGood(rs)
  {
    exists i :: 0 <= i < |rs| && rs[i].Covers(a) && rs[i].CellOf(a) == c
  }

  ghost predicate Mapped(rs: seq<RegionView>, a: int) {
    exists i :: 0 <= i < |rs| && rs[i].Covers(a)
  }

  ghost function CellAt(rs: seq<RegionView>, a: int): Cell
    requires AllGood(rs) && Mapped(rs, a)
  {
    var i :| 0 <= i < |rs| && rs[i].Covers(a);
    rs[i].CellOf(a)
  }

  /** The flat memory a region list stands for. */
  ghost function Flatten(rs: seq<RegionView>): Memory
    requires AllGood(rs)
  {
    map a | 0 <= a < TWO_64 && Mapped(rs, a) :: CellAt(rs, a)
  }

  lemma CoverIsUnique(rs: seq<RegionView>, i: int, j: int, a: int)
    requires Ordered(rs) && 0 <= i < |rs| && 0 <= j < |rs| && rs[i].Covers(a) && rs[j].Covers(a)
    ensures i == j
  {
  }

  /** An address has a cell exactly when some region puts it there. */
  lemma FlattenHas(rs: seq<RegionView>, a: int, c: Cell)
    requires WellFormed(rs)
    ensures (a in Flatten(rs) && Flatten(rs)[a] == c) <==> Has(rs, a, c)
  {
    if Has(rs, a, c) {
      var i :| 0 <= i < |rs| && rs[i].Covers(a) && rs[i].CellOf(a) == c;
      var j :| 0 <= j < |rs| && rs[j].Covers(a) && CellAt(rs, a) == rs[j].CellOf(a);
      CoverIsUnique(rs, i, j, a);
    }
  }

  lemma HasUnique(rs: seq<RegionView>, i: int, a: int, c: Cell)
    requires WellFormed(rs) && 0 <= i < |rs| && rs[i].Covers(a)
    ensures Has(rs, a, c) <==> rs[i].CellOf(a) == c
  {
    if Has(rs, a, c) {
      var j :| 0 <= j < |rs| && rs[j].Covers(a) && rs[j].CellOf(a) == c;
      CoverIsUnique(rs, i, j, a);
    }
  }

  lemma Uncovered(rs: seq<RegionView>, a: int, c: Cell)
    requires AllGood(rs) && forall i :: 0 <= i < |rs| ==> !rs[i].Covers(a)
    ensures a !in Flatten(rs) && !Has(rs, a, c)
  {
  }

  lemma FlattenCovers(rs: seq<RegionView>, i: int, a: int)
    requires WellFormed(rs) && 0 <= i < |rs| && rs[i].Covers(a)
    ensures a in Flatten(rs) && Flatten(rs)[a] == rs[i].CellOf(a)
  {
    assert Has(rs, a, rs[i].CellOf(a));
    FlattenHas(rs, a, rs[i].CellOf(a));
  }

  /** A memory with the same cells is the memory the list stands for. */
  lemma FlattenIs(rs: seq<RegionView>, m: Memory)
    requires WellFormed(rs)
    requires forall a, c :: Has(rs, a, c) <==> a in m && m[a] == c
    ensures Flatten(rs) == m
  {
    var f := Flatten(rs);
    forall a | a in f ensures a in m && m[a] == f[a] {
      FlattenHas(rs, a, f[a]);
    }
    forall a | a in m ensures a in f {
      assert Has(rs, a, m[a]);
      FlattenHas(rs, a, m[a]);
    }
  }

  lemma HasAppend(xs: seq<RegionView>, ys: seq<RegionView>, a: int, c: Cell)
    requires AllGood(xs) && AllGood(ys)
    ensures AllGood(xs + ys)
    ensures Has(xs + ys, a, c) <==> Has(xs, a, c) || Has(ys, a, c)
  {
    var zs := xs + ys;
    if Has(xs, a, c) {
      var i :| 0 <= i < |xs| && xs[i].Covers(a) && xs[i].CellOf(a) == c;
      assert zs[i] == xs[i];
    }
    if Has(ys, a, c) {
      var i :| 0 <= i < |ys| && ys[i].Covers(a) && ys[i].CellOf(a) == c;
      assert zs[|xs| + i] == ys[i];
    }
  }

  lemma HasOne(r: RegionView, a: int, c: Cell)
    requires r.Good()
    ensures Has([r], a, c) <==> r.Covers(a) && r.CellOf(a) == c
  {
    assert [r][0] == r;
  }

  lemma HasLast(rs: seq<RegionView>, a: int, c: Cell)
    requires AllGood(rs) && |rs| > 0
    ensures var r := rs[|rs| - 1];
      Has(rs, a, c) <==> Has(rs[..|rs| - 1], a, c) || (r.Covers(a) && r.CellOf(a) == c)
  {
    var init, r := rs[..|rs| - 1], rs[|rs| - 1];
    assert rs == init + [r];
    HasAppend(init, [r], a, c);
    HasOne(r, a, c);
  }

  /** No mapping ever reaches the last page of the address space. */
  lemma TopPageFree(rs: seq<RegionView>, a: int)
    requires WellFormed(rs) && Granular(rs) && a in Flatten(rs)
    ensures 0 <= a < TWO_64 - PAGE_SIZE
  {
    var i :| 0 <= i < |rs| && rs[i].Covers(a);
    AlignedBelowTop(rs[i].End());
  }

  // ----- split_around -----

  /** The pieces of one region: before the range, within it, after it. */
  function SplitRegion(r: RegionView, lo: u64, hi: int): seq<RegionView>
    requires r.Good() && lo < hi < TWO_64
  {
    if r.Outside(lo, hi) then [r] else
    (if lo > r.base then [r.Slice(r.base, lo)] else [])
      + [r.Slice(Max(lo, r.base), Min(hi, r.End()))]
      + (if hi < r.End() then [r.Slice(hi, r.End())] else [])
  }

  /** The pieces as `split_around` pushes them, one after the other. */
  lemma SplitRegionParts(before: seq<RegionView>, r: RegionView, lo: u64, hi: int)
    requires r.Good() && lo < hi < TWO_64
    ensures before + SplitRegion(r, lo, hi) ==
      if r.Outside(lo, hi) then before + [r]
      else
        var one := before + if r.base < lo then [r.Slice(r.base, lo)] else [];
        var two := one + [r.Slice(Max(lo, r.base), Min(hi, r.End()))];
        if hi < r.End() then two + [r.Slice(hi, r.End())] else two
  {
    hide Shifted;
  }

  function SplitAround(rs: seq<RegionView>, lo: u64, hi: int): seq<RegionView>
    requires AllGood(rs) && lo < hi < TWO_64
  {
    if |rs| == 0 then []
    else SplitAround(rs[..|rs| - 1], lo, hi) + SplitRegion(rs[|rs| - 1], lo, hi)
  }

  lemma SplitAroundStep(rs: seq<RegionView>, i: nat, lo: u64, hi: int)
    requires AllGood(rs) && lo < hi < TWO_64 && i < |rs|
    ensures SplitAround(rs[..i + 1], lo, hi) == SplitAround(rs[..i], lo, hi) + SplitRegion(rs[i], lo, hi)
  {
    assert rs[..i + 1][..i] == rs[..i];
  }

  lemma ShiftedTwice(b: Backing, x: int, y: int)
    ensures Shifted(Shifted(b, x), y) == Shifted(b, x + y)
  {
    if b.Mmap? {
      WrapTwice(b.position + x, y);
    }
  }

  lemma SliceKeepsCells(r: RegionView, lo: int, hi: int, a: int)
    requires |r.bytes| == |r.initialized| && r.base <= lo <= a < hi <= r.End() && lo < TWO_64
    ensures r.Slice(lo, hi).CellOf(a) == r.CellOf(a)
  {
    ShiftedTwice(r.backing, lo - r.base, a - lo);
  }

  lemma SplitRegionOrdered(r: RegionView, lo: u64, hi: int)
    requires r.Good() && lo < hi < TWO_64
    ensures WellFormed(SplitRegion(r, lo, hi))
  {
    hide Shifted;
    var ps := SplitRegion(r, lo, hi);
    assert forall i :: 0 <= i < |ps| ==> ps[i].Good();
    assert forall i, j :: 0 <= i < j < |ps| ==> ps[i].End() <= ps[j].base;
  }

  lemma SplitRegionSeparated(r: RegionView, lo: u64, hi: int)
    requires r.Good() && lo < hi < TWO_64
    ensures Separated(SplitRegion(r, lo, hi), lo, hi)
    ensures Within(SplitRegion(r, lo, hi), r.base, r.End())
  {
  }

  lemma SplitRegionGranular(r: RegionView, lo: u64, hi: int)
    requires r.Good() && lo < hi < TWO_64 && Aligned(r.base) && Aligned(r.End()) && Aligned(lo) && Aligned(hi)
    ensures Granular(SplitRegion(r, lo, hi))
  {
    hide Aligned;
    var ps := SplitRegion(r, lo, hi);
    assert forall i :: 0 <= i < |ps| ==> ps[i].base == r.base || ps[i].base == lo || ps[i].base == hi;
    assert forall i :: 0 <= i < |ps| ==> ps[i].End() == r.End() || ps[i].End() == lo || ps[i].End() == hi;
  }

  lemma SplitRegionHas(r: RegionView, lo: u64, hi: int, a: int, c: Cell)
    requires r.Good() && lo < hi < TWO_64
    ensures AllGood(SplitRegion(r, lo, hi))
    ensures Has(SplitRegion(r, lo, hi), a, c) <==> r.Covers(a) && r.CellOf(a) == c
  {
    SplitRegionOrdered(r, lo, hi);
    if r.Outside(lo, hi) {
      HasOne(r, a, c);
    } else {
      var left := if lo > r.base then [r.Slice(r.base, lo)] else [];
      var mid := [r.Slice(Max(lo, r.base), Min(hi, r.End()))];
      var right := if hi < r.End() then [r.Slice(hi, r.End())] else [];
      assert SplitRegion(r, lo, hi) == left + mid + right;
      HasAppend(left, mid, a, c);
      HasAppend(left + mid, right, a, c);
      SliceHas(r, Max(lo, r.base), Min(hi, r.End()), a, c);
      if lo > r.base {
        SliceHas(r, r.base, lo, a, c);
      }
      if hi < r.End() {
        SliceHas(r, hi, r.End(), a, c);
      }
    }
  }

  lemma SliceHas(r: RegionView, lo: int, hi: int, a: int, c: Cell)
    requires r.Good() && r.base <= lo < hi <= r.End()
    ensures AllGood([r.Slice(lo, hi)])
    ensures Has([r.Slice(lo, hi)], a, c) <==> lo <= a < hi && r.CellOf(a) == c
  {
    HasOne(r.Slice(lo, hi), a, c);
    if lo <= a < hi {
      SliceKeepsCells(r, lo, hi, a);
    }
  }

  predicate Separated(rs: seq<RegionView>, lo: int, hi: int) {
    forall i :: 0 <= i < |rs| ==> rs[i].Inside(lo, hi) || rs[i].Outside(lo, hi)
  }

  predicate Within(rs: seq<RegionView>, lo: int, hi: int) {
    forall i :: 0 <= i < |rs| ==> lo <= rs[i].base && rs[i].End() <= hi
  }

  function LastEnd(rs: seq<RegionView>): int {
    if |rs| == 0 then 0 else rs[|rs| - 1].End()
  }

  lemma OrderedAppend(xs: seq<RegionView>, ys: seq<RegionView>, b: int, e: int)
    requires WellFormed(xs) && Within(xs, 0, b) && WellFormed(ys) && Within(ys, b, e) && 0 <= b <= e
    ensures WellFormed(xs + ys) && Within(xs + ys, 0, e)
  {
  }

  /** `split_around` keeps the list in address order and separates it from the range. */
  lemma {:induction false} SplitIsOrdered(rs: seq<RegionView>, lo: u64, hi: int)
    requires WellFormed(rs) && lo < hi < TWO_64
    ensures WellFormed(SplitAround(rs, lo, hi))
    ensures Within(SplitAround(rs, lo, hi), 0, LastEnd(rs))
  {
    if |rs| > 0 {
      var init, r := rs[..|rs| - 1], rs[|rs| - 1];
      SplitIsOrdered(init, lo, hi);
      SplitRegionOrdered(r, lo, hi);
      SplitRegionSeparated(r, lo, hi);
      assert LastEnd(init) <= r.base;
      OrderedAppend(SplitAround(init, lo, hi), SplitRegion(r, lo, hi), r.base, r.End());
    }
  }

  lemma {:induction false} SplitIsSeparated(rs: seq<RegionView>, lo: u64, hi: int)
    requires AllGood(rs) && lo < hi < TWO_64
    ensures Separated(SplitAround(rs, lo, hi), lo, hi)
    ensures Granular(rs) && Aligned(lo) && Aligned(hi) ==> Granular(SplitAround(rs, lo, hi))
  {
    if |rs| > 0 {
      SplitIsSeparated(rs[..|rs| - 1], lo, hi);
      SplitRegionSeparated(rs[|rs| - 1], lo, hi);
      if Granular(rs) && Aligned(lo) && Aligned(hi) {
        SplitRegionGranular(rs[|rs| - 1], lo, hi);
      }
    }
  }

  lemma {:induction false} SplitKeepsCells(rs: seq<RegionView>, lo: u64, hi: int, a: int, c: Cell)
    requires WellFormed(rs) && lo < hi < TWO_64
    ensures AllGood(SplitAround(rs, lo, hi))
    ensures Has(SplitAround(rs, lo, hi), a, c) <==> Has(rs, a, c)
  {
    SplitIsOrdered(rs, lo, hi);
    if |rs| > 0 {
      var init, r := rs[..|rs| - 1], rs[|rs| - 1];
      SplitIsOrdered(init, lo, hi);
      SplitKeepsCells(init, lo, hi, a, c);
      SplitRegionHas(r, lo, hi, a, c);
      HasAppend(SplitAround(init, lo, hi), SplitRegion(r, lo, hi), a, c);
      HasLast(rs, a, c);
    }
  }

  /** What callers need of a split: the same memory, in order, on page boundaries, with every
      region inside the range or clear of it. */
  ghost predicate SplitOf(rs: seq<RegionView>, lo: int, hi: int, ps: seq<RegionView>)
    requires WellFormed(rs)
  {
    WellFormed(ps) && Granular(ps) && Separated(ps, lo, hi) && Flatten(ps) == Flatten(rs)
  }

  /** `split_around` is invisible: every address keeps its byte, shadow, protection, name and
      file position. It is sufficient: every region is inside the range or clear of it. And the
      rebuilt list is already in address order, so the sort that follows changes nothing. */
  lemma SplitIsInvisible(rs: seq<RegionView>, lo: u64, hi: int)
    requires WellFormed(rs) && Granular(rs) && lo < hi < TWO_64 && Aligned(lo) && Aligned(hi)
    ensures SplitOf(rs, lo, hi, SplitAround(rs, lo, hi))
  {
    var ps := SplitAround(rs, lo, hi);
    SplitIsOrdered(rs, lo, hi);
    SplitIsSeparated(rs, lo, hi);
    forall a, c ensures Has(ps, a, c) <==> a in Flatten(rs) && Flatten(rs)[a] == c {
      SplitKeepsCells(rs, lo, hi, a, c);
      FlattenHas(rs, a, c);
    }
    FlattenIs(ps, Flatten(rs));
  }

  // ----- unmap and protect, after the split -----

  /** `remove_if`: the regions that are not inside the range, in order. */
  function DropInside(rs: seq<RegionView>, lo: int, hi: int): seq<RegionView> {
    if |rs| == 0 then []
    else if rs[|rs| - 1].Inside(lo, hi) then DropInside(rs[..|rs| - 1], lo, hi)
    else DropInside(rs[..|rs| - 1], lo, hi) + [rs[|rs| - 1]]
  }

  lemma {:induction false} DropIsOrdered(rs: seq<RegionView>, lo: int, hi: int)
    requires WellFormed(rs)
    ensures WellFormed(DropInside(rs, lo, hi)) && Within(DropInside(rs, lo, hi), 0, LastEnd(rs))
    ensures Granular(rs) ==> Granular(DropInside(rs, lo, hi))
  {
    if |rs| > 0 {
      var init, r := rs[..|rs| - 1], rs[|rs| - 1];
      DropIsOrdered(init, lo, hi);
      assert LastEnd(init) <= r.base;
      if !r.Inside(lo, hi) {
        OrderedAppend(DropInside(init, lo, hi), [r], r.base, r.End());
      }
    }
  }

  lemma {:induction false} DropKeepsOutside(rs: seq<RegionView>, lo: int, hi: int, a: int, c: Cell)
    requires WellFormed(rs) && Separated(rs, lo, hi)
    ensures AllGood(DropInside(rs, lo, hi))
    ensures Has(DropInside(rs, lo, hi), a, c) <==> Has(rs, a, c) && !(lo <= a < hi)
  {
    DropIsOrdered(rs, lo, hi);
    if |rs| > 0 {
      var init, r := rs[..|rs| - 1], rs[|rs| - 1];
      DropIsOrdered(init, lo, hi);
      DropKeepsOutside(init, lo, hi, a, c);
      HasLast(rs, a, c);
      assert r.Inside(lo, hi) || r.Outside(lo, hi);
      assert r.Covers(a) ==> (r.Inside(lo, hi) <==> lo <= a < hi);
      if !r.Inside(lo, hi) {
        HasAppend(DropInside(init, lo, hi), [r], a, c);
        HasOne(r, a, c);
      }
    }
  }

  /** Dropping the separated regions removes exactly the addresses of the range. */
  lemma DropIsWithout(rs: seq<RegionView>, lo: int, hi: int)
    requires WellFormed(rs) && Separated(rs, lo, hi)
    ensures WellFormed(DropInside(rs, lo, hi))
    ensures Flatten(DropInside(rs, lo, hi)) == Without(Flatten(rs), lo, hi)
  {
    DropIsOrdered(rs, lo, hi);
    var m := Without(Flatten(rs), lo, hi);
    forall a, c ensures Has(DropInside(rs, lo, hi), a, c) <==> a in m && m[a] == c {
      DropKeepsOutside(rs, lo, hi, a, c);
      FlattenHas(rs, a, c);
    }
    FlattenIs(DropInside(rs, lo, hi), m);
  }

  function ReprotectInside(rs: seq<RegionView>, lo: int, hi: int, prot: Prot): (ps: seq<RegionView>)
    ensures |ps| == |rs|
  {
    seq(|rs|, i requires 0 <= i < |rs| => if rs[i].Inside(lo, hi) then rs[i].(prot := prot) else rs[i])
  }

  lemma ReprotectIsOrdered(rs: seq<RegionView>, lo: int, hi: int, prot: Prot)
    requires WellFormed(rs)
    ensures WellFormed(ReprotectInside(rs, lo, hi, prot))
    ensures Granular(rs) ==> Granular(ReprotectInside(rs, lo, hi, prot))
  {
    var ps := ReprotectInside(rs, lo, hi, prot);
    assert forall i :: 0 <= i < |ps| ==> ps[i].base == rs[i].base && ps[i].End() == rs[i].End();
  }

  /** Changing the separated regions' protection changes exactly the cells of the range. */
  lemma ReprotectIsReprotected(rs: seq<RegionView>, lo: int, hi: int, prot: Prot)
    requires WellFormed(rs) && Separated(rs, lo, hi)
    ensures WellFormed(ReprotectInside(rs, lo, hi, prot))
    ensures Flatten(ReprotectInside(rs, lo, hi, prot)) == Reprotected(Flatten(rs), lo, hi, prot)
  {
    var ps, m := ReprotectInside(rs, lo, hi, prot), Reprotected(Flatten(rs), lo, hi, prot);
    ReprotectIsOrdered(rs, lo, hi, prot);
    forall a, c ensures Has(ps, a, c) <==> a in m && m[a] == c {
      ReprotectedCell(rs, lo, hi, prot, a, c);
    }
    FlattenIs(ps, m);
  }

  lemma ReprotectedCover(rs: seq<RegionView>, lo: int, hi: int, prot: Prot, i: int, a: int)
    requires AllGood(rs) && Separated(rs, lo, hi) && 0 <= i < |rs| && rs[i].Covers(a)
    ensures var r := ReprotectInside(rs, lo, hi, prot)[i];
      r.Covers(a) && r.CellOf(a) == if lo <= a < hi then rs[i].CellOf(a).(prot := prot) else rs[i].CellOf(a)
  {
    assert rs[i].Inside(lo, hi) <==> lo <= a < hi;
  }

  lemma ReprotectedCell(rs: seq<RegionView>, lo: int, hi: int, prot: Prot, a: int, c: Cell)
    requires WellFormed(rs) && Separated(rs, lo, hi) && WellFormed(ReprotectInside(rs, lo, hi, prot))
    ensures var m := Reprotected(Flatten(rs), lo, hi, prot);
      Has(ReprotectInside(rs, lo, hi, prot), a, c) <==> a in m && m[a] == c
  {
    var ps := ReprotectInside(rs, lo, hi, prot);
    if i :| 0 <= i < |rs| && rs[i].Covers(a) {
      FlattenCovers(rs, i, a);
      ReprotectedCover(rs, lo, hi, prot, i, a);
      HasUnique(ps, i, a, c);
    } else {
      assert forall j :: 0 <= j < |ps| ==> rs[j].Covers(a) == ps[j].Covers(a);
    }
  }

  // ----- adding one region -----

  /** The place a new region takes in the sorted list. */
  function InsertSorted(rs: seq<RegionView>, r: RegionView): (ps: seq<RegionView>)
    ensures |ps| == |rs| + 1
  {
    if |rs| == 0 || rs[|rs| - 1].base <= r.base then rs + [r]
    else InsertSorted(rs[..|rs| - 1], r) + [rs[|rs| - 1]]
  }

  predicate ClearOf(rs: seq<RegionView>, r: RegionView) {
    forall i :: 0 <= i < |rs| ==> rs[i].End() <= r.base || r.End() <= rs[i].base
  }

  lemma {:induction false} InsertIsOrdered(rs: seq<RegionView>, r: RegionView)
    requires WellFormed(rs) && r.Good() && ClearOf(rs, r)
    ensures WellFormed(InsertSorted(rs, r))
    ensures Within(InsertSorted(rs, r), 0, Max(LastEnd(rs), r.End()))
    ensures Granular(rs) && Granular([r]) ==> Granular(InsertSorted(rs, r))
  {
    hide Aligned;
    if |rs| == 0 || rs[|rs| - 1].base <= r.base {
      assert |rs| > 0 ==> rs[|rs| - 1].End() <= r.base;
      OrderedAppend(rs, [r], r.base, r.End());
      assert [r][0] == r;
    } else {
      var init, last := rs[..|rs| - 1], rs[|rs| - 1];
      InsertIsOrdered(init, r);
      assert r.End() <= last.base && LastEnd(init) <= last.base;
      OrderedAppend(InsertSorted(init, r), [last], last.base, last.End());
    }
  }

  lemma {:induction false} InsertHas(rs: seq<RegionView>, r: RegionView, a: int, c: Cell)
    requires AllGood(rs) && r.Good()
    ensures AllGood(InsertSorted(rs, r))
    ensures Has(InsertSorted(rs, r), a, c) <==> Has(rs, a, c) || (r.Covers(a) && r.CellOf(a) == c)
  {
    HasOne(r, a, c);
    if |rs| == 0 || rs[|rs| - 1].base <= r.base {
      HasAppend(rs, [r], a, c);
    } else {
      var init, last := rs[..|rs| - 1], rs[|rs| - 1];
      InsertHas(init, r, a, c);
      HasLast(rs, a, c);
      HasOne(last, a, c);
      HasAppend(InsertSorted(init, r), [last], a, c);
    }
  }

  /** A range overlaps no region exactly when all its addresses are free. */
  lemma OverlapIsUse(rs: seq<RegionView>, base: int, size: int)
    requires WellFormed(rs) && size > 0
    ensures Free(Flatten(rs), base, size) <==>
      forall i :: 0 <= i < |rs| ==> !(base < rs[i].End() && base + size > rs[i].base)
  {
    if Free(Flatten(rs), base, size) {
      forall i | 0 <= i < |rs| ensures !(base < rs[i].End() && base + size > rs[i].base) {
        if base < rs[i].End() && base + size > rs[i].base {
          FlattenCovers(rs, i, Max(base, rs[i].base));
          assert false;
        }
      }
    }
  }

  /** Adding an aligned region on free addresses adds exactly its cells. */
  lemma InsertIsUnion(rs: seq<RegionView>, r: RegionView)
    requires WellFormed(rs) && Granular(rs) && r.Good()
    requires Aligned(r.base) && Aligned(|r.bytes|) && Free(Flatten(rs), r.base, |r.bytes|)
    ensures WellFormed(InsertSorted(rs, r)) && Granular(InsertSorted(rs, r))
    ensures Flatten(InsertSorted(rs, r)) == Flatten(rs) + r.Cells()
  {
    assert ClearOf(rs, r) by {
      OverlapIsUse(rs, r.base, |r.bytes|);
    }
    assert Granular([r]) by {
      AlignedSum(r.base, |r.bytes|);
      assert [r][0] == r;
    }
    InsertIsOrdered(rs, r);
    var m := Flatten(rs) + r.Cells();
    forall a, c ensures Has(InsertSorted(rs, r), a, c) <==> a in m && m[a] == c {
      InsertHas(rs, r, a, c);
      FlattenHas(rs, a, c);
    }
    FlattenIs(InsertSorted(rs, r), m);
  }

  function AllZero(size: nat): (bytes: seq<u8>)
    ensures |bytes| == size
  {
    seq(size, _ => 0)
  }

  function AllSet(size: nat): (shadow: seq<bool>)
    ensures |shadow| == size
  {
    seq(size, _ => true)
  }

  lemma ZeroRegionCells(base: u64, size: nat, prot: Prot, name: string, backing: Backing)
    ensures RegionView(base, prot, name, backing, AllZero(size), AllSet(size)).Cells()
      == ZeroCells(base, size, prot, name, backing)
  {
    var r := RegionView(base, prot, name, backing, AllZero(size), AllSet(size));
    assert forall a :: r.Covers(a) ==> r.CellOf(a) == ZeroCell(a, base, prot, name, backing);
    assert r.Cells() == ZeroCells(base, size, prot, name, backing);
  }

  /** The buffer of `map_bytes`: the source at its offset, zeros around it. */
  function Padded(source: seq<u8>, offset: nat, size: nat): (bytes: seq<u8>)
    requires offset + |source| <= size
    ensures |bytes| == size
  {
    AllZero(offset) + source + AllZero(size - offset - |source|)
  }

  lemma ByteRegionCells(base: u64, size: nat, prot: Prot, source: seq<u8>, offset: nat, name: string)
    requires offset + |source| <= size
    ensures RegionView(base, prot, name, Simple, Padded(source, offset, size), AllSet(size)).Cells()
      == ByteCells(base, size, prot, source, offset, name)
  {
    var r := RegionView(base, prot, name, Simple, Padded(source, offset, size), AllSet(size));
    assert forall a :: r.Covers(a) ==> r.CellOf(a) == SourceCell(a, base, prot, source, offset, name);
    assert r.Cells() == ByteCells(base, size, prot, source, offset, name);
  }

  // ----- writing one byte -----

  function WriteAt(r: RegionView, a: int, value: u8, initialized: bool): RegionView
    requires r.Good() && r.Covers(a)
  {
    r.(bytes := r.bytes[a - r.base := value], initialized := r.initialized[a - r.base := initialized])
  }

  /** Writing one byte of one region updates one cell. */
  lemma WriteIsUpdate(rs: seq<RegionView>, i: int, a: int, value: u8, initialized: bool)
    requires WellFormed(rs) && 0 <= i < |rs| && rs[i].Covers(a)
    ensures a in Flatten(rs)
    ensures WellFormed(rs[i := WriteAt(rs[i], a, value, initialized)])
    ensures Granular(rs) ==> Granular(rs[i := WriteAt(rs[i], a, value, initialized)])
    ensures Flatten(rs[i := WriteAt(rs[i], a, value, initialized)])
      == Flatten(rs)[a := WithByte(Flatten(rs)[a], ShadowByte(value, initialized))]
  {
    hide Flatten, Has, Shifted, Aligned;
    FlattenCovers(rs, i, a);
    var ps := rs[i := WriteAt(rs[i], a, value, initialized)];
    var f := Flatten(rs);
    var m := f[a := WithByte(f[a], ShadowByte(value, initialized))];
    assert forall j :: 0 <= j < |ps| ==> ps[j].base == rs[j].base && ps[j].End() == rs[j].End();
    forall x, c ensures Has(ps, x, c) <==> x in m && m[x] == c {
      WrittenCell(rs, i, a, value, initialized, x, c);
    }
    FlattenIs(ps, m);
  }

  lemma WrittenCell(rs: seq<RegionView>, i: int, a: int, value: u8, initialized: bool, x: int, c: Cell)
    requires WellFormed(rs) && 0 <= i < |rs| && rs[i].Covers(a)
    requires WellFormed(rs[i := WriteAt(rs[i], a, value, initialized)])
    ensures a in Flatten(rs)
    ensures Has(rs[i := WriteAt(rs[i], a, value, initialized)], x, c) <==>
      x in Flatten(rs) && c == if x == a then WithByte(Flatten(rs)[a], ShadowByte(value, initialized)) else Flatten(rs)[x]
  {
    hide Flatten, Shifted, Has;
    var ps := rs[i := WriteAt(rs[i], a, value, initialized)];
    FlattenCovers(rs, i, a);
    if j :| 0 <= j < |rs| && rs[j].Covers(x) {
      FlattenCovers(rs, j, x);
      HasUnique(ps, j, x, c);
      if x == a {
        CoverIsUnique(rs, i, j, a);
      }
    } else {
      Uncovered(rs, x, c);
      Uncovered(ps, x, c);
    }
  }
}
