/** The guest MMU: a sorted list of region objects, each owning its bytes and shadow, updated
    in place. Every method is specified by the flat memory the list stands for. */
module GuestMmu {
  import opened Words
  import opened FlatMemory
  import opened RegionList

  /** `SimpleRegion` and `MmapRegion`; `backing` tells which. */
  class Region {
    const base: u64
    const name: string
    const backing: Backing
    const size: nat
    var prot: Prot
    var bytes: seq<u8>
    var initialized: seq<bool>

    ghost function View(): RegionView
      reads this
    {
      RegionView(base, prot, name, backing, bytes, initialized)
    }

    ghost predicate Valid()
      reads this
    {
      |bytes| == |initialized| == size && View().Good()
    }

    /** A region with the given bytes, all of them initialized. */
    constructor (base: u64, prot: Prot, name: string, backing: Backing, contents: seq<u8>)
      ensures View() == RegionView(base, prot, name, backing, contents, AllSet(|contents|))
      ensures size == |contents|
    {
      this.base, this.prot, this.name, this.backing := base, prot, name, backing;
      bytes, initialized, size := contents, AllSet(|contents|), |contents|;
    }

    function End(): int { base + size }

    predicate Contains(a: int) { base <= a < End() }

    method WriteOffset(offset: nat, value: u8, init: bool)
      requires Valid() && offset < size
      modifies this
      ensures Valid() && View() == WriteAt(old(View()), base + offset, value, init)
    {
      bytes := bytes[offset := value];
      SetOffsetInitialized(offset, init);
    }

    method SetOffsetInitialized(offset: nat, init: bool)
      requires Valid() && offset < size
      modifies this`initialized
      ensures Valid() && initialized == old(initialized)[offset := init]
    {
      initialized := initialized[offset := init];
    }

    /** A copy of part of this region: bytes, shadow, protection and file position. */
    method CloneSlice(newBase: u64, offset: nat, newSize: nat) returns (clone: Region)
      requires Valid() && newSize > 0 && offset + newSize <= size && newBase == base + offset
      ensures fresh(clone) && clone.Valid() && clone.View() == View().Slice(newBase, newBase + newSize)
    {
      clone := new Region(newBase, prot, name, Shifted(backing, offset), bytes[offset..offset + newSize]);
      for i := 0 to newSize
        modifies clone`initialized
        invariant clone.Valid() && clone.initialized[..i] == initialized[offset..offset + i]
      {
        clone.SetOffsetInitialized(i, initialized[offset + i]);
      }
      assert clone.initialized == initialized[offset..offset + newSize];
    }

    /** `rebuilt.push_back(clone_slice(...))` for the part [lo, hi), unless it is empty. */
    method PushSlice(rebuilt: seq<Region>, lo: u64, hi: int) returns (list: seq<Region>)
      requires Valid() && base <= lo && hi <= End()
      requires Distinct(rebuilt) && AllValid(rebuilt)
      ensures Distinct(list) && AllValid(list) && fresh(Objects(list) - Objects(rebuilt))
      ensures Views(list) == Views(rebuilt) + if lo < hi then [View().Slice(lo, hi)] else []
    {
      hide Shifted;
      list := rebuilt;
      if lo < hi {
        var clone := CloneSlice(lo, lo - base, hi - lo);
        OneObject(clone);
        Concat(rebuilt, [clone]);
        list := rebuilt + [clone];
      }
    }

    /** The pieces `split_around` puts in the rebuilt list for this region: the region itself, or
        clones of the part before the range, the part within it and the part after it. */
    method PushPieces(rebuilt: seq<Region>, base: u64, end: int) returns (list: seq<Region>)
      requires Valid() && base < end < TWO_64
      requires Distinct(rebuilt) && AllValid(rebuilt) && this !in Objects(rebuilt)
      ensures Distinct(list) && AllValid(list) && fresh(Objects(list) - Objects(rebuilt) - {this})
      ensures Views(list) == Views(rebuilt) + SplitRegion(View(), base, end)
    {
      hide Distinct, AllValid, Views, SplitRegion;
      SplitRegionParts(Views(rebuilt), View(), base, end);
      if end <= this.base || base >= End() {
        OneObject(this);
        Concat(rebuilt, [this]);
        list := rebuilt + [this];
      } else {
        list := PushSlice(rebuilt, this.base, base);
        list := PushSlice(list, Max(base, this.base), Min(end, End()));
        if end < End() {
          list := PushSlice(list, end, End());
        }
      }
    }
  }

  ghost function Objects(rs: seq<Region>): set<object> {
    set i | 0 <= i < |rs| :: rs[i] as object
  }

  /** No region is in the list twice. */
  ghost predicate Distinct(rs: seq<Region>) {
    forall i, j :: 0 <= i < j < |rs| ==> rs[i] != rs[j]
  }

  ghost predicate AllValid(rs: seq<Region>)
    reads Objects(rs)
  {
    forall i :: 0 <= i < |rs| ==> rs[i].Valid()
  }

  ghost function Views(rs: seq<Region>): (vs: seq<RegionView>)
    reads Objects(rs)
    ensures |vs| == |rs|
  {
    seq(|rs|, i requires 0 <= i < |rs| reads Objects(rs) => rs[i].View())
  }

  /** Where `push_back` followed by `std::sort` puts a region in a list that is in order. */
  function InsertByBase(rs: seq<Region>, r: Region): (ps: seq<Region>)
  {
    if |rs| == 0 || rs[|rs| - 1].base <= r.base then rs + [r]
    else InsertByBase(rs[..|rs| - 1], r) + [rs[|rs| - 1]]
  }

  lemma {:induction false} InsertByBaseViews(rs: seq<Region>, r: Region)
    ensures Views(InsertByBase(rs, r)) == InsertSorted(Views(rs), r.View())
  {
    if |rs| > 0 {
      var init := rs[..|rs| - 1];
      InsertByBaseViews(init, r);
      assert Views(rs)[..|rs| - 1] == Views(init);
    }
  }

  lemma OneObject(r: Region)
    ensures Objects([r]) == {r} && Distinct([r]) && Views([r]) == [r.View()]
    ensures AllValid([r]) <==> r.Valid()
  {
    assert [r][0] == r;
  }

  lemma {:induction false} InsertByBaseObjects(rs: seq<Region>, r: Region)
    requires Distinct(rs) && r !in Objects(rs)
    ensures Distinct(InsertByBase(rs, r)) && Objects(InsertByBase(rs, r)) == Objects(rs) + {r}
  {
    if |rs| == 0 || rs[|rs| - 1].base <= r.base {
      OneObject(r);
      Concat(rs, [r]);
    } else {
      var init, last := rs[..|rs| - 1], rs[|rs| - 1];
      OneObject(last);
      assert rs == init + [last];
      Concat(init, [last]);
      InsertByBaseObjects(init, r);
      Concat(InsertByBase(init, r), [last]);
    }
  }

  lemma ViewBounds(rs: seq<Region>)
    requires AllValid(rs)
    ensures forall i :: 0 <= i < |rs| ==> Views(rs)[i].base == rs[i].base && Views(rs)[i].End() == rs[i].End()
  {
  }

  lemma {:induction false} InsertByBaseValid(rs: seq<Region>, r: Region)
    requires AllValid(rs) && r.Valid()
    ensures AllValid(InsertByBase(rs, r))
  {
    if |rs| > 0 {
      InsertByBaseValid(rs[..|rs| - 1], r);
    }
  }

  /** Joining two lists of regions that share none. */
  lemma Concat(xs: seq<Region>, ys: seq<Region>)
    ensures Objects(xs + ys) == Objects(xs) + Objects(ys)
    ensures Views(xs + ys) == Views(xs) + Views(ys)
    ensures AllValid(xs) && AllValid(ys) <==> AllValid(xs + ys)
    ensures Distinct(xs) && Distinct(ys) && Objects(xs) !! Objects(ys) <==> Distinct(xs + ys)
  {
    var zs := xs + ys;
    assert forall i :: 0 <= i < |xs| ==> zs[i] == xs[i] && xs[i] in Objects(xs);
    assert forall i :: 0 <= i < |ys| ==> zs[|xs| + i] == ys[i] && ys[i] in Objects(ys);
  }

  class SoftMmu {
    var regions: seq<Region>
    ghost var Repr: set<object>
    var nextAllocation: u64

    ghost predicate Valid()
      reads this, Repr
    {
      && this !in Repr && Repr == Objects(regions)
      && Distinct(regions)
      && AllValid(regions)
      && WellFormed(Views(regions))
      && Granular(Views(regions))
      && Aligned(nextAllocation)
    }

    /** The flat memory this region list stands for. */
    ghost function Flat(): Memory
      requires Valid()
      reads this, Repr
    {
      Flatten(Views(regions))
    }

    constructor ()
      ensures Valid() && fresh(Repr) && Flat() == map[]
    {
      regions, nextAllocation, Repr := [], 0x7000_0000_0000, {};
      new;
      FlattenIs([], map[]);
      AlignedIsModulo(nextAllocation);
    }

    // ----- mapping -----

    /** Whether some region overlaps [base, end); the scan all mapping operations share. */
    method Overlaps(base: u64, end: int) returns (region: Region?)
      requires Valid()
      ensures Valid()
      ensures base < end ==> (region == null <==> Free(Flat(), base, end - base))
      ensures region != null ==> region in regions && base < region.End() && end > region.base
    {
      for i := 0 to |regions|
        invariant forall j :: 0 <= j < i ==> !(base < regions[j].End() && end > regions[j].base)
      {
        if base < regions[i].End() && end > regions[i].base {
          if base < end {
            OverlapIsUse(Views(regions), base, end - base);
          }
          ViewBounds(regions);
          return regions[i];
        }
      }
      if base < end {
        OverlapIsUse(Views(regions), base, end - base);
      }
      ViewBounds(regions);
      return null;
    }

    method EnsureNoOverlap(base: u64, size: u64) returns (error: Option<Error>)
      requires Valid()
      ensures Valid() && error == MapError(Flat(), base, size)
    {
      if size == 0 {
        return Some(ZeroBytes);
      }
      WrapOnce(base + size);
      var end := Wrap(base + size);
      if end < base {
        return Some(MappingOverflow);
      }
      var region := Overlaps(base, end);
      return if region == null then None else Some(MappingOverlap);
    }

    /** `push_back` and `sort_regions` for a region on free addresses. */
    method AddRegion(r: Region)
      requires Valid() && r !in Repr && r.Valid() && Aligned(r.base) && Aligned(r.size)
      requires Free(Flat(), r.base, r.size)
      modifies this`regions, this`Repr
      ensures Valid() && Flat() == old(Flat()) + r.View().Cells()
      ensures Repr == old(Repr) + {r}
    {
      InsertIsUnion(Views(regions), r.View());
      InsertByBaseViews(regions, r);
      InsertByBaseObjects(regions, r);
      InsertByBaseValid(regions, r);
      regions, Repr := InsertByBase(regions, r), Repr + {r};
    }

    /** `map_zeroed` (backing `Simple`) and `map_mmap` (backing `Mmap`). */
    method MapZeroed(base: u64, size: u64, prot: Prot, name: string, backing: Backing) returns (error: Option<Error>)
      requires Valid()
      modifies this`regions, this`Repr
      ensures Valid() && fresh(Repr - old(Repr))
      ensures error == MapError(old(Flat()), PageAlignDown(base), PageAlignUp(size))
      ensures error.Some? ==> Flat() == old(Flat())
      ensures error.None? ==>
        Flat() == old(Flat()) + ZeroCells(PageAlignDown(base), PageAlignUp(size), prot, name, backing)
    {
      var start, length := PageAlignDown(base), PageAlignUp(size);
      error := EnsureNoOverlap(start, length);
      if error.None? {
        var r := new Region(start, prot, name, backing, AllZero(length));
        ZeroRegionCells(start, length, prot, name, backing);
        AddRegion(r);
      }
    }

    method MapBytes(base: u64, size: u64, prot: Prot, source: seq<u8>, offset: u64, name: string) returns (error: Option<Error>)
      requires Valid()
      modifies this`regions, this`Repr
      ensures Valid() && fresh(Repr - old(Repr))
      ensures error == BytesError(old(Flat()), PageAlignDown(base), PageAlignUp(size), |source|, offset)
      ensures error.Some? ==> Flat() == old(Flat())
      ensures error.None? ==> Flat() == old(Flat()) + ByteCells(PageAlignDown(base), PageAlignUp(size), prot, source, offset, name)
    {
      var start, length := PageAlignDown(base), PageAlignUp(size);
      error := EnsureNoOverlap(start, length);
      if error.Some? {
        return;
      }
      if offset > length || |source| > length - offset {
        return Some(CopyTooLarge);
      }
      var r := new Region(start, prot, name, Simple, Padded(source, offset, length));
      ByteRegionCells(start, length, prot, source, offset, name);
      AddRegion(r);
    }

    // ----- split, unmap, protect -----

    /** Makes every region lie inside [base, base + size) or clear of it. */
    method SplitAround(base: u64, size: u64)
      requires Valid() && size > 0 && base + size < TWO_64 && Aligned(base) && Aligned(size)
      modifies this`regions, this`Repr
      ensures Valid() && fresh(Repr - old(Repr))
      ensures Flat() == old(Flat())
      ensures Separated(Views(regions), base, base + size)
    {
      AlignedSum(base, size);
      var rebuilt := Rebuilt(regions, base, base + size);
      regions, Repr := rebuilt, Objects(rebuilt);
    }

    /** Removes the pages from align_down(base) over align_up(size) bytes. */
    method Unmap(base: u64, size: u64)
      requires Valid() && NoWrap(base, size)
      modifies this`regions, this`Repr
      ensures Valid() && fresh(Repr - old(Repr))
      ensures Flat() == AfterUnmap(old(Flat()), base, size)
    {
      hide WellFormed, Granular, Distinct, AllValid, Views, Flatten, Without, Reprotected, PageAlignDown, PageAlignUp;
      if size == 0 {
        EmptyRange(Flat(), base, {});
      } else {
        UnmapPages(PageAlignDown(base), PageAlignUp(size));
      }
    }

    method UnmapPages(start: u64, length: u64)
      requires Valid() && length > 0 && start + length < TWO_64 && Aligned(start) && Aligned(length)
      modifies this`regions, this`Repr
      ensures Valid() && fresh(Repr - old(Repr))
      ensures Flat() == Without(old(Flat()), start, start + length)
    {
      hide WellFormed, Granular, Distinct, AllValid, Separated, Flatten, Without;
      SplitAround(start, length);
      var kept := RemovedInside(regions, start, start + length);
      regions, Repr := kept, Objects(kept);
    }

    /** Gives the pages from align_down(base) over align_up(size) bytes a new protection. */
    method Protect(base: u64, size: u64, prot: Prot)
      requires Valid() && NoWrap(base, size)
      modifies this`regions, this`Repr, Repr
      ensures Valid() && fresh(Repr - old(Repr))
      ensures Flat() == AfterProtect(old(Flat()), base, size, prot)
    {
      hide WellFormed, Granular, Distinct, AllValid, Views, Flatten, Without, Reprotected, PageAlignDown, PageAlignUp;
      if size == 0 {
        EmptyRange(Flat(), base, prot);
      } else {
        ProtectPages(PageAlignDown(base), PageAlignUp(size), prot);
      }
    }

    method ProtectPages(start: u64, length: u64, prot: Prot)
      requires Valid() && length > 0 && start + length < TWO_64 && Aligned(start) && Aligned(length)
      modifies this`regions, this`Repr, Repr
      ensures Valid() && fresh(Repr - old(Repr))
      ensures Flat() == Reprotected(old(Flat()), start, start + length, prot)
    {
      hide WellFormed, Granular, Distinct, AllValid, Separated, Flatten, Reprotected;
      SplitAround(start, length);
      SetProtection(regions, start, start + length, prot);
    }

    // ----- first-fit allocation -----

    /** `allocate` (backing `Simple`) and `allocate_mmap` (backing `Mmap`): the least page at or
        above the cursor with room for the whole block, or an error exactly when there is none. */
    method Allocate(size: u64, prot: Prot, name: string, backing: Backing) returns (r: Result<u64>)
      requires Valid()
      modifies this
      ensures Valid() && fresh(Repr - old(Repr))
      ensures r.Ok? ==> FirstFit(old(Flat()), old(nextAllocation), PageAlignUp(size), r.value)
      ensures r.Ok? ==> PageAlignUp(size) > 0 && nextAllocation == r.value + PageAlignUp(size)
      ensures r.Ok? ==> Flat() == old(Flat()) + ZeroCells(r.value, PageAlignUp(size), prot, name, backing)
      ensures r.Err? ==> Flat() == old(Flat())
      ensures r.Err? ==> PageAlignUp(size) == 0 || NoRoom(old(Flat()), old(nextAllocation), PageAlignUp(size))
    {
      hide Flatten, ZeroCells, PageAlignUp, WellFormed, Granular, AllValid, Distinct, Views, Aligned;
      var length := PageAlignUp(size);
      ghost var from := nextAllocation;
      while true
        invariant Valid() && Repr == old(Repr) && regions == old(regions)
        invariant Flat() == old(Flat())
        invariant from <= nextAllocation && Aligned(nextAllocation)
        invariant length > 0 ==> NoneFree(Flat(), from, nextAllocation, length)
        decreases TWO_64 - nextAllocation
      {
        RoundAligned(nextAllocation);
        var candidate := PageAlignUp(nextAllocation);
        var end := candidate as int + length as int;
        WrapOnce(end);
        var region := Overlaps(candidate, Wrap(end));
        if region == null {
          RoundAligned(candidate);
          RoundAligned(length);
          var error := MapZeroed(candidate, length, prot, name, backing);
          if error.Some? {
            return Err(error.value);
          }
          AlignedSum(candidate, length);
          nextAllocation := candidate + length;
          return Ok(candidate);
        }
        Blocked(region, from, candidate, length);
        nextAllocation := PageAlignUp(region.End());
      }
    }

    /** Every candidate below the end of a colliding region collides too. */
    lemma Blocked(region: Region, from: u64, candidate: u64, length: u64)
      requires Valid() && region in regions && candidate < region.End() && candidate + length > region.base
      requires length > 0 ==> NoneFree(Flat(), from, candidate, length)
      ensures region.End() < TWO_64 && Aligned(region.End()) && PageAlignUp(region.End()) == region.End()
      ensures length > 0 ==> NoneFree(Flat(), from, region.End(), length)
    {
      hide Flatten, ZeroCells, Aligned, PageAlignUp;
      var i :| 0 <= i < |regions| && regions[i] == region;
      assert Views(regions)[i] == region.View();
      RoundAligned(region.End());
      if length > 0 {
        forall x | candidate <= x < region.End() && Aligned(x) ensures !Free(Flat(), x, length) {
          FlattenCovers(Views(regions), i, Max(x, region.base));
        }
      }
    }

    // ----- access -----

    method FindRegion(a: u64) returns (r: Region?)
      requires Valid()
      ensures Valid()
      ensures r == null <==> a !in Flat()
      ensures r != null ==> r in regions && r in Repr && r.Valid() && r.Contains(a) && Flat()[a] == r.View().CellOf(a)
    {
      for i := 0 to |regions|
        invariant forall j :: 0 <= j < i ==> !regions[j].Contains(a)
      {
        if regions[i].Contains(a) {
          assert Views(regions)[i] == regions[i].View();
          FlattenCovers(Views(regions), i, a);
          return regions[i];
        }
      }
      ViewBounds(regions);
      assert forall i :: 0 <= i < |regions| ==> !Views(regions)[i].Covers(a);
      Uncovered(Views(regions), a, Cell(0, true, {}, "", Simple));
      return null;
    }

    /** The region an access goes to, or the fault it raises. */
    method RegionFor(a: u64, required: Access) returns (r: Region?, error: Option<Error>)
      requires Valid()
      ensures Valid() && error == Check(Flat(), a, required)
      ensures error == if Allowed(Flat(), a, required) then None else Some(Denial(Flat(), a))
      ensures error.None? ==>
        r != null && r in regions && r in Repr && r.Valid() && r.Contains(a) && a in Flat() && Flat()[a] == r.View().CellOf(a)
    {
      hide Flatten, WellFormed, Granular, AllValid, Distinct, Views;
      r := FindRegion(a);
      if r == null {
        error := Some(Unmapped(a));
      } else if required !in r.prot {
        error := Some(PermissionFault(a));
      } else {
        error := None;
      }
    }

    method IsMapped(a: u64, size: nat) returns (mapped: bool)
      requires Valid()
      ensures Valid() && (mapped <==> forall i :: 0 <= i < size ==> At(a, i) in Flat())
    {
      hide Flatten, WellFormed, Granular, AllValid, Distinct, Views;
      for i := 0 to size
        invariant forall j :: 0 <= j < i ==> At(a, j) in Flat()
      {
        var r := FindRegion(At(a, i));
        if r == null {
          return false;
        }
      }
      return true;
    }

    method Read8WithShadow(a: u64) returns (b: Result<ShadowByte>)
      requires Valid()
      ensures Valid() && b == LoadByte(Flat(), a)
    {
      hide Flatten, WellFormed, Granular, AllValid, Distinct, Views;
      var r, error := RegionFor(a, Read);
      if error.Some? {
        return Err(error.value);
      }
      return Ok(ShadowByte(r.bytes[a - r.base], r.initialized[a - r.base]));
    }

    /** `region.write_offset(a - region.base, value, initialized)` */
    method WriteRegion(r: Region, a: u64, b: ShadowByte)
      requires Valid() && r in regions && r in Repr && r.Valid() && r.Contains(a)
      modifies Repr
      ensures Valid() && Repr == old(Repr)
      ensures a in old(Flat()) && Flat() == old(Flat())[a := WithByte(old(Flat())[a], b)]
    {
      hide Flatten, WriteAt, WellFormed, Granular, Shifted;
      ghost var k :| 0 <= k < |regions| && regions[k] == r;
      ghost var views := Views(regions);
      WriteIsUpdate(views, k, a, b.value, b.initialized);
      r.WriteOffset(a - r.base, b.value, b.initialized);
      assert Views(regions) == views[k := WriteAt(views[k], a, b.value, b.initialized)];
    }

    method Write8WithShadow(a: u64, b: ShadowByte) returns (error: Option<Error>)
      requires Valid()
      modifies Repr
      ensures Valid() && Repr == old(Repr)
      ensures StoreByte(old(Flat()), a, b) == if error.None? then Ok(Flat()) else Err(error.value)
      ensures error.Some? ==> Flat() == old(Flat())
    {
      hide Flatten, WriteAt, WellFormed, Granular, AllValid, Distinct;
      var r;
      r, error := RegionFor(a, Write);
      if error.None? {
        WriteRegion(r, a, b);
      }
    }

    /** Reads n bytes little-endian, with their shadows (`read_with_shadow`). */
    method ReadWithShadow(a: u64, n: nat) returns (bs: Result<seq<ShadowByte>>)
      requires Valid()
      ensures Valid() && bs == Load(Flat(), a, n)
    {
      hide Flatten, WellFormed, Granular, AllValid, Distinct;
      var read: seq<ShadowByte> := [];
      AtSteps(a);
      LoadStart(Flat(), a, n);
      for i := 0 to n
        invariant |read| == i
        invariant Load(Flat(), a, n) == Prefixed(read, Load(Flat(), At(a, i), n - i))
      {
        AtStep(a, i);
        LoadStep(Flat(), At(a, i), n - i, read);
        var b := Read8WithShadow(At(a, i));
        if b.Err? {
          return Err(b.error);
        }
        read := read + [b.value];
      }
      assert read + [] == read;
      return Ok(read);
    }

    /** Writes bytes with their shadows; a fault leaves the bytes before it written. */
    method WriteWithShadow(a: u64, bs: seq<ShadowByte>) returns (error: Option<Error>)
      requires Valid()
      modifies Repr
      ensures Valid() && Repr == old(Repr)
      ensures Stored(Flat(), error) == Store(old(Flat()), a, bs)
    {
      hide Flatten, WellFormed, Granular, AllValid, Distinct;
      AtSteps(a);
      for i := 0 to |bs|
        invariant Valid() && Repr == old(Repr) && Store(old(Flat()), a, bs) == Store(Flat(), At(a, i), bs[i..])
      {
        AtStep(a, i);
        error := Write8WithShadow(At(a, i), bs[i]);
        if error.Some? {
          return;
        }
        assert bs[i..][1..] == bs[i + 1..];
      }
      error := None;
    }

    /** Sets the shadow of n bytes; a fault leaves the bytes before it marked. */
    method MarkInitialized(a: u64, n: nat, initialized: bool) returns (error: Option<Error>)
      requires Valid()
      modifies Repr
      ensures Valid() && Repr == old(Repr)
      ensures Stored(Flat(), error) == Marked(old(Flat()), a, n, initialized)
    {
      hide Flatten, WellFormed, Granular, AllValid, Distinct;
      AtSteps(a);
      for i := 0 to n
        invariant Valid() && Repr == old(Repr) && Marked(old(Flat()), a, n, initialized) == Marked(Flat(), At(a, i), n - i, initialized)
      {
        AtStep(a, i);
        var r;
        r, error := RegionFor(At(a, i), Read);
        if error.Some? {
          return;
        }
        WriteRegion(r, At(a, i), ShadowByte(r.bytes[At(a, i) - r.base], initialized));
      }
      error := None;
    }
  }

  lemma ObjectsPrefix(rs: seq<Region>, i: nat)
    requires Distinct(rs) && i < |rs|
    ensures Objects(rs[..i + 1]) == Objects(rs[..i]) + {rs[i]}
    ensures rs[i] !in Objects(rs[..i])
  {
    assert rs[..i + 1] == rs[..i] + [rs[i]];
    Concat(rs[..i], [rs[i]]);
    assert [rs[i]][0] == rs[i];
  }

  /** The loop of `split_around`: the pieces of every region, in order. */
  method Rebuilt(rs: seq<Region>, base: u64, end: int) returns (rebuilt: seq<Region>)
    requires Distinct(rs) && AllValid(rs) && WellFormed(Views(rs)) && Granular(Views(rs))
    requires base < end < TWO_64 && Aligned(base) && Aligned(end)
    ensures Distinct(rebuilt) && AllValid(rebuilt) && fresh(Objects(rebuilt) - Objects(rs))
    ensures WellFormed(old(Views(rs))) && SplitOf(old(Views(rs)), base, end, Views(rebuilt))
  {
    ghost var views := Views(rs);
    rebuilt := [];
    for i := 0 to |rs|
      invariant Distinct(rebuilt) && AllValid(rebuilt)
      invariant fresh(Objects(rebuilt) - Objects(rs[..i]))
      invariant Views(rebuilt) == RegionList.SplitAround(views[..i], base, end)
    {
      SplitAroundStep(views, i, base, end);
      ObjectsPrefix(rs, i);
      rebuilt := rs[i].PushPieces(rebuilt, base, end);
    }
    assert views[..|rs|] == views && rs[..|rs|] == rs;
    SplitIsInvisible(views, base, end);
  }

  /** The `remove_if` of `unmap`: the regions that are not inside the range, in order. */
  method RemovedInside(rs: seq<Region>, lo: u64, hi: int) returns (kept: seq<Region>)
    requires Distinct(rs) && AllValid(rs) && WellFormed(Views(rs)) && Granular(Views(rs)) && Separated(Views(rs), lo, hi)
    ensures Distinct(kept) && AllValid(kept) && Objects(kept) <= Objects(rs)
    ensures WellFormed(Views(kept)) && Granular(Views(kept))
    ensures WellFormed(Views(rs)) && Flatten(Views(kept)) == Without(Flatten(Views(rs)), lo, hi)
  {
    ghost var views := Views(rs);
    kept := [];
    for i := 0 to |rs|
      invariant Distinct(kept) && AllValid(kept) && Objects(kept) <= Objects(rs[..i])
      invariant Views(kept) == DropInside(views[..i], lo, hi)
    {
      assert views[..i + 1][..i] == views[..i] && views[..i + 1][i] == rs[i].View();
      ObjectsPrefix(rs, i);
      if !(rs[i].base >= lo && rs[i].End() <= hi) {
        OneObject(rs[i]);
        Concat(kept, [rs[i]]);
        kept := kept + [rs[i]];
      }
    }
    assert views[..|rs|] == views && rs[..|rs|] == rs;
    DropIsOrdered(views, lo, hi);
    DropIsWithout(views, lo, hi);
  }

  /** The loop of `protect`: a new protection for every region inside the range. */
  method SetProtection(rs: seq<Region>, lo: u64, hi: int, prot: Prot)
    requires Distinct(rs) && AllValid(rs) && WellFormed(Views(rs)) && Granular(Views(rs)) && Separated(Views(rs), lo, hi)
    modifies Objects(rs)
    ensures AllValid(rs) && WellFormed(Views(rs)) && Granular(Views(rs))
    ensures WellFormed(old(Views(rs)))
    ensures Flatten(Views(rs)) == Reprotected(Flatten(old(Views(rs))), lo, hi, prot)
  {
    ghost var views := Views(rs);
    ghost var target := ReprotectInside(views, lo, hi, prot);
    for i := 0 to |rs|
      invariant AllValid(rs)
      invariant forall j :: 0 <= j < |rs| ==> rs[j].View() == if j < i then target[j] else views[j]
    {
      if rs[i].base >= lo && rs[i].End() <= hi {
        rs[i].prot := prot;
      }
    }
    assert Views(rs) == target;
    ReprotectIsOrdered(views, lo, hi, prot);
    ReprotectIsReprotected(views, lo, hi, prot);
  }
}
