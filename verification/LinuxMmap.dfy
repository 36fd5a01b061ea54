/** The `mmap` system call: unmap or allocate, map, copy the file in, mark, protect. */
module LinuxMmap {
  import opened Words
  import opened FlatMemory
  import opened GuestMmu
  import opened LinuxSyscalls
  import RegionList

  /** What the host gives for a file mapping: its path, and the bytes `pread` returns or its error. */
  datatype File = File(path: Option<string>, data: Result<seq<u8>>, errno: nat)

  datatype Placement = Anywhere | Fixed | FixedNoReplace

  const READ_WRITE: Prot := {Read, Write}

  function MappingName(file: Option<File>): string {
    if file.Some? && file.value.path.Some? then file.value.path.value else "[mmap]"
  }

  function MappingBacking(file: Option<File>, offset: u64): Backing {
    Backing.Mmap(if file.Some? then file.value.path else None, offset)
  }

  /** The file bytes a mapping gets. */
  function MappingData(file: Option<File>): seq<u8> {
    if file.Some? && file.value.data.Ok? then file.value.data.value else []
  }

  predicate ReadFails(file: Option<File>) {
    file.Some? && file.value.data.Err?
  }

  // ----- is any of it mapped? -----

  /** `guest_range_is_mapped`: probes one address per page, and the last one. */
  method RangeIsMapped(mmu: SoftMmu, a: u64, size: u64) returns (mapped: bool)
    requires mmu.Valid() && Aligned(a) && Aligned(size) && a + size < TWO_64
    ensures mapped <==> !Free(mmu.Flat(), a, size)
  {
    hide SoftMmu.Flat, SoftMmu.Valid, Aligned;
    if size == 0 {
      return false;
    }
    var offset: int := 0;
    ZeroIsAligned();
    while offset < size
      invariant Aligned(offset) && 0 <= offset <= size && Free(mmu.Flat(), a, offset)
    {
      var probe := At(a, offset);
      assert probe == a + offset;
      mapped := mmu.IsMapped(probe, 1);
      ProbeOne(mmu.Flat(), probe);
      if mapped {
        return;
      }
      AlignedSum(a, offset);
      OnePage(offset, size);
      PageIsFree(mmu, probe);
      offset := offset + PAGE_SIZE;
    }
    mapped := mmu.IsMapped(At(a, size - 1), 1);
    ProbeOne(mmu.Flat(), At(a, size - 1));
    assert At(a, size - 1) == a + size - 1;
  }

  lemma ProbeOne(m: Memory, a: u64)
    ensures (forall i :: 0 <= i < 1 ==> At(a, i) in m) <==> a in m
  {
    assert At(a, 0) == a;
  }

  lemma OnePage(offset: int, size: int)
    requires Aligned(offset) && Aligned(size) && offset < size
    ensures Aligned(offset + PAGE_SIZE) && offset + PAGE_SIZE <= size
  {
    hide Aligned;
    PageIsAligned();
    AlignedSum(offset, PAGE_SIZE);
    AlignedApart(offset, size);
  }

  lemma ZeroIsAligned()
    ensures Aligned(0)
  {
  }

  lemma PageIsAligned()
    ensures Aligned(PAGE_SIZE)
  {
  }

  /** Regions consist of whole pages, so a page whose first byte is free is free. */
  lemma PageIsFree(mmu: SoftMmu, page: u64)
    requires mmu.Valid() && Aligned(page) && page !in mmu.Flat()
    ensures Free(mmu.Flat(), page, PAGE_SIZE)
  {
    hide Aligned, SoftMmu.Valid, SoftMmu.Flat;
    forall x | page <= x < page + PAGE_SIZE ensures x !in mmu.Flat() {
      if x in mmu.Flat() {
        PageStartMapped(mmu, page, x);
      }
    }
  }

  lemma PageStartMapped(mmu: SoftMmu, page: u64, x: int)
    requires mmu.Valid() && Aligned(page) && page <= x < page + PAGE_SIZE && x in mmu.Flat()
    ensures page in mmu.Flat()
  {
    hide Aligned, RegionList.Flatten;
    var i := RegionOf(mmu, x);
    var view := Views(mmu.regions)[i];
    AlignedEither(view.base, page);
    RegionList.FlattenCovers(Views(mmu.regions), i, page);
  }

  lemma RegionOf(mmu: SoftMmu, x: int) returns (i: nat)
    requires mmu.Valid() && x in mmu.Flat()
    ensures i < |mmu.regions| && Views(mmu.regions)[i].Covers(x)
  {
    i :| 0 <= i < |Views(mmu.regions)| && Views(mmu.regions)[i].Covers(x);
  }

  /** A page boundary is at or below another, or at least a page above it. */
  lemma AlignedEither(x: int, y: int)
    requires Aligned(x) && Aligned(y)
    ensures x <= y || y + PAGE_SIZE <= x
  {
    hide Aligned;
    if y <= x {
      AlignedApart(y, x);
    }
  }

  // ----- what a mapping contains -----

  function FileCell(a: int, base: int, prot: Prot, name: string, backing: Backing, data: seq<u8>, initialized: bool): Cell {
    Cell(if 0 <= a - base < |data| then data[a - base] else 0, initialized, prot, name, Shifted(backing, a - base))
  }

  /** The file bytes and a zero tail, all of it with one shadow and one protection. */
  function FileCells(base: int, size: nat, prot: Prot, name: string, backing: Backing, data: seq<u8>, initialized: bool): Memory {
    map a | base <= a < base + size :: FileCell(a, base, prot, name, backing, data, initialized)
  }

  lemma StoredFile(m: Memory, base: u64, size: nat, name: string, backing: Backing, data: seq<u8>)
    requires base + size < TWO_64 && |data| <= size
    ensures Store(m + ZeroCells(base, size, READ_WRITE, name, backing), base, Tainted(data, false))
      == Stored(m + FileCells(base, size, READ_WRITE, name, backing, data, true), None)
  {
    hide Shifted, Store, Overwritten;
    var before, bs := m + ZeroCells(base, size, READ_WRITE, name, backing), Tainted(data, false);
    forall i | 0 <= i < |bs| ensures Allowed(before, At(base, i), Write) {
      assert At(base, i) == base + i;
    }
    StoreIsPointwise(before, base, bs);
    OverwrittenFile(m, base, size, name, backing, data, Store(before, base, bs).mem);
  }

  lemma OverwrittenFile(m: Memory, base: u64, size: nat, name: string, backing: Backing, data: seq<u8>, after: Memory)
    requires base + size < TWO_64 && |data| <= size
    requires Overwritten(m + ZeroCells(base, size, READ_WRITE, name, backing), base, Tainted(data, false), after)
    ensures after == m + FileCells(base, size, READ_WRITE, name, backing, data, true)
  {
    hide Shifted, Overwritten, ZeroCells, FileCells, Tainted;
    var before := m + ZeroCells(base, size, READ_WRITE, name, backing);
    var target := m + FileCells(base, size, READ_WRITE, name, backing, data, true);
    OverwrittenKeys(before, base, Tainted(data, false), after);
    SameKeys(base, size, name, backing, data);
    forall a | a in before ensures after[a] == target[a] {
      OverwrittenCell(m, base, size, name, backing, data, after, a);
    }
  }

  lemma OverwrittenKeys(m: Memory, base: u64, bs: seq<ShadowByte>, after: Memory)
    requires Overwritten(m, base, bs, after)
    ensures after.Keys == m.Keys
  {
  }

  lemma SameKeys(base: u64, size: nat, name: string, backing: Backing, data: seq<u8>)
    ensures ZeroCells(base, size, READ_WRITE, name, backing).Keys == FileCells(base, size, READ_WRITE, name, backing, data, true).Keys
  {
    hide Shifted;
  }

  lemma OverwrittenCell(m: Memory, base: u64, size: nat, name: string, backing: Backing, data: seq<u8>, after: Memory, a: int)
    requires base + size < TWO_64 && |data| <= size
    requires Overwritten(m + ZeroCells(base, size, READ_WRITE, name, backing), base, Tainted(data, false), after)
    requires a in m + ZeroCells(base, size, READ_WRITE, name, backing)
    ensures a in after && a in m + FileCells(base, size, READ_WRITE, name, backing, data, true)
      && after[a] == (m + FileCells(base, size, READ_WRITE, name, backing, data, true))[a]
  {
    hide Shifted;
    var bs := Tainted(data, false);
    if base <= a < base + |data| {
      assert At(base, a - base) == a;
    } else {
      forall i | 0 <= i < |bs| ensures a != At(base, i) {}
    }
  }

  lemma MarkedFile(m: Memory, base: u64, size: nat, name: string, backing: Backing, data: seq<u8>)
    requires base + size < TWO_64
    ensures Marked(m + FileCells(base, size, READ_WRITE, name, backing, data, true), base, size, false)
      == Stored(m + FileCells(base, size, READ_WRITE, name, backing, data, false), None)
  {
    hide Shifted, Marked;
    var before := m + FileCells(base, size, READ_WRITE, name, backing, data, true);
    forall i | 0 <= i < size ensures Allowed(before, At(base, i), Read) {
      assert At(base, i) == base + i;
    }
    MarkIsExact(before, base, size, false);
    assert Marked(before, base, size, false).mem == m + FileCells(base, size, READ_WRITE, name, backing, data, false);
  }

  lemma ProtectedFile(m: Memory, base: u64, size: nat, prot: Prot, name: string, backing: Backing, data: seq<u8>, initialized: bool)
    requires Free(m, base, size)
    ensures Reprotected(m + FileCells(base, size, READ_WRITE, name, backing, data, initialized), base, base + size, prot)
      == m + FileCells(base, size, prot, name, backing, data, initialized)
  {
    hide Shifted;
  }

  // ----- mmap -----

  function NewCells(base: u64, size: u64, prot: Prot, file: Option<File>, offset: u64, uninitialized: bool): Memory {
    FileCells(base, size, prot, MappingName(file), MappingBacking(file, offset), MappingData(file), !uninitialized)
  }

  /** m with the range replaced by the mapping. */
  function AfterMmap(m: Memory, base: u64, size: u64, prot: Prot, file: Option<File>, offset: u64, uninitialized: bool): Memory {
    Without(m, base, base + size) + NewCells(base, size, prot, file, offset, uninitialized)
  }

  /** The contents of a mapping, address by address: the file bytes and a zero tail with one shadow and one
      protection, named and backed by the file if there is one; every other address as it was. */
  lemma MmapContents(m: Memory, base: u64, size: u64, prot: Prot, file: Option<File>, offset: u64, uninitialized: bool, a: int)
    ensures var m', data := AfterMmap(m, base, size, prot, file, offset, uninitialized), MappingData(file);
      && (a < base || a >= base + size ==> SameAt(m, m', a))
      && (base <= a < base + size ==>
          a in m' && m'[a].value == (if a < base + |data| then data[a - base] else 0) && m'[a].initialized == !uninitialized
          && m'[a].prot == prot)
      && (base <= a < base + size ==>
        var path := if file.Some? then file.value.path else None;
        && m'[a].name == (if path.Some? then path.value else "[mmap]")
        && m'[a].backing == Backing.Mmap(path, (offset + (a - base)) % TWO_64))
  {
    hide Wrap;
    WrapIsModulo(offset + (a - base));
  }

  /** The outcome and the memory m' of `mmap` from memory m and the allocation cursor. */
  ghost predicate MmapSpec(
      m: Memory, cursor: u64, a: u64, length: u64, prot: Prot, placement: Placement, file: Option<File>, offset: u64,
      uninitialized: bool, r: Outcome, m': Memory)
  {
    var size := PageAlignUp(length);
    if length == 0 then r == Failed(EINVAL) && m' == m
    else if size == 0 then r.Thrown? && m' == m
    else if placement == FixedNoReplace && !Free(m, PageAlignDown(a), size) then r == Failed(EEXIST) && m' == m
    else if placement.Anywhere? && NoRoom(m, cursor, size) then r.Thrown? && m' == m
    else PlacedSpec(m, cursor, PageAlignDown(a), size, prot, placement, file, offset, uninitialized, r, m')
  }

  /** The mapping is made, at the address asked for or the first fit, unless the file read fails. */
  ghost predicate PlacedSpec(
      m: Memory, cursor: u64, base: u64, size: u64, prot: Prot, placement: Placement, file: Option<File>, offset: u64,
      uninitialized: bool, r: Outcome, m': Memory)
  {
    if ReadFails(file) then
      r == Failed(HostErrno(file.value.errno)) && m' == if placement.Anywhere? then m else Without(m, base, base + size)
    else
      r.Returned? && m' == AfterMmap(m, r.value, size, prot, file, offset, uninitialized)
      && if placement.Anywhere? then FirstFit(m, cursor, size, r.value) else r.value == base
  }

  /** m with the mapping added, or as it was if the file could not be read. */
  ghost predicate Filled(
      m: Memory, base: u64, size: u64, prot: Prot, file: Option<File>, offset: u64, uninitialized: bool, r: Outcome, m': Memory)
  {
    if ReadFails(file) then r == Failed(HostErrno(file.value.errno)) && m' == m
    else r == Returned(base) && m' == m + NewCells(base, size, prot, file, offset, uninitialized)
  }

  /** The steps after the new mapping is in place: copy the file, mark, protect. */
  method FillMapping(mmu: SoftMmu, base: u64, size: u64, prot: Prot, file: Option<File>, offset: u64, uninitialized: bool,
      ghost m: Memory) returns (r: Outcome)
    requires mmu.Valid() && Aligned(base) && Aligned(size) && base + size < TWO_64 && Free(m, base, size)
    requires |MappingData(file)| <= size
    requires mmu.Flat() == m + ZeroCells(base, size, READ_WRITE, MappingName(file), MappingBacking(file, offset))
    modifies mmu`regions, mmu`Repr, mmu.Repr
    ensures mmu.Valid() && fresh(mmu.Repr - old(mmu.Repr))
    ensures Filled(m, base, size, prot, file, offset, uninitialized, r, mmu.Flat())
  {
    hide SoftMmu.Flat, SoftMmu.Valid, ZeroCells, FileCells, Aligned, Store, Marked, Reprotected, Without, Free, Tainted;
    var name, backing, data := MappingName(file), MappingBacking(file, offset), MappingData(file);
    RoundAligned(base);
    RoundAligned(size);
    AlignedBelowTop(size);
    if file.Some? {
      if file.value.data.Err? {
        UnmapFresh(m, base, size, name, backing);
        mmu.Unmap(base, size);
        return Failed(HostErrno(file.value.errno));
      }
      StoredFile(m, base, size, name, backing, data);
      var stored := mmu.WriteWithShadow(base, Tainted(data, false));
    } else {
      ZerosAreEmptyFile(base, size, name, backing);
    }
    assert mmu.Flat() == m + FileCells(base, size, READ_WRITE, name, backing, data, true);
    if uninitialized {
      MarkedFile(m, base, size, name, backing, data);
      var marked := mmu.MarkInitialized(base, size, false);
    }
    ProtectedFile(m, base, size, prot, name, backing, data, !uninitialized);
    mmu.Protect(base, size, prot);
    return Returned(base);
  }

  lemma ZerosAreEmptyFile(base: u64, size: nat, name: string, backing: Backing)
    ensures ZeroCells(base, size, READ_WRITE, name, backing) == FileCells(base, size, READ_WRITE, name, backing, [], true)
  {
    hide Shifted;
  }

  lemma UnmapFresh(m: Memory, base: u64, size: u64, name: string, backing: Backing)
    requires Free(m, base, size)
    ensures Without(m + ZeroCells(base, size, READ_WRITE, name, backing), base, base + size) == m
  {
  }

  lemma RangeCleared(m: Memory, base: u64, size: u64)
    ensures Free(Without(m, base, base + size), base, size)
    ensures Free(m, base, size) ==> Without(m, base, base + size) == m
  {
  }

  method Mmap(mmu: SoftMmu, a: u64, length: u64, prot: Prot, placement: Placement, file: Option<File>, offset: u64,
      uninitialized: bool) returns (r: Outcome)
    requires mmu.Valid() && |MappingData(file)| <= PageAlignUp(length)
    requires !placement.Anywhere? ==> PageAlignDown(a) + PageAlignUp(length) < TWO_64
    modifies mmu, mmu.Repr
    ensures mmu.Valid() && fresh(mmu.Repr - old(mmu.Repr))
    ensures MmapSpec(old(mmu.Flat()), old(mmu.nextAllocation), a, length, prot, placement, file, offset, uninitialized, r, mmu.Flat())
  {
    hide SoftMmu.Flat, SoftMmu.Valid, ZeroCells, FileCells, Aligned, Without, Free, PageAlignUp, PageAlignDown, NoRoom, FirstFit,
      MappingName, MappingBacking, MappingData, ReadFails;
    if length == 0 {
      return Failed(EINVAL);
    }
    ghost var m := mmu.Flat();
    var size := PageAlignUp(length);
    RoundAligned(size);
    if placement.Anywhere? {
      var base := mmu.Allocate(size, READ_WRITE, MappingName(file), MappingBacking(file, offset));
      if base.Err? {
        return Thrown(base.error);
      }
      FitOrNoRoom(m, old(mmu.nextAllocation), size, base.value);
      FirstFitIsFree(m, old(mmu.nextAllocation), size, base.value);
      RangeCleared(m, base.value, size);
      FitIsAligned(m, old(mmu.nextAllocation), size, base.value);
      r := FillMapping(mmu, base.value, size, prot, file, offset, uninitialized, m);
    } else {
      var base := PageAlignDown(a);
      RoundAligned(base);
      if placement.FixedNoReplace? {
        var mapped := RangeIsMapped(mmu, base, size);
        EmptyIsFree(m, base, size);
        if mapped {
          return Failed(EEXIST);
        }
      }
      UnmapAligned(m, base, size);
      mmu.Unmap(base, size);
      RangeCleared(m, base, size);
      EmptyRemoval(m, base, size);
      var error := mmu.MapZeroed(base, size, READ_WRITE, MappingName(file), MappingBacking(file, offset));
      if error.Some? {
        return Thrown(error.value);
      }
      r := FillMapping(mmu, base, size, prot, file, offset, uninitialized, Without(m, base, base + size));
    }
  }

  lemma FitIsAligned(m: Memory, cursor: u64, size: u64, c: u64)
    requires FirstFit(m, cursor, size, c)
    ensures Aligned(c)
  {
  }

  lemma EmptyIsFree(m: Memory, base: u64, size: u64)
    ensures size == 0 ==> Free(m, base, size)
  {
  }

  lemma EmptyRemoval(m: Memory, base: u64, size: u64)
    ensures size == 0 ==> Without(m, base, base + size) == m
  {
  }
}
