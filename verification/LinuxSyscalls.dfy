/** The `mremap` system call, step by step on the MMU. */
module LinuxSyscalls {
  import opened Words
  import opened FlatMemory
  import opened GuestMmu

  datatype Errno = EINVAL | EFAULT | ENOMEM | EEXIST | HostErrno(code: nat)

  /** A value for the guest, an error number for the guest, or the emulator giving up. */
  datatype Outcome = Returned(value: u64) | Failed(errno: Errno) | Thrown(error: Error)

  datatype RemapFlags = RemapFlags(mayMove: bool, fixed: bool, dontUnmap: bool)

  predicate RangeMapped(m: Memory, a: u64, size: nat) {
    forall i :: 0 <= i < size ==> At(a, i) in m
  }

  /** [p, p + m) and [q, q + n) have an address in common. */
  predicate Overlapping(p: int, m: int, q: int, n: int) {
    p < q + n && p + m > q
  }

  /** The cell a moved block has at address a: the old byte and shadow, or a fresh zero. */
  function MovedCell(m: Memory, a: int, source: u64, size: int, dest: int, prot: Prot, name: string): Cell {
    var blank := ZeroCell(a, dest, prot, name, Mmap(None, 0));
    var from := source + (a - dest);
    if a - dest < size && from in m then blank.(value := m[from].value, initialized := m[from].initialized) else blank
  }

  function MovedCells(m: Memory, source: u64, size: int, dest: int, newSize: nat, prot: Prot, name: string): Memory {
    map a | dest <= a < dest + newSize :: MovedCell(m, a, source, size, dest, prot, name)
  }

  /** Memory after a block was moved: the destination holds the old contents and a zero tail, the
      source is gone unless it is kept, everything else is untouched. */
  function Removed(m: Memory, source: u64, size: nat, keep: bool): Memory {
    if keep then m else Without(m, source, source + size)
  }

  function AfterMove(m: Memory, source: u64, size: u64, dest: u64, newSize: u64, keep: bool): Memory
    requires source in m
  {
    Removed(
      Without(m, dest, dest + newSize) + MovedCells(m, source, size, dest, newSize, m[source].prot, m[source].name),
      source, size, keep)
  }

  /** A move conserves contents, address by address: every kept byte is at the destination with its
      shadow, the grown tail is zero and initialized, the old range is gone unless it is kept, and
      every other address is as it was. */
  lemma MoveConserves(m: Memory, source: u64, size: u64, dest: u64, newSize: u64, keep: bool, a: int)
    requires SourceMapped(m, source, size) && !Overlapping(source, size, dest, newSize)
    requires size == 0 ==> !(dest <= source < dest + newSize)
    ensures var m' := AfterMove(m, source, size, dest, newSize, keep);
      && (dest <= a < dest + Min(size, newSize) ==>
          a in m' && ByteOf(m', a) == ByteOf(m, source + (a - dest)) && m'[a].prot == m[source].prot)
      && (dest + size <= a < dest + newSize ==> a in m' && ByteOf(m', a) == ShadowByte(0, true) && m'[a].prot == m[source].prot)
      && (source <= a < source + size && !keep ==> a !in m')
      && ((source <= a < source + size && keep) || !(InRange(a, dest, newSize) || InRange(a, source, size)) ==>
          SameAt(m, m', a))
      && (dest <= a < dest + newSize ==>
          a in m' && m'[a].name == m[source].name && m'[a].backing == Mmap(None, (a - dest) % TWO_64))
  {
    hide Wrap;
    WrapIsModulo(a - dest);
    var x := source + (a - dest);
    assert dest <= a < dest + size ==> source <= x < source + size && x in m;
  }

  predicate InRange(a: int, base: int, size: int) {
    base <= a < base + size
  }

  predicate SameAt(m: Memory, m': Memory, a: int) {
    (a in m' <==> a in m) && (a in m ==> m'[a] == m[a])
  }

  // ----- the byte copy loop -----

  /** `m` with n bytes copied from source to dest, one byte at a time. */
  function Copied(m: Memory, source: u64, dest: u64, n: nat): Stored
    decreases n
  {
    if n == 0 then Stored(m, None) else
    match LoadByte(m, source)
    case Err(e) => Stored(m, Some(e))
    case Ok(b) =>
      match StoreByte(m, dest, b)
      case Err(e) => Stored(m, Some(e))
      case Ok(m') => Copied(m', At(source, 1), At(dest, 1), n - 1)
  }

  method CopyBytes(mmu: SoftMmu, source: u64, dest: u64, n: nat) returns (error: Option<Error>)
    requires mmu.Valid()
    modifies mmu.Repr
    ensures mmu.Valid() && mmu.Repr == old(mmu.Repr)
    ensures Stored(mmu.Flat(), error) == Copied(old(mmu.Flat()), source, dest, n)
  {
    hide SoftMmu.Flat, SoftMmu.Valid;
    AtSteps(source);
    AtSteps(dest);
    for i := 0 to n
      invariant mmu.Valid() && mmu.Repr == old(mmu.Repr)
      invariant Copied(old(mmu.Flat()), source, dest, n) == Copied(mmu.Flat(), At(source, i), At(dest, i), n - i)
    {
      AtStep(source, i);
      AtStep(dest, i);
      var b := mmu.Read8WithShadow(At(source, i));
      if b.Err? {
        return Some(b.error);
      }
      error := mmu.Write8WithShadow(At(dest, i), b.value);
      if error.Some? {
        return;
      }
    }
    error := None;
  }

  /** The loop succeeds exactly when the source is readable and the destination writable. */
  lemma {:induction false} CopySucceeds(m: Memory, source: u64, dest: u64, n: nat)
    requires source + n < TWO_64 && dest + n < TWO_64
    ensures Copied(m, source, dest, n).error.None? <==> Accessible(m, source, n, Read) && Accessible(m, dest, n, Write)
    decreases n
  {
    hide LoadByte, StoreByte, Accessible, Allowed;
    if n == 0 {
      NothingToAccess(m, source, dest);
    } else {
      AccessibleSteps(m, source, n, Read);
      AccessibleSteps(m, dest, n, Write);
      assert At(source, 1) == source + 1 && At(dest, 1) == dest + 1;
      BytesAreProtected(m, source, ShadowByte(0, true));
      if Allowed(m, source, Read) {
        var b := LoadByte(m, source).value;
        BytesAreProtected(m, dest, b);
        if Allowed(m, dest, Write) {
          StoredAccess(m, dest, b, source + 1, n - 1, Read);
          StoredAccess(m, dest, b, dest + 1, n - 1, Write);
          CopySucceeds(StoreByte(m, dest, b).value, source + 1, dest + 1, n - 1);
        }
      }
    }
  }

  lemma NothingToAccess(m: Memory, source: u64, dest: u64)
    ensures Accessible(m, source, 0, Read) && Accessible(m, dest, 0, Write)
  {
  }

  /** Writing a byte changes no protection. */
  lemma StoredAccess(m: Memory, dest: u64, b: ShadowByte, a: u64, n: nat, access: Access)
    requires Allowed(m, dest, Write)
    ensures Accessible(StoreByte(m, dest, b).value, a, n, access) == Accessible(m, a, n, access)
  {
    var m' := StoreByte(m, dest, b).value;
    forall x: u64 ensures Allowed(m', x, access) == Allowed(m, x, access) {}
  }

  /** Over a source that the destination does not overlap, the loop copies every byte and its
      shadow and changes nothing else. */
  lemma {:induction false} CopyIsExact(m: Memory, source: u64, dest: u64, n: nat)
    requires source + n < TWO_64 && dest + n < TWO_64 && (n == 0 || !Overlapping(source, n, dest, n))
    requires Copied(m, source, dest, n).error.None?
    ensures CopyOf(m, source, dest, n, Copied(m, source, dest, n).mem)
    decreases n
  {
    if n > 0 {
      assert At(source, 1) == source + 1 && At(dest, 1) == dest + 1;
      var m' := StoreByte(m, dest, LoadByte(m, source).value).value;
      CopyIsExact(m', source + 1, dest + 1, n - 1);
      CopyStep(m, source, dest, n, m', Copied(m, source, dest, n).mem);
    }
  }

  lemma CopyStep(m: Memory, source: u64, dest: u64, n: nat, m': Memory, m'': Memory)
    requires n > 0 && source + n < TWO_64 && dest + n < TWO_64 && !Overlapping(source, n, dest, n)
    requires source in m && dest in m && m' == m[dest := WithByte(m[dest], ByteAt(m, source))]
    requires CopyOf(m', source + 1, dest + 1, n - 1, m'')
    ensures CopyOf(m, source, dest, n, m'')
  {
    forall a | a in m ensures m''[a] == CopyCell(m, source, dest, n, a) {
      if dest < a < dest + n {
        assert source + (a - dest) != dest;
        assert ByteOf(m', source + 1 + (a - (dest + 1))) == ByteOf(m, source + (a - dest));
      }
    }
  }

  ghost predicate CopyOf(m: Memory, source: u64, dest: u64, n: nat, m': Memory) {
    && m'.Keys == m.Keys
    && (forall a :: source <= a < source + n ==> a in m)
    && (forall a :: dest <= a < dest + n ==> a in m)
    && (forall a :: a in m ==> m'[a] == CopyCell(m, source, dest, n, a))
  }

  function CopyCell(m: Memory, source: u64, dest: u64, n: nat, a: int): Cell
    requires a in m
  {
    if dest <= a < dest + n then WithByte(m[a], ByteOf(m, source + (a - dest))) else m[a]
  }

  function ByteOf(m: Memory, a: int): ShadowByte {
    if a in m then ShadowByte(m[a].value, m[a].initialized) else ShadowByte(0, true)
  }

  // ----- mremap -----

  ghost predicate SourceMapped(m: Memory, source: u64, size: int) {
    source in m && forall a :: source <= a < source + size ==> a in m
  }

  lemma RangeIsMapped(m: Memory, source: u64, size: nat)
    requires source + size < TWO_64 && RangeMapped(m, source, Max(size, 1))
    ensures SourceMapped(m, source, size)
  {
    assert At(source, 0) == source;
    forall a | source <= a < source + size ensures a in m {
      assert At(source, a - source) == a;
    }
  }

  /** A mapped source and a free destination have no address in common. */
  lemma MappedAndFree(m: Memory, source: u64, size: int, dest: u64, newSize: int)
    requires SourceMapped(m, source, size) && size >= 0 && newSize > 0 && Free(m, dest, newSize)
    ensures size > 0 ==> !Overlapping(source, size, dest, newSize)
  {
    var x := Max(source, dest);
    assert size > 0 && Overlapping(source, size, dest, newSize) ==>
      source <= x < source + size && dest <= x < dest + newSize && x in m;
  }

  /** Mapping fresh cells and then copying into them gives exactly the moved cells. */
  lemma MapThenCopy(m: Memory, source: u64, size: nat, dest: u64, newSize: nat, m': Memory)
    requires SourceMapped(m, source, size) && Free(m, dest, newSize)
    requires CopyOf(m + ZeroCells(dest, newSize, m[source].prot, m[source].name, Mmap(None, 0)), source, dest, Min(size, newSize), m')
    ensures m' == m + MovedCells(m, source, size, dest, newSize, m[source].prot, m[source].name)
  {
    hide Shifted;
    var prot, name := m[source].prot, m[source].name;
    var mapped := m + ZeroCells(dest, newSize, prot, name, Mmap(None, 0));
    var target := m + MovedCells(m, source, size, dest, newSize, prot, name);
    assert target.Keys == mapped.Keys;
    forall a | a in mapped ensures m'[a] == target[a] {
      assert m'[a] == CopyCell(mapped, source, dest, Min(size, newSize), a);
      if dest <= a < dest + newSize {
        assert mapped[a] == ZeroCell(a, dest, prot, name, Mmap(None, 0));
        if a - dest < size {
          assert source + (a - dest) in m;
          assert ByteOf(mapped, source + (a - dest)) == ByteOf(m, source + (a - dest));
        }
      }
    }
  }

  /** Copies the old block into the new mapping and removes the old one. */
  method FinishMove(mmu: SoftMmu, source: u64, size: u64, dest: u64, newSize: u64, keep: bool, ghost m: Memory)
    returns (error: Option<Error>)
    requires mmu.Valid() && Aligned(source) && Aligned(size) && source + size < TWO_64 && dest + newSize < TWO_64
    modifies mmu`regions, mmu`Repr, mmu.Repr
    ensures mmu.Valid() && fresh(mmu.Repr - old(mmu.Repr))
    ensures keep ==> Stored(mmu.Flat(), error) == Copied(old(mmu.Flat()), source, dest, Min(size, newSize))
    ensures Prepared(m, source, size, dest, newSize, old(mmu.Flat())) ==>
      (error.None? <==> CanCopy(m, source, Min(size, newSize)))
    ensures Prepared(m, source, size, dest, newSize, old(mmu.Flat())) && error.None? ==> mmu.Flat() == Removed(
      m + MovedCells(m, source, size, dest, newSize, m[source].prot, m[source].name), source, size, keep)
  {
    hide SoftMmu.Flat, SoftMmu.Valid, ZeroCells, MovedCells, Copied, Without, CanCopy, Accessible, CopyOf, Free;
    var copySize: nat := Min(size, newSize);
    error := CopyBytes(mmu, source, dest, copySize);
    if Prepared(m, source, size, dest, newSize, old(mmu.Flat())) {
      MappedAndFree(m, source, size, dest, newSize);
      FreshIsWritable(m, source, copySize, dest, newSize);
      CopySucceeds(old(mmu.Flat()), source, dest, copySize);
      if error.None? {
        CopyIsExact(old(mmu.Flat()), source, dest, copySize);
        MapThenCopy(m, source, size, dest, newSize, mmu.Flat());
      }
    }
    if error.None? && !keep {
      UnmapAligned(mmu.Flat(), source, size);
      mmu.Unmap(source, size);
    }
  }

  /** The state just before the copy: the new block mapped on addresses that were free. */
  ghost predicate Prepared(m: Memory, source: u64, size: int, dest: u64, newSize: int, mapped: Memory) {
    && newSize > 0 && SourceMapped(m, source, size) && Free(m, dest, newSize)
    && mapped == m + ZeroCells(dest, newSize, m[source].prot, m[source].name, Mmap(None, 0))
  }

  /** What the copy loop needs of the old block: readable, and its first region writable. */
  predicate CanCopy(m: Memory, source: u64, n: nat) {
    n == 0 || (Accessible(m, source, n, Read) && source in m && Write in m[source].prot)
  }

  /** In the new mapping, the copy loop's permission checks come down to the old block's. */
  lemma FreshIsWritable(m: Memory, source: u64, n: nat, dest: u64, newSize: nat)
    requires SourceMapped(m, source, n) && Free(m, dest, newSize) && n <= newSize
    requires source + n < TWO_64 && dest + newSize < TWO_64
    ensures var mapped := m + ZeroCells(dest, newSize, m[source].prot, m[source].name, Mmap(None, 0));
      CanCopy(m, source, n) <==> Accessible(mapped, source, n, Read) && Accessible(mapped, dest, n, Write)
  {
    var mapped := m + ZeroCells(dest, newSize, m[source].prot, m[source].name, Mmap(None, 0));
    forall i | 0 <= i < n ensures Allowed(mapped, At(source, i), Read) == Allowed(m, At(source, i), Read) {
      assert At(source, i) == source + i;
    }
    forall i | 0 <= i < n ensures Allowed(mapped, At(dest, i), Write) <==> Write in m[source].prot {
      assert At(dest, i) == dest + i;
    }
    if n > 0 {
      assert Accessible(mapped, dest, n, Write) ==> Allowed(mapped, At(dest, 0), Write);
    }
  }

  ghost predicate MovedTo(m: Memory, source: u64, size: u64, dest: u64, newSize: u64, keep: bool, r: Outcome, m': Memory) {
    source in m && r == Returned(dest) && m' == AfterMove(m, source, size, dest, newSize, keep)
  }

  /** The outcome of `mremap` and the memory m' it leaves, from memory m and the allocation
      cursor. After a throw the emulator stops. */
  ghost predicate RemapSpec(m: Memory, cursor: u64, source: u64, size: u64, newSize: u64, flags: RemapFlags, dest: u64,
                            r: Outcome, m': Memory)
  {
    if (flags.fixed && !flags.mayMove) || !Aligned(source) then r == Failed(EINVAL) && m' == m
    else if !RangeMapped(m, source, Max(size, 1)) then r == Failed(EFAULT) && m' == m
    else if flags.fixed then FixedSpec(m, source, size, newSize, dest, flags.dontUnmap, r, m')
    else if newSize < size then r == Returned(source) && m' == Without(m, source + newSize, source + size)
    else if newSize == size then r == Returned(source) && m' == m
    else if !flags.mayMove then r == Failed(ENOMEM) && m' == m
    else GrowSpec(m, cursor, source, size, newSize, flags.dontUnmap, r, m')
  }

  /** A MREMAP_DONTUNMAP move onto part of its own source: that part is unmapped first, so the copy
      loop finds zeros there, or bytes it has itself written. */
  ghost predicate OverlapSpec(m: Memory, source: u64, size: u64, newSize: u64, dest: u64, r: Outcome, m': Memory) {
    var cleared := Without(m, dest, dest + newSize);
    if source !in cleared then r == Failed(EFAULT) && m' == cleared
    else if newSize == 0 then r.Thrown?
    else
      var mapped := cleared + ZeroCells(dest, newSize, cleared[source].prot, cleared[source].name, Mmap(None, 0));
      var stored := Copied(mapped, source, dest, Min(size, newSize));
      if stored.error.Some? then r.Thrown? else r == Returned(dest) && m' == stored.mem
  }

  ghost predicate FixedSpec(m: Memory, source: u64, size: u64, newSize: u64, dest: u64, keep: bool, r: Outcome, m': Memory) {
    if Overlapping(dest, newSize, source, size) then
      if keep then OverlapSpec(m, source, size, newSize, dest, r, m') else r == Failed(EINVAL) && m' == m
    else if size == 0 && dest == source && newSize > 0 then r == Failed(EFAULT) && m' == Without(m, dest, dest + newSize)
    else if newSize == 0 || !CanCopy(m, source, Min(size, newSize)) then r.Thrown?
    else MovedTo(m, source, size, dest, newSize, keep, r, m')
  }

  ghost predicate GrowSpec(m: Memory, cursor: u64, source: u64, size: u64, newSize: u64, keep: bool, r: Outcome, m': Memory) {
    if NoRoom(m, cursor, newSize) || !CanCopy(m, source, Min(size, newSize)) then r.Thrown?
    else r.Returned? && FirstFit(m, cursor, newSize, r.value) && MovedTo(m, source, size, r.value, newSize, keep, r, m')
  }

  /** A first fit exists or there is no room, never both. */
  lemma FitOrNoRoom(m: Memory, cursor: u64, size: u64, c: u64)
    requires FirstFit(m, cursor, size, c)
    ensures !NoRoom(m, cursor, size)
  {
  }

  lemma FreeIsUntouched(m: Memory, dest: u64, newSize: u64)
    requires Free(m, dest, newSize)
    ensures Without(m, dest, dest + newSize) == m
  {
  }

  method MoveAnywhere(mmu: SoftMmu, source: u64, size: u64, newSize: u64, keep: bool) returns (r: Outcome)
    requires mmu.Valid() && Aligned(source) && Aligned(size) && Aligned(newSize) && newSize > size
    requires source + size < TWO_64 && SourceMapped(mmu.Flat(), source, size)
    modifies mmu, mmu.Repr
    ensures mmu.Valid() && fresh(mmu.Repr - old(mmu.Repr))
    ensures GrowSpec(old(mmu.Flat()), old(mmu.nextAllocation), source, size, newSize, keep, r, mmu.Flat())
  {
    hide SoftMmu.Flat, SoftMmu.Valid, CanCopy, MovedCells, Without, NoRoom, FirstFit;
    ghost var m := mmu.Flat();
    var region := mmu.FindRegion(source);
    RoundAligned(newSize);
    var dest := mmu.Allocate(newSize, region.prot, region.name, Mmap(None, 0));
    if dest.Err? {
      return Thrown(dest.error);
    }
    FitOrNoRoom(m, old(mmu.nextAllocation), newSize, dest.value);
    FirstFitIsFree(m, old(mmu.nextAllocation), newSize, dest.value);
    FreeIsUntouched(m, dest.value, newSize);
    var error := FinishMove(mmu, source, size, dest.value, newSize, keep, m);
    return if error.Some? then Thrown(error.value) else Returned(dest.value);
  }

  lemma FirstFitIsFree(m: Memory, cursor: u64, size: u64, c: u64)
    requires FirstFit(m, cursor, size, c)
    ensures Free(m, c, size) && c + size < TWO_64
  {
  }

  lemma UnmapAligned(m: Memory, base: u64, size: u64)
    requires Aligned(base) && Aligned(size)
    ensures AfterUnmap(m, base, size) == Without(m, base, base + size)
    ensures base + size < TWO_64 ==> NoWrap(base, size)
  {
    RoundAligned(base);
    RoundAligned(size);
    AlignedBelowTop(size);
  }

  /** The move neither overlaps its source nor lands on an empty source. */
  predicate Clear(source: u64, size: u64, dest: u64, newSize: u64) {
    !Overlapping(dest, newSize, source, size) && (newSize > 0 ==> !(size == 0 && dest == source))
  }

  /** Unmapping a destination clear of the source leaves the source as it was. */
  lemma UnmapKeepsSource(m: Memory, source: u64, size: u64, dest: u64, newSize: u64)
    requires SourceMapped(m, source, size) && source + size < TWO_64
    ensures Free(Without(m, dest, dest + newSize), dest, newSize)
    ensures size == 0 && dest == source && newSize > 0 ==> source !in Without(m, dest, dest + newSize)
    ensures Clear(source, size, dest, newSize) ==>
      source in m && source in Without(m, dest, dest + newSize)
      && SourceMapped(Without(m, dest, dest + newSize), source, size) && Without(m, dest, dest + newSize)[source] == m[source]
    ensures Clear(source, size, dest, newSize) ==>
      forall prot, name :: MovedCells(Without(m, dest, dest + newSize), source, size, dest, newSize, prot, name)
        == MovedCells(m, source, size, dest, newSize, prot, name)
    ensures Clear(source, size, dest, newSize) ==>
      (CanCopy(Without(m, dest, dest + newSize), source, Min(size, newSize)) <==> CanCopy(m, source, Min(size, newSize)))
  {
    var m' := Without(m, dest, dest + newSize);
    if !Clear(source, size, dest, newSize) {
      return;
    }
    forall prot, name ensures MovedCells(m', source, size, dest, newSize, prot, name)
      == MovedCells(m, source, size, dest, newSize, prot, name)
    {
      forall a | dest <= a < dest + newSize
        ensures MovedCell(m', a, source, size, dest, prot, name) == MovedCell(m, a, source, size, dest, prot, name)
      {
        if a - dest < size {
          assert source + (a - dest) in m;
        }
      }
      assert MovedCells(m', source, size, dest, newSize, prot, name)
        == MovedCells(m, source, size, dest, newSize, prot, name);
    }
    forall i | 0 <= i < Min(size, newSize) ensures Allowed(m', At(source, i), Read) == Allowed(m, At(source, i), Read) {
      assert At(source, i) == source + i;
      assert source + i in m;
    }
  }

  method MoveFixed(mmu: SoftMmu, source: u64, size: u64, newSize: u64, dest: u64, keep: bool) returns (r: Outcome)
    requires mmu.Valid() && Aligned(source) && Aligned(size) && Aligned(newSize) && Aligned(dest)
    requires source + size < TWO_64 && dest + newSize < TWO_64 && SourceMapped(mmu.Flat(), source, size)
    modifies mmu`regions, mmu`Repr, mmu.Repr
    ensures mmu.Valid() && fresh(mmu.Repr - old(mmu.Repr))
    ensures FixedSpec(old(mmu.Flat()), source, size, newSize, dest, keep, r, mmu.Flat())
  {
    hide SoftMmu.Flat, SoftMmu.Valid, CanCopy, MovedCells, SourceMapped, Without, ZeroCells, Copied, Free;
    ghost var m := mmu.Flat();
    if !keep && dest < source + size && dest + newSize > source {
      return Failed(EINVAL);
    }
    UnmapAligned(m, dest, newSize);
    mmu.Unmap(dest, newSize);
    ghost var cleared := mmu.Flat();
    UnmapKeepsSource(m, source, size, dest, newSize);
    var region := mmu.FindRegion(source);
    if region == null {
      return Failed(EFAULT);
    }
    RoundAligned(dest);
    RoundAligned(newSize);
    var error := mmu.MapZeroed(dest, newSize, region.prot, region.name, Mmap(None, 0));
    if error.Some? {
      return Thrown(error.value);
    }
    error := FinishMove(mmu, source, size, dest, newSize, keep, cleared);
    return if error.Some? then Thrown(error.value) else Returned(dest);
  }

  /** `mremap`, after argument rounding exactly as the system call does it. */
  method Mremap(mmu: SoftMmu, oldAddr: u64, oldLen: u64, newLen: u64, flags: RemapFlags, newAddr: u64) returns (r: Outcome)
    requires mmu.Valid() && oldLen <= TWO_64 - PAGE_SIZE && newLen <= TWO_64 - PAGE_SIZE
    requires oldAddr + PageAlignUp(oldLen) < TWO_64 && (flags.fixed ==> PageAlignDown(newAddr) + PageAlignUp(newLen) < TWO_64)
    modifies mmu, mmu.Repr
    ensures mmu.Valid() && fresh(mmu.Repr - old(mmu.Repr))
    ensures RemapSpec(old(mmu.Flat()), old(mmu.nextAllocation), oldAddr, PageAlignUp(oldLen), PageAlignUp(newLen),
      flags, PageAlignDown(newAddr), r, mmu.Flat())
  {
    hide SoftMmu.Flat, SoftMmu.Valid, FixedSpec, GrowSpec, PageAlignUp, PageAlignDown, SourceMapped, RangeMapped, Without, Aligned;
    var oldSize, newSize := PageAlignUp(oldLen), PageAlignUp(newLen);
    if flags.fixed && !flags.mayMove {
      return Failed(EINVAL);
    }
    if !Aligned(oldAddr) {
      return Failed(EINVAL);
    }
    var mapped := mmu.IsMapped(oldAddr, Max(oldSize, 1));
    RangeMeans(mmu.Flat(), oldAddr, Max(oldSize, 1));
    if !mapped {
      return Failed(EFAULT);
    }
    RangeIsMapped(mmu.Flat(), oldAddr, oldSize);
    if newSize < oldSize && !flags.fixed {
      var tail := oldAddr as int + newSize as int;
      AlignedSum(oldAddr, newSize);
      AlignedSum(oldSize, newSize);
      UnmapAligned(mmu.Flat(), tail, oldSize - newSize);
      mmu.Unmap(tail, oldSize - newSize);
      return Returned(oldAddr);
    }
    if newSize == oldSize && !flags.fixed {
      return Returned(oldAddr);
    }
    if flags.fixed {
      r := MoveFixed(mmu, oldAddr, oldSize, newSize, PageAlignDown(newAddr), flags.dontUnmap);
    } else if flags.mayMove {
      r := MoveAnywhere(mmu, oldAddr, oldSize, newSize, flags.dontUnmap);
    } else {
      r := Failed(ENOMEM);
    }
  }

  lemma RangeMeans(m: Memory, a: u64, size: nat)
    ensures RangeMapped(m, a, size) <==> forall i :: 0 <= i < size ==> At(a, i) in m
  {
  }
}
