/** The specification of guest memory: one cell for every mapped address.

    Every component above the MMU (CPU, signal delivery, heap tracer, stack builder) is
    specified over this map; module `GuestMmu` proves that the region list implements it. */
module FlatMemory {
  import opened Words

  datatype Access = Read | Write | Execute

  /** The `prot` bit mask; `(prot & required) == required` is `required <= prot`. */
  type Prot = set<Access>

  /** What a region is backed by. In a cell, `position` is the cell's own file position. */
  datatype Backing = Simple | Mmap(path: Option<string>, position: u64)

  datatype Cell = Cell(value: u8, initialized: bool, prot: Prot, name: string, backing: Backing)

  type Memory = map<int, Cell>

  /** One byte and whether its shadow is clear (`ValueWithShadow<u8>`). */
  datatype ShadowByte = ShadowByte(value: u8, initialized: bool)

  /** `EmulatorError`, one constructor for each place that throws. */
  datatype Error =
    | Unmapped(address: u64)
    | PermissionFault(address: u64)
    | ZeroBytes
    | MappingOverflow
    | MappingOverlap
    | CopyTooLarge
    | DivideByZero
    | DivideOverflow
    | BadSignalFrame(frame: u64)
    | UnterminatedString
    | BadStackLayout
    | Unsupported

  datatype Result<+T> = Ok(value: T) | Err(error: Error) {
    predicate IsFailure() { Err? }
    function PropagateFailure<U>(): Result<U> requires Err? { Err(error) }
    function Extract(): T requires Ok? { value }
  }

  /** The offset of a cell within a region moves its file position along. */
  function Shifted(backing: Backing, offset: int): Backing {
    match backing
    case Simple => Simple
    case Mmap(path, position) => Mmap(path, Wrap(position + offset))
  }

  // ----- whole ranges -----

  function ZeroCell(a: int, base: int, prot: Prot, name: string, backing: Backing): Cell {
    Cell(0, true, prot, name, Shifted(backing, a - base))
  }

  /** Fresh zero-filled, initialized cells for [base, base + size). */
  function ZeroCells(base: int, size: nat, prot: Prot, name: string, backing: Backing): Memory {
    map a | base <= a < base + size :: ZeroCell(a, base, prot, name, backing)
  }

  predicate Free(m: Memory, base: int, size: int) {
    forall a :: base <= a < base + size ==> a !in m
  }

  /** No page in [from, to) starts a free block of the given size. */
  predicate NoneFree(m: Memory, from: int, to: int, size: int) {
    forall x :: from <= x < to && Aligned(x) ==> !Free(m, x, size)
  }

  /** The block at c is the lowest free one at or above the cursor. */
  predicate FirstFit(m: Memory, from: int, size: int, c: u64) {
    from <= c && c + size < TWO_64 && Aligned(c) && Free(m, c, size) && NoneFree(m, from, c, size)
  }

  /** No page at or above the cursor starts a free block that ends below 2^64. */
  predicate NoRoom(m: Memory, from: int, size: int) {
    NoneFree(m, from, TWO_64 - size, size)
  }

  function Without(m: Memory, lo: int, hi: int): Memory {
    map a | a in m && !(lo <= a < hi) :: m[a]
  }

  function Reprotected(m: Memory, lo: int, hi: int, prot: Prot): Memory {
    map a | a in m :: if lo <= a < hi then m[a].(prot := prot) else m[a]
  }

  /** `unmap`: whole pages, the size rounded up on its own. */
  function AfterUnmap(m: Memory, base: u64, size: u64): Memory {
    Without(m, PageAlignDown(base), PageAlignDown(base) + PageAlignUp(size))
  }

  /** `protect`: the same pages as `unmap`. */
  function AfterProtect(m: Memory, base: u64, size: u64, prot: Prot): Memory {
    Reprotected(m, PageAlignDown(base), PageAlignDown(base) + PageAlignUp(size), prot)
  }

  /** The page range of an unmap or protect stays below the top of the address space. */
  predicate NoWrap(base: u64, size: u64) {
    size <= TWO_64 - PAGE_SIZE && PageAlignDown(base) + PageAlignUp(size) < TWO_64
  }

  lemma EmptyRange(m: Memory, base: u64, prot: Prot)
    ensures AfterUnmap(m, base, 0) == m == AfterProtect(m, base, 0, prot)
  {
    RoundAligned(0);
  }

  /** `ensure_no_overlap` on an aligned range: why a mapping is refused, if it is. */
  function MapError(m: Memory, base: u64, size: u64): Option<Error> {
    if size == 0 then Some(ZeroBytes)
    else if base + size >= TWO_64 then Some(MappingOverflow)
    else if !Free(m, base, size) then Some(MappingOverlap)
    else None
  }

  function BytesError(m: Memory, base: u64, size: u64, length: nat, offset: u64): Option<Error> {
    if MapError(m, base, size).Some? then MapError(m, base, size)
    else if offset > size || length > size - offset then Some(CopyTooLarge)
    else None
  }

  function SourceCell(a: int, base: int, prot: Prot, source: seq<u8>, offset: int, name: string): Cell {
    var i := a - base - offset;
    Cell(if 0 <= i < |source| then source[i] else 0, true, prot, name, Simple)
  }

  /** Cells holding the source bytes at the offset and zeros around them. */
  function ByteCells(base: int, size: nat, prot: Prot, source: seq<u8>, offset: int, name: string): Memory {
    map a | base <= a < base + size :: SourceCell(a, base, prot, source, offset, name)
  }

  // ----- what the whole-range operations do to one address -----

  /** The cell at an offset into a fresh mapping: a file mapping moves its file position along. */
  predicate BackedAt(backing: Backing, offset: int, c: Cell) {
    match backing
    case Simple => c.backing == Simple
    case Mmap(path, position) => c.backing == Mmap(path, (position + offset) % TWO_64)
  }

  /** A fresh mapping is zero and initialized, on exactly its range. */
  lemma FreshCells(base: int, size: nat, prot: Prot, name: string, backing: Backing, a: int)
    ensures var m := ZeroCells(base, size, prot, name, backing);
      && (a in m <==> base <= a < base + size)
      && (a in m ==> m[a].value == 0 && m[a].initialized && m[a].prot == prot && m[a].name == name && BackedAt(backing, a - base, m[a]))
  {
    hide Wrap;
    if backing.Mmap? {
      WrapIsModulo(backing.position + (a - base));
    }
  }

  /** A mapping of given bytes holds them from the offset on, and zeros before and after. */
  lemma FilledCells(base: int, size: nat, prot: Prot, source: seq<u8>, offset: int, name: string, a: int)
    ensures var m := ByteCells(base, size, prot, source, offset, name);
      && (a in m <==> base <= a < base + size)
      && (a in m ==> m[a].initialized && m[a].prot == prot && m[a].name == name && m[a].backing == Simple)
      && (a in m && a < base + offset ==> m[a].value == 0) && (a in m && base + offset + |source| <= a ==> m[a].value == 0)
    ensures forall i :: 0 <= i < |source| && 0 <= offset + i < size ==>
      ByteCells(base, size, prot, source, offset, name)[base + offset + i].value == source[i]
  {
    forall i | 0 <= i < |source| && 0 <= offset + i < size
      ensures ByteCells(base, size, prot, source, offset, name)[base + offset + i].value == source[i]
    {
      assert SourceCell(base + offset + i, base, prot, source, offset, name).value == source[i];
    }
  }

  /** `unmap` removes exactly the whole pages of the range, `protect` changes exactly their protection. */
  lemma UnmapIsPageWise(m: Memory, base: u64, size: u64, prot: Prot, a: int)
    ensures var hit := PageAlignDown(base) <= a < PageAlignDown(base) + PageAlignUp(size);
      && (a in AfterUnmap(m, base, size) <==> a in m && !hit)
      && (a in m && !hit ==> AfterUnmap(m, base, size)[a] == m[a])
      && (a in AfterProtect(m, base, size, prot) <==> a in m)
      && (a in m ==> AfterProtect(m, base, size, prot)[a] == m[a].(prot := if hit then prot else m[a].prot))
  {
    hide PageAlignDown, PageAlignUp;
  }

  /** A mapping is made exactly on a free range of some bytes that does not wrap. */
  lemma MapErrorIsExact(m: Memory, base: u64, size: u64)
    ensures MapError(m, base, size).None? <==> size > 0 && base + size < TWO_64 && forall a :: base <= a < base + size ==> a !in m
    ensures MapError(m, base, size) == Some(ZeroBytes) <==> size == 0
    ensures MapError(m, base, size) == Some(MappingOverflow) <==> size > 0 && base + size >= TWO_64
  {
  }

  /** Source bytes are mapped exactly if the range may be mapped and they fit behind the offset. */
  lemma BytesErrorIsExact(m: Memory, base: u64, size: u64, length: nat, offset: u64)
    ensures BytesError(m, base, size, length, offset).None? <==> MapError(m, base, size).None? && offset + length <= size
    ensures MapError(m, base, size).Some? ==> BytesError(m, base, size, length, offset) == MapError(m, base, size)
    ensures MapError(m, base, size).None? && offset + length > size ==> BytesError(m, base, size, length, offset) == Some(CopyTooLarge)
  {
  }

  // ----- single bytes -----

  /** `region_for`: which error an access raises, if any. */
  function Check(m: Memory, a: u64, required: Access): Option<Error> {
    if a !in m then Some(Unmapped(a))
    else if required !in m[a].prot then Some(PermissionFault(a))
    else None
  }

  /** The address is mapped with that permission. */
  predicate Allowed(m: Memory, a: u64, access: Access) {
    a in m && access in m[a].prot
  }

  /** Why an access that is not allowed faults. */
  function Denial(m: Memory, a: u64): Error {
    if a in m then PermissionFault(a) else Unmapped(a)
  }

  function ByteAt(m: Memory, a: u64): ShadowByte
    requires a in m
  {
    ShadowByte(m[a].value, m[a].initialized)
  }

  function WithByte(c: Cell, b: ShadowByte): Cell {
    c.(value := b.value, initialized := b.initialized)
  }

  function LoadByte(m: Memory, a: u64): Result<ShadowByte> {
    match Check(m, a, Read)
    case Some(e) => Err(e)
    case None => Ok(ByteAt(m, a))
  }

  function StoreByte(m: Memory, a: u64, b: ShadowByte): Result<Memory> {
    match Check(m, a, Write)
    case Some(e) => Err(e)
    case None => Ok(m[a := WithByte(m[a], b)])
  }

  /** A byte is read or written exactly if its page allows it; a write changes that one cell. */
  lemma BytesAreProtected(m: Memory, a: u64, b: ShadowByte)
    ensures if Allowed(m, a, Read) then LoadByte(m, a) == Ok(ShadowByte(m[a].value, m[a].initialized))
      else LoadByte(m, a) == Err(Denial(m, a))
    ensures if Allowed(m, a, Write) then StoreByte(m, a, b) == Ok(m[a := m[a].(value := b.value, initialized := b.initialized)])
      else StoreByte(m, a, b) == Err(Denial(m, a))
  {
  }

  // ----- several bytes, address by address -----

  /** `address + i` in 64 bits. */
  function At(a: u64, i: int): u64 {
    Wrap(a + i)
  }

  function Load(m: Memory, a: u64, n: nat): (r: Result<seq<ShadowByte>>)
    ensures r.Ok? ==> |r.value| == n
    decreases n
  {
    if n == 0 then Ok([]) else
    var b :- LoadByte(m, a);
    var rest :- Load(m, At(a, 1), n - 1);
    Ok([b] + rest)
  }

  function Prefixed(read: seq<ShadowByte>, r: Result<seq<ShadowByte>>): Result<seq<ShadowByte>> {
    match r
    case Ok(rest) => Ok(read + rest)
    case Err(e) => Err(e)
  }

  lemma LoadStart(m: Memory, a: u64, n: nat)
    ensures Prefixed([], Load(m, a, n)) == Load(m, a, n)
  {
    assert Load(m, a, n).Ok? ==> [] + Load(m, a, n).value == Load(m, a, n).value;
  }

  lemma LoadStep(m: Memory, a: u64, n: nat, read: seq<ShadowByte>)
    requires n > 0
    ensures LoadByte(m, a).Ok? ==>
      Prefixed(read, Load(m, a, n)) == Prefixed(read + [LoadByte(m, a).value], Load(m, At(a, 1), n - 1))
    ensures LoadByte(m, a).Err? ==> Load(m, a, n) == Err(LoadByte(m, a).error)
  {
    var next := Load(m, At(a, 1), n - 1);
    if LoadByte(m, a).Ok? && next.Ok? {
      assert read + ([LoadByte(m, a).value] + next.value) == (read + [LoadByte(m, a).value]) + next.value;
    }
  }

  /** The memory a sequence of byte writes leaves behind, also when one of them faults. */
  datatype Stored = Stored(mem: Memory, error: Option<Error>)

  function Store(m: Memory, a: u64, bs: seq<ShadowByte>): Stored
    decreases |bs|
  {
    if |bs| == 0 then Stored(m, None) else
    match StoreByte(m, a, bs[0])
    case Err(e) => Stored(m, Some(e))
    case Ok(m') => Store(m', At(a, 1), bs[1..])
  }

  function Values(bs: seq<ShadowByte>): (vs: seq<u8>)
    ensures |vs| == |bs|
  {
    seq(|bs|, i requires 0 <= i < |bs| => bs[i].value)
  }

  predicate AllInitialized(bs: seq<ShadowByte>) {
    forall i :: 0 <= i < |bs| ==> bs[i].initialized
  }

  /** The bytes of a value whose shadow is all clear or all set. */
  function Tainted(vs: seq<u8>, tainted: bool): (bs: seq<ShadowByte>)
    ensures |bs| == |vs| && Values(bs) == vs
  {
    seq(|vs|, i requires 0 <= i < |vs| => ShadowByte(vs[i], !tainted))
  }

  predicate Accessible(m: Memory, a: u64, n: nat, access: Access) {
    forall i :: 0 <= i < n ==> Allowed(m, At(a, i), access)
  }

  /** The i-th byte is the first the access is not allowed at. */
  predicate FirstDenied(m: Memory, a: u64, n: nat, access: Access, i: nat) {
    i < n && Accessible(m, a, i, access) && !Allowed(m, At(a, i), access)
  }

  lemma AtSteps(a: u64)
    ensures At(a, 0) == a
    ensures forall i {:trigger At(a, i)} :: At(At(a, 1), i - 1) == At(a, i)
    ensures forall i {:trigger At(At(a, 1), i)} :: At(At(a, 1), i) == At(a, i + 1)
    ensures forall i {:trigger At(a, i)} :: 0 < i < TWO_64 ==> At(a, i) != a
  {
    forall i | true ensures At(At(a, 1), i - 1) == At(a, i) && At(At(a, 1), i) == At(a, i + 1) {
      WrapTwice(a + 1, i - 1);
      WrapTwice(a + 1, i);
    }
    forall i | 0 < i < TWO_64 ensures At(a, i) != a {
      WrapOnce(a + i);
    }
  }

  lemma AtStep(a: u64, i: nat)
    ensures At(At(a, i), 1) == At(a, i + 1)
  {
    WrapTwice(a + i, 1);
  }

  lemma AccessibleSteps(m: Memory, a: u64, n: nat, access: Access)
    requires n > 0
    ensures Accessible(m, a, n, access) <==>
      Allowed(m, a, access) && Accessible(m, At(a, 1), n - 1, access)
  {
    AtSteps(a);
    if Allowed(m, a, access) && Accessible(m, At(a, 1), n - 1, access) {
      forall i | 0 <= i < n ensures Allowed(m, At(a, i), access) {
        assert i > 0 ==> At(At(a, 1), i - 1) == At(a, i);
      }
    }
  }

  /** A multi-byte read succeeds exactly when every byte is readable, and returns the cells. */
  lemma {:induction false} LoadIsPointwise(m: Memory, a: u64, n: nat)
    ensures Load(m, a, n).Ok? <==> Accessible(m, a, n, Read)
    ensures Load(m, a, n).Ok? ==>
      forall i :: 0 <= i < n ==> At(a, i) in m && Load(m, a, n).value[i] == ByteAt(m, At(a, i))
    decreases n
  {
    if n > 0 {
      AtSteps(a);
      AccessibleSteps(m, a, n, Read);
      LoadIsPointwise(m, At(a, 1), n - 1);
      if Load(m, a, n).Ok? {
        forall i | 0 <= i < n
          ensures At(a, i) in m && Load(m, a, n).value[i] == ByteAt(m, At(a, i))
        {
          assert i > 0 ==> At(At(a, 1), i - 1) == At(a, i);
        }
      }
    }
  }

  /** The fault of a multi-byte read is that of its first byte that may not be read. */
  lemma {:induction false} LoadFaultsFirst(m: Memory, a: u64, n: nat, i: nat)
    requires FirstDenied(m, a, n, Read, i)
    ensures Load(m, a, n) == Err(Denial(m, At(a, i)))
    decreases n
  {
    AtSteps(a);
    if i > 0 {
      assert Allowed(m, At(a, 0), Read);
      AccessibleSteps(m, a, i, Read);
      LoadFaultsFirst(m, At(a, 1), n - 1, i - 1);
    }
  }

  /** m with the |bs| bytes from address a on replaced. */
  ghost predicate Overwritten(m: Memory, a: u64, bs: seq<ShadowByte>, m': Memory) {
    && m'.Keys == m.Keys
    && (forall i :: 0 <= i < |bs| ==> At(a, i) in m && m'[At(a, i)] == WithByte(m[At(a, i)], bs[i]))
    && (forall x :: x in m && (forall i :: 0 <= i < |bs| ==> x != At(a, i)) ==> m'[x] == m[x])
  }

  /** A multi-byte write succeeds exactly when every byte is writable, and then changes
      exactly those bytes. */
  lemma {:induction false} StoreIsPointwise(m: Memory, a: u64, bs: seq<ShadowByte>)
    requires |bs| <= TWO_64
    ensures Store(m, a, bs).error.None? <==> Accessible(m, a, |bs|, Write)
    ensures Store(m, a, bs).error.None? ==> Overwritten(m, a, bs, Store(m, a, bs).mem)
    decreases |bs|
  {
    if |bs| > 0 {
      AtSteps(a);
      AccessibleSteps(m, a, |bs|, Write);
    }
    if |bs| > 0 && StoreByte(m, a, bs[0]).Ok? {
      var next, m', rest := At(a, 1), StoreByte(m, a, bs[0]).value, bs[1..];
      StoreIsPointwise(m', next, rest);
      forall x: u64 ensures Allowed(m, x, Write) == Allowed(m', x, Write) {}
      var m'' := Store(m', next, rest).mem;
      if Store(m, a, bs).error.None? {
        forall j | 0 <= j < |rest| ensures At(next, j) == At(a, j + 1) && At(next, j) != a {}
        forall i | 0 <= i < |bs|
          ensures At(a, i) in m && m''[At(a, i)] == WithByte(m[At(a, i)], bs[i])
        {
          assert i > 0 ==> At(next, i - 1) == At(a, i) && rest[i - 1] == bs[i];
        }
        forall x | x in m && (forall i :: 0 <= i < |bs| ==> x != At(a, i)) ensures m''[x] == m[x] {
          forall j | 0 <= j < |rest| ensures x != At(next, j) {
            assert At(next, j) == At(a, j + 1);
          }
        }
      }
    }
  }

  /** A multi-byte write faults at its first byte that may not be written, with the bytes before it
      written. */
  lemma {:induction false} StoreFaultsFirst(m: Memory, a: u64, bs: seq<ShadowByte>, i: nat)
    requires FirstDenied(m, a, |bs|, Write, i)
    ensures Store(m, a, bs) == Stored(Store(m, a, bs[..i]).mem, Some(Denial(m, At(a, i))))
    decreases |bs|
  {
    AtSteps(a);
    if i > 0 {
      assert Allowed(m, At(a, 0), Write);
      AccessibleSteps(m, a, i, Write);
      var m' := StoreByte(m, a, bs[0]).value;
      forall x: u64 ensures Allowed(m, x, Write) == Allowed(m', x, Write) && Denial(m, x) == Denial(m', x) {}
      assert bs[..i][1..] == bs[1..][..i - 1];
      StoreFaultsFirst(m', At(a, 1), bs[1..], i - 1);
    }
  }

  /** Writing a value with its shadow and reading it back returns the bytes and, per byte,
      the shadow; nothing else is touched, at any alignment and across any regions. */
  lemma ShadowRoundTrip(m: Memory, a: u64, bs: seq<ShadowByte>)
    requires |bs| <= TWO_64
    requires Accessible(m, a, |bs|, Write) && Accessible(m, a, |bs|, Read)
    ensures Store(m, a, bs).error.None?
    ensures Load(Store(m, a, bs).mem, a, |bs|) == Ok(bs)
    ensures Overwritten(m, a, bs, Store(m, a, bs).mem)
  {
    StoreIsPointwise(m, a, bs);
    var m' := Store(m, a, bs).mem;
    LoadIsPointwise(m', a, |bs|);
    forall i | 0 <= i < |bs| ensures Allowed(m', At(a, i), Read) {
      assert Allowed(m, At(a, i), Read);
    }
    assert Load(m', a, |bs|).value == bs;
  }

  // ----- mark_initialized -----

  /** Setting the shadow of n bytes, one address at a time; needs read permission only. */
  function Marked(m: Memory, a: u64, n: nat, initialized: bool): Stored
    decreases n
  {
    if n == 0 then Stored(m, None) else
    match Check(m, a, Read)
    case Some(e) => Stored(m, Some(e))
    case None => Marked(m[a := m[a].(initialized := initialized)], At(a, 1), n - 1, initialized)
  }

  /** Marking a readable range changes exactly the shadows of that range. */
  lemma {:induction false} MarkIsExact(m: Memory, a: u64, n: nat, initialized: bool)
    requires a + n <= TWO_64 && Accessible(m, a, n, Read)
    ensures Marked(m, a, n, initialized).error.None?
    ensures Marked(m, a, n, initialized).mem
      == map x | x in m :: if a <= x < a + n then m[x].(initialized := initialized) else m[x]
    decreases n
  {
    if n > 0 {
      AtSteps(a);
      AccessibleSteps(m, a, n, Read);
      var m' := m[a := m[a].(initialized := initialized)];
      if n > 1 {
        forall i | 0 <= i < n - 1 ensures Allowed(m', At(At(a, 1), i), Read) {
          assert Allowed(m, At(At(a, 1), i), Read);
        }
        MarkIsExact(m', At(a, 1), n - 1, initialized);
      }
    }
  }

  /** Marking stops at the first byte that may not be read, with the bytes before it marked. */
  lemma {:induction false} MarkFaultsFirst(m: Memory, a: u64, n: nat, initialized: bool, i: nat)
    requires FirstDenied(m, a, n, Read, i)
    ensures Marked(m, a, n, initialized) == Stored(Marked(m, a, i, initialized).mem, Some(Denial(m, At(a, i))))
    decreases n
  {
    AtSteps(a);
    if i > 0 {
      assert Allowed(m, At(a, 0), Read);
      AccessibleSteps(m, a, i, Read);
      var m' := m[a := m[a].(initialized := initialized)];
      forall x: u64 ensures Allowed(m, x, Read) == Allowed(m', x, Read) && Denial(m, x) == Denial(m', x) {}
      MarkFaultsFirst(m', At(a, 1), n - 1, initialized, i - 1);
    }
  }

  /** A read depends on nothing but the cells it names. */
  lemma {:induction false} LoadElsewhere(m: Memory, m': Memory, a: u64, n: nat)
    requires forall i :: 0 <= i < n ==> (At(a, i) in m <==> At(a, i) in m')
    requires forall i :: 0 <= i < n && At(a, i) in m ==> m[At(a, i)] == m'[At(a, i)]
    ensures Load(m, a, n) == Load(m', a, n)
    decreases n
  {
    if n > 0 {
      AtSteps(a);
      assert At(a, 0) in m <==> At(a, 0) in m';
      LoadElsewhere(m, m', At(a, 1), n - 1);
    }
  }
}
