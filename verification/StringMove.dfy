/** MOVS and REP MOVS: an element-by-element, byte-by-byte loop that is memmove exactly when no byte
    changes between being written over and being read. */
module StringMove {
  import opened Words
  import opened FlatMemory
  import opened Registers
  import opened Alu
  import opened Cpu

  const RCX: Reg := 1
  const RSI: Reg := 6
  const RDI: Reg := 7

  /** `write8(destination + b, read8(source + b))` for n bytes; shadows are not carried along. */
  function MoveBytes(m: Memory, destination: u64, source: u64, n: nat): Stored
    decreases n
  {
    if n == 0 then Stored(m, None) else
    match LoadByte(m, source)
    case Err(e) => Stored(m, Some(e))
    case Ok(b) =>
      match StoreByte(m, destination, ShadowByte(b.value, true))
      case Err(e) => Stored(m, Some(e))
      case Ok(m') => MoveBytes(m', At(destination, 1), At(source, 1), n - 1)
  }

  datatype Run = Run(mem: Memory, rsi: u64, rdi: u64, error: Option<Error>)

  /** count elements, RSI and RDI stepping after each; base is the segment base of the source. */
  function MoveElements(m: Memory, rsi: u64, rdi: u64, base: u64, size: nat, step: int, count: nat): Run
    decreases count
  {
    if count == 0 then Run(m, rsi, rdi, None) else
    var moved := MoveBytes(m, rdi, Wrap(rsi + base), size);
    if moved.error.Some? then Run(moved.mem, rsi, rdi, moved.error)
    else MoveElements(moved.mem, Wrap(rsi + step), Wrap(rdi + step), base, size, step, count - 1)
  }

  function Stride(size: nat, back: bool): int {
    if back then -(size as int) else size
  }

  function Step(s: State, size: nat): int {
    Stride(size, Flag(s.rflags, DF))
  }

  function Count(s: State, rep: bool): u64 {
    if rep then s.gpr[RCX] else 1
  }

  /** `execute_string_instruction` for A4 and A5 */
  function ExecuteMovs(s: State, size: nat, rep: bool, segment: Segment): Exec<State> {
    var r := MoveElements(s.mem, s.gpr[RSI], s.gpr[RDI], SegmentBase(s, segment), size, Step(s, size), Count(s, rep));
    if r.error.Some? then Faulted(r.error.value, s.reports) else
    var moved := s.(mem := r.mem, gpr := s.gpr[RSI := r.rsi][RDI := r.rdi]);
    Done(if rep then moved.(gpr := moved.gpr[RCX := 0], shadow := moved.shadow[RCX := 0]) else moved)
  }

  // ----- what a move should do -----

  predicate MayRead(m: Memory, lo: int, hi: int) {
    forall a :: lo <= a < hi ==> a in m && Read in m[a].prot
  }

  predicate MayWrite(m: Memory, lo: int, hi: int) {
    forall a :: lo <= a < hi ==> a in m && Write in m[a].prot
  }

  /** The n bytes from source, as they were, at destination; everything else as it was. */
  ghost predicate IsMemmove(m: Memory, m': Memory, destination: int, source: int, n: nat) {
    && m'.Keys == m.Keys
    && (forall a :: a in m && !(destination <= a < destination + n) ==> m'[a] == m[a])
    && (forall a :: destination <= a < destination + n ==> CopiedFrom(m, m', destination, source, a))
  }

  predicate CopiedFrom(m: Memory, m': Memory, destination: int, source: int, a: int) {
    var from := source + (a - destination);
    a in m && a in m' && from in m && m'[a] == m[a].(value := m[from].value, initialized := true)
  }

  // ----- copying bytes one by one, in some order -----

  predicate MayCopy(m: Memory, destination: int, source: int, i: nat) {
    && source + i in m && Read in m[source + i].prot
    && destination + i in m && Write in m[destination + i].prot
  }

  predicate Fits(m: Memory, destination: int, source: int, order: seq<nat>) {
    forall i :: i in order ==> MayCopy(m, destination, source, i)
  }

  function CopyByte(m: Memory, destination: int, source: int, i: nat): (r: Memory)
    requires MayCopy(m, destination, source, i)
    ensures forall j: nat :: MayCopy(m, destination, source, j) <==> MayCopy(r, destination, source, j)
  {
    m[destination + i := m[destination + i].(value := m[source + i].value, initialized := true)]
  }

  /** The bytes at the offsets in order, copied one after the other. */
  function Pass(m: Memory, destination: int, source: int, order: seq<nat>): (r: Memory)
    requires Fits(m, destination, source, order)
    ensures forall i: nat :: MayCopy(m, destination, source, i) <==> MayCopy(r, destination, source, i)
    decreases |order|
  {
    if order == [] then m else
    assert forall i :: i in order[1..] ==> i in order;
    Pass(CopyByte(m, destination, source, order[0]), destination, source, order[1..])
  }

  lemma NoPass(m: Memory, destination: int, source: int)
    ensures Fits(m, destination, source, []) && Pass(m, destination, source, []) == m
  {
  }

  lemma {:induction false} PassConcat(m: Memory, destination: int, source: int, first: seq<nat>, rest: seq<nat>)
    requires Fits(m, destination, source, first + rest)
    ensures Fits(m, destination, source, first)
    ensures Fits(Pass(m, destination, source, first), destination, source, rest)
    ensures Pass(m, destination, source, first + rest)
      == Pass(Pass(m, destination, source, first), destination, source, rest)
    decreases |first|
  {
    hide MayCopy;
    Parts(m, destination, source, first, rest);
    if first == [] {
      assert first + rest == rest;
    } else {
      assert (first + rest)[1..] == first[1..] + rest;
      assert first[0] in first && forall i :: i in first[1..] + rest ==> i in first + rest;
      PassConcat(CopyByte(m, destination, source, first[0]), destination, source, first[1..], rest);
    }
  }

  lemma Parts(m: Memory, destination: int, source: int, first: seq<nat>, rest: seq<nat>)
    requires Fits(m, destination, source, first + rest)
    ensures Fits(m, destination, source, first) && Fits(m, destination, source, rest)
  {
    hide MayCopy;
    assert forall i :: i in first || i in rest ==> i in first + rest;
  }

  predicate Writes(order: seq<nat>, destination: int, a: int) {
    exists i :: i in order && a == destination + i
  }

  lemma {:induction false} PassKeeps(m: Memory, destination: int, source: int, order: seq<nat>, a: int)
    requires Fits(m, destination, source, order) && !Writes(order, destination, a)
    ensures var r := Pass(m, destination, source, order); (a in m <==> a in r) && (a in m ==> r[a] == m[a])
    decreases |order|
  {
    if order != [] {
      assert order[0] in order;
      assert forall i :: i in order[1..] ==> i in order;
      PassKeeps(CopyByte(m, destination, source, order[0]), destination, source, order[1..], a);
    }
  }

  predicate Distinct(order: seq<nat>) {
    forall i, j :: 0 <= i < j < |order| ==> order[i] != order[j]
  }

  /** Each byte is what its source byte is by the time it is read. */
  lemma PassAt(m: Memory, destination: int, source: int, order: seq<nat>, k: nat)
    requires Fits(m, destination, source, order) && Distinct(order) && k < |order|
    ensures Fits(m, destination, source, order[..k])
    ensures var before, after := Pass(m, destination, source, order[..k]), Pass(m, destination, source, order);
      var from, to := source + order[k], destination + order[k];
      from in before && to in m && to in after && after[to] == m[to].(value := before[from].value, initialized := true)
  {
    var from, to := source + order[k], destination + order[k];
    assert order == order[..k] + ([order[k]] + order[k + 1..]);
    PassConcat(m, destination, source, order[..k], [order[k]] + order[k + 1..]);
    var before := Pass(m, destination, source, order[..k]);
    PassConcat(before, destination, source, [order[k]], order[k + 1..]);
    var next := Pass(before, destination, source, [order[k]]);
    assert order[k] in order && [order[k]][1..] == [];
    PassKeeps(m, destination, source, order[..k], to);
    PassKeeps(next, destination, source, order[k + 1..], to);
  }

  /** Whatever is written over before it is read equals what it is written over with. */
  ghost predicate Undisturbed(m: Memory, destination: int, source: int, order: seq<nat>) {
    forall k, l :: 0 <= k < l < |order| && destination + order[k] == source + order[l]
      ==> SameByte(m, source + order[k], source + order[l])
  }

  predicate SameByte(m: Memory, a: int, b: int) {
    a in m && b in m && m[a].value == m[b].value
  }

  /** What is read at step k: the byte as it was, or what an earlier step has put there. */
  lemma ReadAt(m: Memory, destination: int, source: int, order: seq<nat>, k: nat)
    requires Fits(m, destination, source, order) && Distinct(order) && k < |order|
    ensures Fits(m, destination, source, order[..k]) && source + order[k] in m
    ensures var before, from := Pass(m, destination, source, order[..k]), source + order[k];
      && from in before
      && (forall i :: 0 <= i < k && destination + order[i] == from ==>
           SameByteIn(before, from, Pass(m, destination, source, order), from))
      && (!Writes(order[..k], destination, from) ==> before[from] == m[from])
  {
    assert order[k] in order;
    PassAt(m, destination, source, order, k);
    var from := source + order[k];
    if !Writes(order[..k], destination, from) {
      PassKeeps(m, destination, source, order[..k], from);
    }
    forall i | 0 <= i < k && destination + order[i] == from
      ensures SameByteIn(Pass(m, destination, source, order[..k]), from, Pass(m, destination, source, order), from)
    {
      PassAt(m, destination, source, order, i);
      assert order[..k][..i] == order[..i];
      PassAt(m, destination, source, order[..k], i);
    }
  }

  predicate SameByteIn(m: Memory, a: int, m': Memory, b: int) {
    a in m && b in m' && m[a].value == m'[b].value
  }

  lemma {:induction false} UndisturbedIsRead(m: Memory, destination: int, source: int, order: seq<nat>, k: nat)
    requires Fits(m, destination, source, order) && Distinct(order) && k < |order|
    requires Undisturbed(m, destination, source, order)
    ensures CopiedFrom(m, Pass(m, destination, source, order), destination, source, destination + order[k])
    decreases k
  {
    hide MayCopy;
    PassAt(m, destination, source, order, k);
    ReadAt(m, destination, source, order, k);
    if Writes(order[..k], destination, source + order[k]) {
      var i :| 0 <= i < k && destination + order[i] == source + order[k];
      UndisturbedIsRead(m, destination, source, order, i);
      assert SameByte(m, source + order[i], source + order[k]);
    }
  }

  ghost predicate Covers(order: seq<nat>, lo: nat, hi: nat) {
    forall i: nat :: i in order <==> lo <= i < hi
  }

  /** A pass over n bytes is memmove exactly when it does not disturb its own source. */
  lemma PassIsMemmove(m: Memory, destination: int, source: int, n: nat, order: seq<nat>)
    requires Fits(m, destination, source, order) && Distinct(order) && Covers(order, 0, n)
    ensures IsMemmove(m, Pass(m, destination, source, order), destination, source, n)
      <==> Undisturbed(m, destination, source, order)
  {
    hide Pass, Fits, MayCopy;
    var r := Pass(m, destination, source, order);
    if Undisturbed(m, destination, source, order) {
      OthersKept(m, destination, source, n, order);
      forall a | destination <= a < destination + n ensures CopiedFrom(m, r, destination, source, a) {
        assert a - destination in order;
        var k :| 0 <= k < |order| && order[k] == a - destination;
        UndisturbedIsRead(m, destination, source, order, k);
      }
    }
    if IsMemmove(m, r, destination, source, n) {
      forall k, l | 0 <= k < l < |order| && destination + order[k] == source + order[l]
        ensures SameByte(m, source + order[k], source + order[l])
      {
        MemmoveIsUndisturbed(m, destination, source, n, order, k, l);
      }
    }
  }

  lemma OthersKept(m: Memory, destination: int, source: int, n: nat, order: seq<nat>)
    requires Fits(m, destination, source, order) && Covers(order, 0, n)
    ensures var r := Pass(m, destination, source, order);
      && r.Keys == m.Keys
      && (forall a :: a in m && !(destination <= a < destination + n) ==> r[a] == m[a])
  {
    hide Pass;
    var r := Pass(m, destination, source, order);
    forall a ensures a in r <==> a in m {
      if !Writes(order, destination, a) {
        PassKeeps(m, destination, source, order, a);
      } else {
        assert MayCopy(m, destination, source, a - destination);
      }
    }
    forall a | a in m && !(destination <= a < destination + n) ensures r[a] == m[a] {
      PassKeeps(m, destination, source, order, a);
    }
  }

  lemma MemmoveIsUndisturbed(m: Memory, destination: int, source: int, n: nat, order: seq<nat>, k: nat, l: nat)
    requires Fits(m, destination, source, order) && Distinct(order) && Covers(order, 0, n)
    requires k < l < |order| && destination + order[k] == source + order[l]
    requires IsMemmove(m, Pass(m, destination, source, order), destination, source, n)
    ensures SameByte(m, source + order[k], source + order[l])
  {
    hide Pass, Fits, MayCopy;
    var r := Pass(m, destination, source, order);
    assert order[k] in order && order[l] in order;
    assert CopiedFrom(m, r, destination, source, destination + order[k]);
    assert CopiedFrom(m, r, destination, source, destination + order[l]);
    PassAt(m, destination, source, order, l);
    ReadAt(m, destination, source, order, l);
  }

  // ----- the order of the instruction -----

  function Range(lo: nat, n: nat): (r: seq<nat>) {
    seq(n, i requires 0 <= i => lo + i)
  }

  /** The bytes of count elements. */
  function Total(size: nat, count: nat): nat {
    if count == 0 then 0 else size + Total(size, count - 1)
  }

  lemma {:induction false} TotalIsProduct(size: nat, count: nat)
    ensures Total(size, count) == size * count
  {
    if count > 0 {
      TotalIsProduct(size, count - 1);
    }
  }

  /** Where the first of count elements is, counted from the lowest byte. */
  function First(lo: nat, size: nat, count: nat, back: bool): nat
    requires count > 0
  {
    if back then lo + Total(size, count - 1) else lo
  }

  /** The offsets from lo in the order in which count elements are moved: elements from the bottom up or
      from the top down, the bytes of each always upwards. */
  function Order(lo: nat, size: nat, count: nat, back: bool): seq<nat>
    decreases count
  {
    if count == 0 then [] else
    Range(First(lo, size, count, back), size) + Order(if back then lo else lo + size, size, count - 1, back)
  }

  lemma {:induction false} OrderCovers(lo: nat, size: nat, count: nat, back: bool)
    ensures Covers(Order(lo, size, count, back), lo, lo + Total(size, count)) && Distinct(Order(lo, size, count, back))
    decreases count
  {
    if count > 0 {
      var first := First(lo, size, count, back);
      var next := if back then lo else lo + size;
      OrderCovers(next, size, count - 1, back);
      RangeCovers(first, size);
      Both(Range(first, size), Order(next, size, count - 1, back));
    }
  }

  lemma RangeCovers(lo: nat, n: nat)
    ensures Covers(Range(lo, n), lo, lo + n) && Distinct(Range(lo, n))
  {
    forall i: nat ensures i in Range(lo, n) <==> lo <= i < lo + n {
      if lo <= i < lo + n {
        assert Range(lo, n)[i - lo] == i;
      }
    }
  }

  lemma Both(first: seq<nat>, rest: seq<nat>)
    requires Distinct(first) && Distinct(rest) && (forall i :: i in first ==> i !in rest)
    ensures Distinct(first + rest)
    ensures forall i :: i in first + rest <==> i in first || i in rest
  {
    forall i, j | 0 <= i < j < |first + rest| ensures (first + rest)[i] != (first + rest)[j] {
      if i < |first| <= j {
        assert first[i] in first && rest[j - |first|] in rest;
      }
    }
  }

  lemma {:induction false} BytesArePass(m: Memory, destination: int, source: int, lo: nat, n: nat)
    requires 0 <= destination + lo < TWO_64 && 0 <= source + lo < TWO_64
    requires destination + lo + n <= TWO_64 && source + lo + n <= TWO_64
    requires Fits(m, destination, source, Range(lo, n))
    ensures MoveBytes(m, destination + lo, source + lo, n) == Stored(Pass(m, destination, source, Range(lo, n)), None)
    decreases n
  {
    hide Wrap, CopyByte, MayCopy;
    if n > 0 {
      assert Range(lo, n)[0] == lo && Range(lo, n)[0] in Range(lo, n) && Range(lo, n)[1..] == Range(lo + 1, n - 1);
      OneByte(m, destination, source, lo, n);
      var m1 := CopyByte(m, destination, source, lo);
      assert forall i :: i in Range(lo, n)[1..] ==> i in Range(lo, n);
      if n == 1 {
        NoPass(m1, destination, source);
      } else {
        NoWrapAt(destination + lo + 1);
        NoWrapAt(source + lo + 1);
        BytesArePass(m1, destination, source, lo + 1, n - 1);
      }
    }
  }

  lemma OneByte(m: Memory, destination: int, source: int, lo: nat, n: nat)
    requires 0 <= destination + lo < TWO_64 && 0 <= source + lo < TWO_64 && n > 0
    requires MayCopy(m, destination, source, lo)
    ensures MoveBytes(m, destination + lo, source + lo, n)
      == MoveBytes(CopyByte(m, destination, source, lo), At(destination + lo, 1), At(source + lo, 1), n - 1)
  {
    hide Wrap;
  }

  predicate Starts(destination: int, source: int, rsi: u64, rdi: u64, base: u64, at: nat) {
    rdi == destination + at && Wrap(rsi + base) == source + at
  }

  predicate InRange(destination: int, source: int, lo: nat, n: nat) {
    && 0 <= destination + lo && destination + lo + n <= TWO_64
    && 0 <= source + lo && source + lo + n <= TWO_64
  }

  lemma {:induction false} ElementsArePass(m: Memory, destination: int, source: int, lo: nat,
                                           rsi: u64, rdi: u64, base: u64, size: nat, count: nat, back: bool)
    requires count > 0 ==>
      && InRange(destination, source, lo, Total(size, count))
      && Starts(destination, source, rsi, rdi, base, First(lo, size, count, back))
    requires Fits(m, destination, source, Order(lo, size, count, back))
    ensures var r := MoveElements(m, rsi, rdi, base, size, Stride(size, back), count);
      r.error.None? && r.mem == Pass(m, destination, source, Order(lo, size, count, back))
    decreases count
  {
    hide Wrap, MoveBytes, MayCopy, Pass, Fits;
    if count == 0 {
      NoPass(m, destination, source);
    } else {
      var first := First(lo, size, count, back);
      var next := if back then lo else lo + size;
      var step := Stride(size, back);
      PassConcat(m, destination, source, Range(first, size), Order(next, size, count - 1, back));
      BytesArePass(m, destination, source, first, size);
      if count > 1 {
        NoWrapAt(rdi + step);
        Stepped(rsi, base, step);
      }
      ElementsArePass(MoveBytes(m, rdi, Wrap(rsi + base), size).mem, destination, source, next,
        Wrap(rsi + step), Wrap(rdi + step), base, size, count - 1, back);
    }
  }

  lemma NoWrapAt(x: int)
    requires 0 <= x < TWO_64
    ensures Wrap(x) == x
  {
  }

  lemma Stepped(x: u64, base: u64, step: int)
    requires 0 <= Wrap(x + base) + step < TWO_64
    ensures Wrap(Wrap(x + step) + base) == Wrap(x + base) + step
  {
    hide Wrap;
    WrapTwice(x + step, base);
    WrapTwice(x + base, step);
    NoWrapAt(Wrap(x + base) + step);
  }

  // ----- the whole instruction -----

  /** Where RSI and RDI end: the whole distance from where they started. */
  lemma {:induction false} RunRegisters(m: Memory, rsi: u64, rdi: u64, base: u64, size: nat, back: bool, count: nat)
    ensures var r, far := MoveElements(m, rsi, rdi, base, size, Stride(size, back), count), Stride(Total(size, count), back);
      r.error.None? ==> r.rsi == Wrap(rsi + far) && r.rdi == Wrap(rdi + far)
    decreases count
  {
    hide Wrap, MoveBytes;
    var step := Stride(size, back);
    if count == 0 {
      NoWrapAt(rsi);
      NoWrapAt(rdi);
    } else {
      var moved := MoveBytes(m, rdi, Wrap(rsi + base), size);
      if moved.error.None? {
        var rest := Total(size, count - 1);
        RunRegisters(moved.mem, Wrap(rsi + step), Wrap(rdi + step), base, size, back, count - 1);
        WrapTwice(rsi + step, Stride(rest, back));
        WrapTwice(rdi + step, Stride(rest, back));
      }
    }
  }

  /** RCX elements, or one without REP. */
  function Bytes(s: State, size: nat, rep: bool): nat {
    size * if rep then s.gpr[1] else 1
  }

  /** Both pointers past the end in the direction of the move, and RCX used up. */
  function PastEnd(s: State, n: nat, rep: bool): File {
    var far := Stride(n, Flag(s.rflags, DF));
    var moved := s.gpr[RSI := Wrap(s.gpr[RSI] + far)][RDI := Wrap(s.gpr[RDI] + far)];
    if rep then moved[RCX := 0] else moved
  }

  /** The lowest byte of a move whose first element is at the address. */
  function Lowest(s: State, size: nat, rep: bool, address: u64): int {
    if Flag(s.rflags, DF) then address + size - Bytes(s, size, rep) else address
  }

  function LowestSource(s: State, size: nat, rep: bool, segment: Segment): int {
    Lowest(s, size, rep, Wrap(s.gpr[RSI] + SegmentBase(s, segment)))
  }

  function LowestDestination(s: State, size: nat, rep: bool): int {
    Lowest(s, size, rep, s.gpr[RDI])
  }

  /** Neither range wraps, and both may be accessed. */
  predicate MayMove(s: State, size: nat, rep: bool, segment: Segment) {
    var n: int := Bytes(s, size, rep);
    var source, destination := LowestSource(s, size, rep, segment), LowestDestination(s, size, rep);
    && (Count(s, rep) > 0 ==> InRange(destination, source, 0, n))
    && MayRead(s.mem, source, source + n) && MayWrite(s.mem, destination, destination + n)
  }

  /** The order in which the instruction copies its bytes. */
  function MovsOrder(s: State, size: nat, rep: bool): seq<nat> {
    Order(0, size, Count(s, rep), Flag(s.rflags, DF))
  }

  /** The instruction moves all bytes, and both pointers past them. */
  ghost predicate MovesAll(s: State, size: nat, rep: bool, segment: Segment) {
    var r, n := ExecuteMovs(s, size, rep, segment), Bytes(s, size, rep);
    && r.Done? && r.value.gpr == PastEnd(s, n, rep)
    && IsMemmove(s.mem, r.value.mem, LowestDestination(s, size, rep), LowestSource(s, size, rep, segment), n)
  }

  /** MOVS is one pass over the bytes in the order of its elements. */
  lemma MovsIsPass(s: State, size: nat, rep: bool, segment: Segment)
    requires MayMove(s, size, rep, segment)
    ensures var r, order, n := ExecuteMovs(s, size, rep, segment), MovsOrder(s, size, rep), Bytes(s, size, rep);
      var source, destination := LowestSource(s, size, rep, segment), LowestDestination(s, size, rep);
      && Fits(s.mem, destination, source, order) && Distinct(order) && Covers(order, 0, n)
      && r.Done? && r.value.mem == Pass(s.mem, destination, source, order) && r.value.gpr == PastEnd(s, n, rep)
  {
    hide Wrap, MoveElements, MoveBytes, SegmentBase, Flag, Order, Pass, Distinct;
    var count, back := Count(s, rep), Flag(s.rflags, DF);
    var source, destination := LowestSource(s, size, rep, segment), LowestDestination(s, size, rep);
    TotalIsProduct(size, count);
    OrderCovers(0, size, count, back);
    ElementsArePass(s.mem, destination, source, 0, s.gpr[RSI], s.gpr[RDI], SegmentBase(s, segment), size, count, back);
    RunRegisters(s.mem, s.gpr[RSI], s.gpr[RDI], SegmentBase(s, segment), size, back, count);
  }

  /** Exactly when MOVS is memmove, in either direction and over any overlap. */
  lemma MovsExactly(s: State, size: nat, rep: bool, segment: Segment)
    requires MayMove(s, size, rep, segment)
    ensures MovesAll(s, size, rep, segment)
      <==> Undisturbed(s.mem, LowestDestination(s, size, rep), LowestSource(s, size, rep, segment), MovsOrder(s, size, rep))
  {
    hide ExecuteMovs, MayMove, LowestSource, LowestDestination, MovsOrder, PastEnd, Pass, Undisturbed, IsMemmove;
    var source, destination := LowestSource(s, size, rep, segment), LowestDestination(s, size, rep);
    MovsIsPass(s, size, rep, segment);
    PassIsMemmove(s.mem, destination, source, Bytes(s, size, rep), MovsOrder(s, size, rep));
  }

  // ----- when the direction fits, and when it does not -----

  /** Forward, the destination is at or below the source or past its end; backward, it equals the source,
      ends below it, or starts at least one element above it. */
  predicate DirectionFits(destination: int, source: int, n: nat, size: nat, back: bool) {
    if back then destination == source || destination + n <= source || source + size <= destination
    else destination <= source || source + n <= destination
  }

  /** A later byte lies higher going forward, and less than an element higher going back. */
  lemma {:induction false} OrderSteps(lo: nat, size: nat, count: nat, back: bool, k: nat, l: nat)
    requires k < l < |Order(lo, size, count, back)|
    ensures var order := Order(lo, size, count, back);
      if back then order[l] < order[k] + size else order[k] < order[l]
    decreases count
  {
    hide Total;
    var next := if back then lo else lo + size;
    var rest := Order(next, size, count - 1, back);
    if k >= size {
      OrderSteps(next, size, count - 1, back, k - size, l - size);
    } else if l >= size {
      OrderCovers(next, size, count - 1, back);
      assert Order(lo, size, count, back)[k] == First(lo, size, count, back) + k;
      assert Order(lo, size, count, back)[l] == rest[l - size] && rest[l - size] in rest;
    } else {
      assert Order(lo, size, count, back)[k] == First(lo, size, count, back) + k;
    }
  }

  lemma FittingIsUndisturbed(m: Memory, destination: int, source: int, size: nat, count: nat, back: bool)
    requires DirectionFits(destination, source, Total(size, count), size, back)
    ensures Undisturbed(m, destination, source, Order(0, size, count, back))
  {
    hide Order, Total;
    var order := Order(0, size, count, back);
    OrderCovers(0, size, count, back);
    forall k, l | 0 <= k < l < |order| ensures destination + order[k] != source + order[l]
    {
      OrderSteps(0, size, count, back, k, l);
      assert order[k] in order && order[l] in order;
    }
  }

  /** MOVS is memmove, whatever the bytes are, when its direction fits the overlap. */
  lemma MovsIsMemmove(s: State, size: nat, rep: bool, segment: Segment)
    requires MayMove(s, size, rep, segment)
    requires var source, destination := LowestSource(s, size, rep, segment), LowestDestination(s, size, rep);
      DirectionFits(destination, source, Bytes(s, size, rep), size, Flag(s.rflags, DF))
    ensures MovesAll(s, size, rep, segment)
  {
    hide MovesAll, Lowest, LowestSource, LowestDestination, Order, Flag, Undisturbed, DirectionFits;
    var source, destination := LowestSource(s, size, rep, segment), LowestDestination(s, size, rep);
    TotalIsProduct(size, Count(s, rep));
    FittingIsUndisturbed(s.mem, destination, source, size, Count(s, rep), Flag(s.rflags, DF));
    MovsExactly(s, size, rep, segment);
  }

  /** The byte at offset l of a move that runs over its own source: the bytes between source and
      destination, over and over. */
  predicate FilledFrom(m: Memory, m': Memory, destination: int, source: int, l: nat)
    requires source < destination
  {
    var from := source + l % (destination - source);
    from in m && destination + l in m && destination + l in m'
    && m'[destination + l] == m[destination + l].(value := m[from].value, initialized := true)
  }

  lemma {:induction false} OrderAscends(lo: nat, size: nat, count: nat)
    ensures Order(lo, size, count, false) == Range(lo, Total(size, count))
    decreases count
  {
    if count > 0 {
      OrderAscends(lo + size, size, count - 1);
    }
  }

  lemma {:induction false} PassFills(m: Memory, destination: int, source: int, n: nat, l: nat)
    requires source < destination && Fits(m, destination, source, Range(0, n)) && l < n
    ensures FilledFrom(m, Pass(m, destination, source, Range(0, n)), destination, source, l)
    decreases l
  {
    hide Pass, Fits, MayCopy;
    var period := destination - source;
    RangeCovers(0, n);
    PassAt(m, destination, source, Range(0, n), l);
    ReadAt(m, destination, source, Range(0, n), l);
    if l < period {
      SmallModulo(l, period);
    } else {
      PassFills(m, destination, source, n, l - period);
      OnePeriodBack(l, period);
      assert destination + Range(0, n)[l - period] == source + l;
    }
  }

  lemma OnePeriodBack(x: nat, period: nat)
    requires 0 < period <= x
    ensures x % period == (x - period) % period
  {
    QuotientUnique(x, period, (x - period) / period + 1, (x - period) % period);
  }

  /** Forward MOVS from a lower source repeats the bytes before the destination. */
  lemma MovsFills(s: State, size: nat, rep: bool, segment: Segment, l: nat)
    requires MayMove(s, size, rep, segment) && !Flag(s.rflags, DF) && l < Bytes(s, size, rep)
    requires LowestSource(s, size, rep, segment) < s.gpr[RDI]
    ensures var r := ExecuteMovs(s, size, rep, segment);
      r.Done? && FilledFrom(s.mem, r.value.mem, s.gpr[RDI], LowestSource(s, size, rep, segment), l)
  {
    hide ExecuteMovs, MayMove, LowestSource, Pass, FilledFrom, Flag, Range, Order, Total;
    MovsIsPass(s, size, rep, segment);
    TotalIsProduct(size, Count(s, rep));
    OrderAscends(0, size, Count(s, rep));
    PassFills(s.mem, s.gpr[RDI], LowestSource(s, size, rep, segment), Bytes(s, size, rep), l);
  }
}
