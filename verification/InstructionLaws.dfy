/** What each instruction does to the machine: which value from which operands goes where, with which
    flags, taint and reports, and when it faults. Stated on whole decoded instructions, in terms of
    registers, cells and plain arithmetic. */
module InstructionLaws {
  import opened Words
  import opened FlatMemory
  import opened Registers
  import opened Alu
  import opened Cpu
  import opened MulDiv
  import opened DataOps
  import opened OperationLaws

  // ----- operands -----

  function RegisterOr0(s: State, r: Option<Reg>): u64 {
    match r case Some(r) => s.gpr[r] case None => 0
  }

  /** base + index * scale + displacement, or the next instruction's address + displacement */
  function Offset(s: State, a: Address, next: u64): int {
    if a.ripRelative then next + a.displacement
    else RegisterOr0(s, a.base) + RegisterOr0(s, a.index) * a.scale + a.displacement
  }

  /** The offset, cut to 32 bits if asked to, plus the segment base. */
  function LinearAddress(s: State, a: Address, next: u64): u64 {
    var offset := if a.address32 then Offset(s, a, next) % 0x1_0000_0000 else Offset(s, a, next);
    (offset + match a.segment case NoSegment => 0 case Fs => s.fsBase case Gs => s.gsBase) % TWO_64
  }

  function PlaceOf(s: State, o: Operand, next: u64): Place {
    match o
    case Register(r) => InRegister(r)
    case Memory(a) => InMemory(if a.ripRelative then Offset(s, a, next) % TWO_64 else LinearAddress(s, a, next))
  }

  /** A view of a register; without REX, byte registers 4 to 7 are bits 8 to 15 of registers 0 to 3. */
  function ViewOf(f: File, r: Reg, w: Width, rex: bool): (v: u64)
    ensures v < Modulus(w)
  {
    if w == W8 && !rex && 4 <= r < 8 then f[r - 4] / 256 % 256 else f[r] % Modulus(w)
  }

  function Bytes(m: Memory, a: u64, n: nat): (vs: seq<u8>)
    ensures |vs| == n
  {
    seq(n, i requires 0 <= i => if At(a, i) in m then m[At(a, i)].value else 0)
  }

  /** The value of an operand. */
  function Held(s: State, p: Place, w: Width, rex: bool): (v: u64)
    ensures v < Modulus(w)
  {
    match p
    case InRegister(r) => ViewOf(s.gpr, r, w, rex)
    case InMemory(a) => WordFits(Bytes(s.mem, a, Size(w)), w); FromBytes(Bytes(s.mem, a, Size(w)))
  }

  predicate AnyUndefined(m: Memory, a: u64, n: nat) {
    exists i :: 0 <= i < n && At(a, i) in m && !m[At(a, i)].initialized
  }

  /** Some byte of the operand is undefined. */
  predicate Undefined(s: State, p: Place, w: Width, rex: bool) {
    match p
    case InRegister(r) => ViewOf(s.shadow, r, w, rex) != 0
    case InMemory(a) => AnyUndefined(s.mem, a, Size(w))
  }

  predicate Readable(s: State, p: Place, w: Width) {
    p.InMemory? ==> Accessible(s.mem, p.address, Size(w), Read)
  }

  predicate Writable(s: State, p: Place, w: Width) {
    p.InMemory? ==> Accessible(s.mem, p.address, Size(w), Write)
  }

  predicate ShadowedOr0(s: State, r: Option<Reg>) {
    r.Some? && s.shadow[r.value] != 0
  }

  predicate PointerUndefined(s: State, o: Operand) {
    o.Memory? && !o.address.ripRelative && (ShadowedOr0(s, o.address.base) || ShadowedOr0(s, o.address.index))
  }

  function PointerReports(s: State, o: Operand, next: u64): seq<Report> {
    if PointerUndefined(s, o) then [UninitPointer(LinearAddress(s, o.address, next))] else []
  }

  function ReadReports(s: State, p: Place, w: Width): seq<Report> {
    if p.InMemory? && AnyUndefined(s.mem, p.address, Size(w)) then [UninitRead(p.address)] else []
  }

  // ----- states -----

  function Noted(s: State, undefined: bool, reports: seq<Report>): State {
    s.(taint := s.taint || undefined, reports := s.reports + reports)
  }

  function WithReports(s: State, reports: seq<Report>): State {
    s.(reports := s.reports + reports)
  }

  /** The same machine, but for the scratch taint of the instruction. */
  predicate SameMachine(s: State, s': State) {
    s' == s.(taint := s'.taint)
  }

  /** s' is s with the value in that place, its shadow clear or set as a whole. */
  ghost predicate Puts(s: State, s': State, p: Place, w: Width, rex: bool, v: u64, undefined: bool) {
    v < Modulus(w) &&
    match p
    case InRegister(r) =>
      SameMachine(s.(gpr := Insert(s.gpr, r, w, rex, v),
                     shadow := Insert(s.shadow, r, w, rex, if undefined then Modulus(w) - 1 else 0)), s')
    case InMemory(a) =>
      SameMachine(s.(mem := s'.mem), s') && Overwritten(s.mem, a, Tainted(ToBytes(v, Size(w)), undefined), s'.mem)
  }

  // ----- operand access -----

  lemma AddressIs(s: State, a: Address, next: u64)
    ensures DecodedAddress(s, a, next) == LinearAddress(s, a, next)
    ensures EffectiveAddress(s, a, next) == if a.ripRelative then Offset(s, a, next) % TWO_64 else LinearAddress(s, a, next)
  {
    hide Wrap, Truncate, AddressTainted;
    var offset := Offset(s, a, next);
    assert a.index.None? ==> RegisterOr0(s, a.index) * a.scale == 0;
    WrapIsModulo(offset);
    LowIsModulo(offset);
    LowTruncated(offset, W32);
    var cut: int := if a.address32 then Truncate(Wrap(offset), W32) else Wrap(offset);
    var base: int := SegmentBase(s, a.segment);
    WrapIsModulo(cut + base);
    if !a.address32 {
      SumModulo(offset, base);
    }
  }

  lemma SumModulo(x: int, y: int)
    ensures (x % TWO_64 + y) % TWO_64 == (x + y) % TWO_64
  {
    var q, z := x / TWO_64, x % TWO_64 + y;
    assert x == q * TWO_64 + x % TWO_64;
    assert x + y == (z / TWO_64 + q) * TWO_64 + z % TWO_64;
    QuotientUnique(x + y, TWO_64, z / TWO_64 + q, z % TWO_64);
  }

  /** Address decoding: the place, and taint and a report exactly for an undefined base or index. */
  lemma LocateMeans(s: State, o: Operand, next: u64)
    ensures Locate(s, o, next) == (Noted(s, PointerUndefined(s, o), PointerReports(s, o, next)), PlaceOf(s, o, next))
  {
    hide DecodedAddress, EffectiveAddress, LinearAddress, Offset;
    if o.Memory? {
      AddressIs(s, o.address, next);
    }
    assert s.reports + [] == s.reports;
  }

  /** An operand read: possible exactly if every byte may be read; a memory read reports exactly if
      some byte is undefined. */
  lemma ReadMeans(s: State, p: Place, w: Width, rex: bool)
    ensures ReadOperand(s, p, w, rex).Done? <==> Readable(s, p, w)
    ensures Readable(s, p, w) ==>
      ReadOperand(s, p, w, rex).value == (Noted(s, Undefined(s, p, w, rex), ReadReports(s, p, w)), Held(s, p, w, rex))
  {
    hide Load, FromBytes, Accessible, Modulus;
    assert s.reports + [] == s.reports;
    match p
    case InRegister(r) => ViewIs(s, r, w, rex);
    case InMemory(a) =>
      LoadIsPointwise(s.mem, a, Size(w));
      if Load(s.mem, a, Size(w)).Ok? {
        assert Values(Load(s.mem, a, Size(w)).value) == Bytes(s.mem, a, Size(w));
      }
  }

  lemma ViewIs(s: State, r: Reg, w: Width, rex: bool)
    ensures Extract(s.gpr, r, w, rex) == ViewOf(s.gpr, r, w, rex)
    ensures Extract(s.shadow, r, w, rex) == ViewOf(s.shadow, r, w, rex)
  {
  }

  lemma WriteMeans(s: State, p: Place, w: Width, rex: bool, v: u64)
    ensures WriteOperand(s, p, w, rex, v).Done? <==> Writable(s, p, w)
    ensures Writable(s, p, w) ==> Puts(s, WriteOperand(s, p, w, rex, v).value, p, w, rex, v % Modulus(w), s.taint)
  {
    hide Store, Insert, Accessible, Overwritten, ToBytes;
    if p.InMemory? {
      StoreIsPointwise(s.mem, p.address, Tainted(ToBytes(Truncate(v, w), Size(w)), s.taint));
    }
  }

  /** Taint and reports do not show in operands. */
  lemma NotedSees(s: State, undefined: bool, reports: seq<Report>, o: Operand, p: Place, w: Width, rex: bool, next: u64)
    ensures var t := Noted(s, undefined, reports);
      && PlaceOf(t, o, next) == PlaceOf(s, o, next) && PointerUndefined(t, o) == PointerUndefined(s, o)
      && PointerReports(t, o, next) == PointerReports(s, o, next)
      && Held(t, p, w, rex) == Held(s, p, w, rex) && Undefined(t, p, w, rex) == Undefined(s, p, w, rex)
      && ReadReports(t, p, w) == ReadReports(s, p, w) && Readable(t, p, w) == Readable(s, p, w)
      && Writable(t, p, w) == Writable(s, p, w)
  {
    hide Bytes, ViewOf, AnyUndefined, Accessible, FromBytes;
  }

  /** What was put in a place is what the place holds. */
  lemma PutsThenHeld(s: State, s': State, p: Place, w: Width, rex: bool, v: u64, undefined: bool)
    requires Puts(s, s', p, w, rex, v, undefined)
    ensures Held(s', p, w, rex) == v && Undefined(s', p, w, rex) == undefined
  {
    hide Insert, Extract, FromBytes, ToBytes, Overwritten, ViewOf, Modulus;
    match p
    case InRegister(r) =>
      ViewIs(s', r, w, rex);
      InsertThenExtract(s.gpr, r, w, rex, v);
      InsertThenExtract(s.shadow, r, w, rex, if undefined then Modulus(w) - 1 else 0);
    case InMemory(a) =>
      OverwrittenBytes(s.mem, a, Tainted(ToBytes(v, Size(w)), undefined), s'.mem);
      PowerOfSize(w);
      ValueOfBytes(v, Size(w));
      assert AnyUndefined(s'.mem, a, Size(w)) == undefined by {
        assert undefined ==> At(a, 0) in s'.mem && !s'.mem[At(a, 0)].initialized;
      }
  }

  lemma OverwrittenBytes(m: Memory, a: u64, bs: seq<ShadowByte>, m': Memory)
    requires Overwritten(m, a, bs, m')
    ensures Bytes(m', a, |bs|) == Values(bs)
    ensures forall i :: 0 <= i < |bs| ==> At(a, i) in m' && m'[At(a, i)].initialized == bs[i].initialized
  {
  }

  // ----- one operand -----

  /** The operand, or the way to it, is undefined. */
  predicate Tainting(s: State, o: Operand, w: Width, rex: bool, next: u64) {
    PointerUndefined(s, o) || Undefined(s, PlaceOf(s, o, next), w, rex)
  }

  /** The machine once the operand has been read: nothing but the reports. */
  function Seen(s: State, o: Operand, w: Width, next: u64): State {
    WithReports(s, PointerReports(s, o, next) + ReadReports(s, PlaceOf(s, o, next), w))
  }

  lemma OneRead(s: State, o: Operand, w: Width, rex: bool, next: u64)
    ensures var (s1, p) := Locate(s, o, next);
      && p == PlaceOf(s, o, next) && (ReadOperand(s1, p, w, rex).Done? <==> Readable(s, p, w))
      && Writable(s1, p, w) == Writable(s, p, w)
      && var s2 := Seen(s, o, w, next).(taint := s.taint || Tainting(s, o, w, rex, next));
      Readable(s, p, w) ==> ReadOperand(s1, p, w, rex).value == (s2, Held(s, p, w, rex))
  {
    hide Locate, ReadOperand, PlaceOf, Held, Undefined, PointerUndefined, PointerReports, ReadReports, Readable, Writable;
    var p := PlaceOf(s, o, next);
    LocateMeans(s, o, next);
    var s1 := Noted(s, PointerUndefined(s, o), PointerReports(s, o, next));
    NotedSees(s, PointerUndefined(s, o), PointerReports(s, o, next), o, p, w, rex, next);
    ReadMeans(s1, p, w, rex);
    assert s.reports + PointerReports(s, o, next) + ReadReports(s, p, w)
      == s.reports + (PointerReports(s, o, next) + ReadReports(s, p, w));
  }

  lemma TaintAside(s: State, s': State, taint: bool, p: Place, w: Width, rex: bool, v: u64, undefined: bool)
    requires Puts(s.(taint := taint), s', p, w, rex, v, undefined)
    ensures Puts(s, s', p, w, rex, v, undefined)
  {
    hide Insert, Overwritten;
  }

  /** A write after one read, with or without new flags. */
  lemma WriteAfter(s: State, undefined: bool, f: u64, flagsTainted: bool, p: Place, w: Width, rex: bool, v: u64)
    ensures var r := WriteOperand(s.(taint := undefined, rflags := f, flagsTainted := flagsTainted), p, w, rex, v);
      && (r.Done? <==> Writable(s, p, w))
      && (r.Done? ==> Puts(s.(rflags := f, flagsTainted := flagsTainted), r.value, p, w, rex, v % Modulus(w), undefined))
  {
    hide WriteOperand, Insert, Overwritten, Puts;
    var s1 := s.(taint := undefined, rflags := f, flagsTainted := flagsTainted);
    WriteMeans(s1, p, w, rex, v);
    if Writable(s, p, w) {
      TaintAside(s.(rflags := f, flagsTainted := flagsTainted), WriteOperand(s1, p, w, rex, v).value, undefined, p, w, rex,
        v % Modulus(w), undefined);
    }
  }

  /** The flags and their taint change, and nothing else. */
  predicate SetsFlags(s: State, s': State, undefined: bool) {
    SameMachine(s.(rflags := s'.rflags, flagsTainted := undefined), s')
  }

  /** A place takes its new value, and the flags change with it. */
  ghost predicate PutsFlagged(s: State, s': State, p: Place, w: Width, rex: bool, undefined: bool) {
    Puts(s.(rflags := s'.rflags, flagsTainted := undefined), s', p, w, rex, Held(s', p, w, rex), undefined)
  }

  lemma WriteFlagged(s: State, undefined: bool, f: u64, p: Place, w: Width, rex: bool, v: u64)
    ensures var r := WriteOperand(s.(taint := undefined, rflags := f, flagsTainted := undefined), p, w, rex, v);
      && (r.Done? <==> Writable(s, p, w))
      && (r.Done? ==>
        PutsFlagged(s, r.value, p, w, rex, undefined) && r.value.rflags == f && Held(r.value, p, w, rex) == v % Modulus(w))
  {
    hide WriteOperand, Insert, Overwritten, Puts, Held, Modulus;
    WriteAfter(s, undefined, f, undefined, p, w, rex, v);
    if Writable(s, p, w) {
      var s' := WriteOperand(s.(taint := undefined, rflags := f, flagsTainted := undefined), p, w, rex, v).value;
      PutsThenHeld(s.(rflags := f, flagsTainted := undefined), s', p, w, rex, v % Modulus(w), undefined);
      PutsKeepsFlags(s.(rflags := f, flagsTainted := undefined), s', p, w, rex, v % Modulus(w), undefined);
    }
  }

  lemma PutsKeepsFlags(s: State, s': State, p: Place, w: Width, rex: bool, v: u64, undefined: bool)
    requires Puts(s, s', p, w, rex, v, undefined)
    ensures s'.rflags == s.rflags && s'.flagsTainted == s.flagsTainted
  {
    hide Insert, Overwritten;
  }

  lemma SeenSees(s: State, o: Operand, w: Width, next: u64, p: Place)
    ensures var t := Seen(s, o, w, next);
      && t.rflags == s.rflags && t.flagsTainted == s.flagsTainted && t.gpr == s.gpr && t.shadow == s.shadow
      && Writable(t, p, w) == Writable(s, p, w)
  {
    hide PointerReports, ReadReports, PlaceOf, Accessible;
  }

  lemma TruncateIs(v: nat, w: Width)
    ensures Truncate(v, w) == v % Modulus(w)
  {
  }

  // ----- read, change, write back -----

  /** NOT: the complement, no flags. */
  lemma NotLaw(s: State, w: Width, rm: Operand, rex: bool, next: u64)
    ensures var p := PlaceOf(s, rm, next); Perform(s, NotOp(w, rm), rex, next).Done? <==> Readable(s, p, w) && Writable(s, p, w)
    ensures Perform(s, NotOp(w, rm), rex, next).Done? ==>
      var p, s' := PlaceOf(s, rm, next), Perform(s, NotOp(w, rm), rex, next).value;
      var undefined := s.taint || Tainting(s, rm, w, rex, next);
      Puts(Seen(s, rm, w, next), s', p, w, rex, Modulus(w) - 1 - Held(s, p, w, rex), undefined)
  {
    hide Locate, ReadOperand, WriteOperand, PlaceOf, Held, Tainting, Seen, Readable, Writable, Puts, PutsFlagged, SetsFlags,
      SameMachine, Modulus, Truncate;
    OneRead(s, rm, w, rex, next);
    var p, s1 := PlaceOf(s, rm, next), Seen(s, rm, w, next);
    var x, undefined := Held(s, p, w, rex), s.taint || Tainting(s, rm, w, rex, next);
    SeenSees(s, rm, w, next, p);
    WriteAfter(s1, undefined, s1.rflags, s1.flagsTainted, p, w, rex, Not(x));
    ComplementMeans(x, w);
    TruncateIs(Not(x), w);
  }

  /** NEG: 0 - x, with the flags of that difference. */
  lemma NegLaw(s: State, w: Width, rm: Operand, rex: bool, next: u64)
    ensures var p := PlaceOf(s, rm, next); Perform(s, NegOp(w, rm), rex, next).Done? <==> Readable(s, p, w) && Writable(s, p, w)
    ensures Perform(s, NegOp(w, rm), rex, next).Done? ==>
      var p, s' := PlaceOf(s, rm, next), Perform(s, NegOp(w, rm), rex, next).value;
      var undefined := s.taint || Tainting(s, rm, w, rex, next);
      && PutsFlagged(Seen(s, rm, w, next), s', p, w, rex, undefined)
      && IsDifference(0, Held(s, p, w, rex), 0, w, s.rflags, Held(s', p, w, rex), s'.rflags)
  {
    hide Locate, ReadOperand, WriteOperand, PlaceOf, Held, Tainting, Seen, Readable, Writable, Puts, PutsFlagged, SetsFlags,
      SameMachine, Modulus, Truncate, Sub, IsDifference;
    OneRead(s, rm, w, rex, next);
    var p, s1 := PlaceOf(s, rm, next), Seen(s, rm, w, next);
    var x, undefined := Held(s, p, w, rex), s.taint || Tainting(s, rm, w, rex, next);
    var d := Sub(0, x, w, false, s.rflags);
    SeenSees(s, rm, w, next, p);
    WriteFlagged(s1, undefined, d.rflags, p, w, rex, d.value);
    SubIsDifference(0, x, w, false, s.rflags);
    Fits(x, w);
    DifferenceFits(0, x, 0, w, s.rflags, d.value, d.rflags);
  }

  lemma DifferenceFits(x: nat, y: nat, c: nat, w: Width, f: u64, v: nat, f': u64)
    requires IsDifference(x, y, c, w, f, v, f')
    ensures v % Modulus(w) == v
  {
    hide Status, OthersKept, AuxCarry, Modulus;
    SmallModulo(v, Modulus(w));
  }

  /** INC and DEC: one more or less, CF kept. */
  lemma CountLaw(s: State, up: bool, w: Width, rm: Operand, rex: bool, next: u64)
    ensures var p := PlaceOf(s, rm, next);
      Perform(s, Count(up, w, rm), rex, next).Done? <==> Readable(s, p, w) && Writable(s, p, w)
    ensures Perform(s, Count(up, w, rm), rex, next).Done? ==>
      var p, s' := PlaceOf(s, rm, next), Perform(s, Count(up, w, rm), rex, next).value;
      var undefined := s.taint || Tainting(s, rm, w, rex, next);
      && PutsFlagged(Seen(s, rm, w, next), s', p, w, rex, undefined)
      && IsCount(up, Held(s, p, w, rex), w, s.rflags, Held(s', p, w, rex), s'.rflags)
  {
    hide Locate, ReadOperand, WriteOperand, PlaceOf, Held, Tainting, Seen, Readable, Writable, Puts, PutsFlagged, SetsFlags,
      SameMachine, Modulus, Truncate, CountResult, IsCount;
    OneRead(s, rm, w, rex, next);
    var p, s1 := PlaceOf(s, rm, next), Seen(s, rm, w, next);
    var x, undefined := Held(s, p, w, rex), s.taint || Tainting(s, rm, w, rex, next);
    var d := CountResult(if up then Inc(x) else Dec(x), w, s.rflags);
    SeenSees(s, rm, w, next, p);
    WriteFlagged(s1, undefined, d.rflags, p, w, rex, d.value);
    CountMeans(up, x, w, s.rflags);
    CountFits(up, x, w, s.rflags, d.value, d.rflags);
  }

  lemma CountFits(up: bool, x: nat, w: Width, f: u64, v: nat, f': u64)
    requires IsCount(up, x, w, f, v, f')
    ensures v % Modulus(w) == v
  {
    hide Status, OthersKept, AuxCarry, Modulus;
    SmallModulo(v, Modulus(w));
  }

  /** SHL, SHR and SAR: the count is masked with 63; by zero, nothing happens. */
  lemma ShiftLaw(s: State, op: ShiftOp, w: Width, rm: Operand, count: nat, rex: bool, next: u64)
    ensures var p := PlaceOf(s, rm, next);
      Perform(s, Shift(op, w, rm, count), rex, next).Done? <==> count % 64 == 0 || (Readable(s, p, w) && Writable(s, p, w))
    ensures count % 64 == 0 ==>
      SameMachine(WithReports(s, PointerReports(s, rm, next)), Perform(s, Shift(op, w, rm, count), rex, next).value)
    ensures count % 64 != 0 && Perform(s, Shift(op, w, rm, count), rex, next).Done? ==>
      var p, s' := PlaceOf(s, rm, next), Perform(s, Shift(op, w, rm, count), rex, next).value;
      var undefined := s.taint || Tainting(s, rm, w, rex, next);
      && PutsFlagged(Seen(s, rm, w, next), s', p, w, rex, undefined)
      && IsShift(op, Held(s, p, w, rex), w, count % 64, Held(s', p, w, rex))
      && LogicStatus(s.rflags, s'.rflags, Held(s', p, w, rex), w)
  {
    hide Locate, ReadOperand, WriteOperand, PlaceOf, Held, Tainting, Seen, Readable, Writable, Puts, PutsFlagged, SetsFlags,
      Modulus, Truncate, ShiftedBy, LogicFlags, IsShift, LogicStatus, PointerReports, PointerUndefined;
    OneRead(s, rm, w, rex, next);
    LocateMeans(s, rm, next);
    var n := count % 64;
    var p, s1 := PlaceOf(s, rm, next), Seen(s, rm, w, next);
    var x, undefined := Held(s, p, w, rex), s.taint || Tainting(s, rm, w, rex, next);
    var v := ShiftedBy(op, x, w, n);
    SeenSees(s, rm, w, next, p);
    ShiftMeans(op, x, w, n);
    ShiftFits(op, x, w, n);
    LogicFlagsMean(s.rflags, v, w);
    WriteFlagged(s1, undefined, LogicFlags(s.rflags, v, w), p, w, rex, v);
  }

  lemma ShiftFits(op: ShiftOp, x: u64, w: Width, n: nat)
    ensures var v := ShiftedBy(op, x, w, n); v % Modulus(w) == v && Truncate(v, w) == v
  {
    hide Truncate, ShiftedLeft, ShiftedRight, SignExtend, Modulus;
    Fits(ShiftedBy(op, x, w, n), w);
    SmallModulo(ShiftedBy(op, x, w, n), Modulus(w));
  }

  // ----- the eight operations -----

  /** Flags as this operation on these operands leaves them. */
  ghost predicate FlagsMean(op: AluOp, x: nat, y: nat, w: Width, f: u64, f': u64) {
    exists v: u64 :: Means(op, x, y, w, f, v, f')
  }

  lemma MeansFits(op: AluOp, x: u64, y: u64, w: Width, f: u64)
    requires x < Modulus(w)
    ensures Compute(op, x, y, w, f).value % Modulus(w) == Compute(op, x, y, w, f).value
  {
    hide Add, Sub, Logic, And, Or, Xor, Modulus;
    var r := Compute(op, x, y, w, f);
    assert r.value < Modulus(w) by {
      AddIsShort(x, y, w, true, f);
      AddIsShort(x, y, w, false, f);
      LogicIsShort(Or(x, y), w, f);
      LogicIsShort(And(x, y), w, f);
      LogicIsShort(Xor(x, y), w, f);
    }
    SmallModulo(r.value, Modulus(w));
  }

  lemma LogicIsShort(v: u64, w: Width, f: u64)
    ensures Truncate(Logic(v, w, f).value, w) == Logic(v, w, f).value
  {
    hide Truncate, LogicFlags, Modulus;
    Fits(Truncate(v, w), w);
  }

  /** What Finish leaves in the destination and the flags, from the operands read. */
  lemma FinishMeans(s: State, undefined: bool, op: AluOp, w: Width, rex: bool, p: Place, x: u64, y: u64)
    requires x < Modulus(w)
    ensures Finish(s.(taint := undefined), op, w, rex, p, x, y).Done? <==> op == CmpOp || Writable(s, p, w)
    ensures Finish(s.(taint := undefined), op, w, rex, p, x, y).Done? ==>
      var s' := Finish(s.(taint := undefined), op, w, rex, p, x, y).value;
      if op == CmpOp then SetsFlags(s, s', undefined) && FlagsMean(op, x, y % Modulus(w), w, s.rflags, s'.rflags)
      else PutsFlagged(s, s', p, w, rex, undefined) && Means(op, x, y % Modulus(w), w, s.rflags, Held(s', p, w, rex), s'.rflags)
  {
    hide WriteOperand, Held, Writable, PutsFlagged, Modulus, Truncate, Compute, Means;
    var r := Compute(op, x, y, w, s.rflags);
    ComputeMeans(op, x, y, w, s.rflags);
    TruncateIs(y, w);
    MeansFits(op, x, y, w, s.rflags);
    WriteFlagged(s, undefined, r.rflags, p, w, rex, r.value);
  }

  /** ADD, OR, ADC, SBB, AND, SUB, XOR and CMP with an immediate. */
  lemma ImmediateLaw(s: State, op: AluOp, w: Width, d: Operand, value: u64, rex: bool, next: u64)
    ensures var p := PlaceOf(s, d, next);
      Perform(s, ArithmeticImmediate(op, w, d, value), rex, next).Done?
      <==> Readable(s, p, w) && (op == CmpOp || Writable(s, p, w))
    ensures Perform(s, ArithmeticImmediate(op, w, d, value), rex, next).Done? ==>
      var p, s' := PlaceOf(s, d, next), Perform(s, ArithmeticImmediate(op, w, d, value), rex, next).value;
      var x, y, undefined := Held(s, p, w, rex), value % Modulus(w), s.taint || Tainting(s, d, w, rex, next);
      if op == CmpOp then SetsFlags(Seen(s, d, w, next), s', undefined) && FlagsMean(op, x, y, w, s.rflags, s'.rflags)
      else PutsFlagged(Seen(s, d, w, next), s', p, w, rex, undefined) && Means(op, x, y, w, s.rflags, Held(s', p, w, rex), s'.rflags)
  {
    hide Locate, ReadOperand, WriteOperand, PlaceOf, Held, Tainting, Seen, Readable, Writable, Puts, PutsFlagged, SetsFlags,
      SameMachine, Modulus, Truncate, Finish, Means, FlagsMean;
    OneRead(s, d, w, rex, next);
    var p := PlaceOf(s, d, next);
    SeenSees(s, d, w, next, p);
    FinishMeans(Seen(s, d, w, next), s.taint || Tainting(s, d, w, rex, next), op, w, rex, p, Held(s, p, w, rex), value);
  }

  /** The machine once both operands have been located and read. */
  function SeenBoth(s: State, d: Operand, o: Operand, w: Width, next: u64): State {
    WithReports(s, PointerReports(s, d, next) + PointerReports(s, o, next)
      + ReadReports(s, PlaceOf(s, d, next), w) + ReadReports(s, PlaceOf(s, o, next), w))
  }

  lemma TwoLocated(s: State, d: Operand, o: Operand, next: u64)
    ensures var (s1, p) := Locate(s, d, next);
      p == PlaceOf(s, d, next)
      && Locate(s1, o, next) == (Noted(s, PointerUndefined(s, d) || PointerUndefined(s, o),
           PointerReports(s, d, next) + PointerReports(s, o, next)), PlaceOf(s, o, next))
  {
    hide Locate, PlaceOf, PointerUndefined, PointerReports;
    LocateMeans(s, d, next);
    LocateMeans(Noted(s, PointerUndefined(s, d), PointerReports(s, d, next)), o, next);
    NotedSees(s, PointerUndefined(s, d), PointerReports(s, d, next), o, InRegister(0), W8, false, next);
    assert s.reports + PointerReports(s, d, next) + PointerReports(s, o, next)
      == s.reports + (PointerReports(s, d, next) + PointerReports(s, o, next));
  }

  lemma NotedTwice(s: State, b: bool, r: seq<Report>, b': bool, r': seq<Report>)
    ensures Noted(Noted(s, b, r), b', r') == Noted(s, b || b', r + r')
  {
    assert s.reports + r + r' == s.reports + (r + r');
  }

  lemma TwoRead(s: State, d: Operand, o: Operand, w: Width, rex: bool, next: u64)
    ensures var (s1, p) := Locate(s, d, next);
      var (s2, q) := Locate(s1, o, next);
      && p == PlaceOf(s, d, next) && q == PlaceOf(s, o, next)
      && (ReadOperand(s2, p, w, rex).Done? <==> Readable(s, p, w))
      && (Readable(s, p, w) ==>
        var (s3, x) := ReadOperand(s2, p, w, rex).value;
        var s4 := SeenBoth(s, d, o, w, next).(taint := s.taint || Tainting(s, d, w, rex, next) || Tainting(s, o, w, rex, next));
        && x == Held(s, p, w, rex) && (ReadOperand(s3, q, w, rex).Done? <==> Readable(s, q, w))
        && (Readable(s, q, w) ==> ReadOperand(s3, q, w, rex).value == (s4, Held(s, q, w, rex))))
  {
    hide Locate, ReadOperand, PlaceOf, Held, Undefined, PointerUndefined, PointerReports, ReadReports, Readable, Noted;
    var p, q := PlaceOf(s, d, next), PlaceOf(s, o, next);
    var b, r := PointerUndefined(s, d) || PointerUndefined(s, o), PointerReports(s, d, next) + PointerReports(s, o, next);
    TwoLocated(s, d, o, next);
    NotedSees(s, b, r, o, p, w, rex, next);
    ReadMeans(Noted(s, b, r), p, w, rex);
    NotedTwice(s, b, r, Undefined(s, p, w, rex), ReadReports(s, p, w));
    var b1, r1 := b || Undefined(s, p, w, rex), r + ReadReports(s, p, w);
    NotedSees(s, b1, r1, o, q, w, rex, next);
    ReadMeans(Noted(s, b1, r1), q, w, rex);
    NotedTwice(s, b1, r1, Undefined(s, q, w, rex), ReadReports(s, q, w));
    NotedIs(s, b1 || Undefined(s, q, w, rex), r1 + ReadReports(s, q, w));
  }

  lemma NotedIs(s: State, undefined: bool, reports: seq<Report>)
    ensures Noted(s, undefined, reports) == WithReports(s, reports).(taint := s.taint || undefined)
  {
  }

  lemma SeenBothSees(s: State, d: Operand, o: Operand, w: Width, next: u64, p: Place)
    ensures var t := SeenBoth(s, d, o, w, next);
      t.rflags == s.rflags && Writable(t, p, w) == Writable(s, p, w)
  {
    hide PointerReports, ReadReports, PlaceOf, Accessible;
  }

  /** `xor r, r`, `sub r, r` and `cmp r, r`: the result does not depend on r, and is defined. */
  predicate Cancels(op: AluOp, d: Operand, o: Operand) {
    (op == XorOp || op == SubOp || op == CmpOp) && d.Register? && d == o
  }

  /** ADD, OR, ADC, SBB, AND, SUB, XOR and CMP of two operands, destination first. */
  lemma ArithmeticLaw(s: State, op: AluOp, w: Width, d: Operand, o: Operand, rex: bool, next: u64)
    ensures var p, q := PlaceOf(s, d, next), PlaceOf(s, o, next);
      Perform(s, Arithmetic(op, w, d, o), rex, next).Done?
      <==> Readable(s, p, w) && Readable(s, q, w) && (op == CmpOp || Writable(s, p, w))
    ensures Perform(s, Arithmetic(op, w, d, o), rex, next).Done? ==>
      var p, q, s' := PlaceOf(s, d, next), PlaceOf(s, o, next), Perform(s, Arithmetic(op, w, d, o), rex, next).value;
      var x, y, s1 := Held(s, p, w, rex), Held(s, q, w, rex), SeenBoth(s, d, o, w, next);
      var undefined := !Cancels(op, d, o) && (s.taint || Tainting(s, d, w, rex, next) || Tainting(s, o, w, rex, next));
      if op == CmpOp then SetsFlags(s1, s', undefined) && FlagsMean(op, x, y, w, s.rflags, s'.rflags)
      else PutsFlagged(s1, s', p, w, rex, undefined) && Means(op, x, y, w, s.rflags, Held(s', p, w, rex), s'.rflags)
  {
    hide Perform, PlaceOf, Held, Tainting, Readable, Writable, PutsFlagged, SetsFlags, Modulus, SeenBoth, Finish, Means, FlagsMean;
    var p, q := PlaceOf(s, d, next), PlaceOf(s, o, next);
    ArithmeticReads(s, op, w, d, o, rex, next);
    SeenBothSees(s, d, o, w, next, p);
    var undefined := !Cancels(op, d, o) && (s.taint || Tainting(s, d, w, rex, next) || Tainting(s, o, w, rex, next));
    FinishMeans(SeenBoth(s, d, o, w, next), undefined, op, w, rex, p, Held(s, p, w, rex), Held(s, q, w, rex));
    SmallModulo(Held(s, q, w, rex), Modulus(w));
  }

  lemma ArithmeticReads(s: State, op: AluOp, w: Width, d: Operand, o: Operand, rex: bool, next: u64)
    ensures var p, q, r := PlaceOf(s, d, next), PlaceOf(s, o, next), Perform(s, Arithmetic(op, w, d, o), rex, next);
      var undefined := !Cancels(op, d, o) && (s.taint || Tainting(s, d, w, rex, next) || Tainting(s, o, w, rex, next));
      if Readable(s, p, w) && Readable(s, q, w)
      then r == Finish(SeenBoth(s, d, o, w, next).(taint := undefined), op, w, rex, p, Held(s, p, w, rex), Held(s, q, w, rex))
      else r.Faulted?
  {
    hide Locate, ReadOperand, PlaceOf, Held, Tainting, Readable, SeenBoth, Finish, SelfCancelling, Cancels;
    TwoRead(s, d, o, w, rex, next);
    CancelsIs(op, d, o, s, next);
  }

  lemma CancelsIs(op: AluOp, d: Operand, o: Operand, s: State, next: u64)
    ensures SelfCancelling(op, PlaceOf(s, d, next), PlaceOf(s, o, next)) == Cancels(op, d, o)
  {
    hide Offset, LinearAddress;
  }

  // ----- moves -----

  /** The machine once a destination has been located and a source read. */
  function SeenMove(s: State, d: Operand, o: Operand, w: Width, next: u64): State {
    WithReports(s, PointerReports(s, d, next) + PointerReports(s, o, next) + ReadReports(s, PlaceOf(s, o, next), w))
  }

  /** MOV: the value of the source, and whether it is defined. */
  lemma MovLaw(s: State, w: Width, d: Operand, o: Operand, rex: bool, next: u64)
    ensures Perform(s, Mov(w, d, o), rex, next).Done?
      <==> Readable(s, PlaceOf(s, o, next), w) && Writable(s, PlaceOf(s, d, next), w)
    ensures Perform(s, Mov(w, d, o), rex, next).Done? ==>
      var s' := Perform(s, Mov(w, d, o), rex, next).value;
      var undefined := s.taint || PointerUndefined(s, d) || Tainting(s, o, w, rex, next);
      Puts(SeenMove(s, d, o, w, next), s', PlaceOf(s, d, next), w, rex, Held(s, PlaceOf(s, o, next), w, rex), undefined)
  {
    hide Locate, ReadOperand, WriteOperand, PlaceOf, Held, Undefined, PointerUndefined, PointerReports, ReadReports, Readable,
      Writable, Puts, SameMachine, Modulus, Noted;
    var p, q := PlaceOf(s, d, next), PlaceOf(s, o, next);
    var b, r := PointerUndefined(s, d) || PointerUndefined(s, o), PointerReports(s, d, next) + PointerReports(s, o, next);
    TwoLocated(s, d, o, next);
    NotedSees(s, b, r, o, q, w, rex, next);
    ReadMeans(Noted(s, b, r), q, w, rex);
    NotedTwice(s, b, r, Undefined(s, q, w, rex), ReadReports(s, q, w));
    var undefined := b || Undefined(s, q, w, rex);
    NotedIs(s, undefined, r + ReadReports(s, q, w));
    PutAfterReports(s, r + ReadReports(s, q, w), s.taint || undefined, p, w, rex, Held(s, q, w, rex));
  }

  /** Writing a value that fits, after some reports. */
  lemma PutAfterReports(s: State, reports: seq<Report>, undefined: bool, p: Place, w: Width, rex: bool, v: u64)
    requires v < Modulus(w)
    ensures var r, s1 := WriteOperand(WithReports(s, reports).(taint := undefined), p, w, rex, v), WithReports(s, reports);
      (r.Done? <==> Writable(s, p, w)) && (r.Done? ==> Puts(s1, r.value, p, w, rex, v, undefined))
  {
    hide WriteOperand, Puts, Modulus, Accessible;
    var s1 := WithReports(s, reports);
    WriteAfter(s1, undefined, s1.rflags, s1.flagsTainted, p, w, rex, v);
    SmallModulo(v, Modulus(w));
  }

  /** MOV of an immediate. */
  lemma MovImmediateLaw(s: State, w: Width, d: Operand, value: u64, rex: bool, next: u64)
    ensures Perform(s, MovImmediate(w, d, value), rex, next).Done? <==> Writable(s, PlaceOf(s, d, next), w)
    ensures Perform(s, MovImmediate(w, d, value), rex, next).Done? ==>
      var s', s1 := Perform(s, MovImmediate(w, d, value), rex, next).value, WithReports(s, PointerReports(s, d, next));
      Puts(s1, s', PlaceOf(s, d, next), w, rex, value % Modulus(w), s.taint || PointerUndefined(s, d))
  {
    hide Locate, WriteOperand, PlaceOf, PointerUndefined, PointerReports, Writable, Puts, Modulus;
    LocateMeans(s, d, next);
    LocatedWrite(s, d, PlaceOf(s, d, next), w, rex, value, next);
  }

  lemma LocatedWrite(s: State, d: Operand, p: Place, w: Width, rex: bool, value: u64, next: u64)
    ensures var r := WriteOperand(Noted(s, PointerUndefined(s, d), PointerReports(s, d, next)), p, w, rex, value);
      && (r.Done? <==> Writable(s, p, w))
      && (r.Done? ==> Puts(WithReports(s, PointerReports(s, d, next)), r.value, p, w, rex, value % Modulus(w),
           s.taint || PointerUndefined(s, d)))
  {
    hide WriteOperand, PointerUndefined, PointerReports, Puts, Modulus, Accessible;
    var s1 := WithReports(s, PointerReports(s, d, next));
    WriteAfter(s1, s.taint || PointerUndefined(s, d), s1.rflags, s1.flagsTainted, p, w, rex, value);
  }

  /** MOVZX and MOVSX: the unsigned or signed value of the narrow source at the wider width. */
  lemma ExtendLaw(s: State, signed: bool, from: Width, w: Width, r: Reg, o: Operand, rex: bool, next: u64)
    ensures Perform(s, MovExtend(signed, from, w, r, o), rex, next).Done? <==> Readable(s, PlaceOf(s, o, next), from)
    ensures Perform(s, MovExtend(signed, from, w, r, o), rex, next).Done? ==>
      var s', x := Perform(s, MovExtend(signed, from, w, r, o), rex, next).value, Held(s, PlaceOf(s, o, next), from, rex);
      Puts(Seen(s, o, from, next), s', InRegister(r), w, rex, (if signed then Signed(x, from) else x) % Modulus(w),
        s.taint || Tainting(s, o, from, rex, next))
  {
    hide Locate, ReadOperand, WriteGpr, PlaceOf, Held, Tainting, Seen, Readable, Puts, Signed, SignExtend, Modulus, Truncate;
    OneRead(s, o, from, rex, next);
    var x, s1 := Held(s, PlaceOf(s, o, next), from, rex), Seen(s, o, from, next);
    var v := if signed then SignExtend(x, from) else x;
    WriteRegister(s1, s.taint || Tainting(s, o, from, rex, next), r, w, rex, v);
    ExtensionMeans(x, from, w);
    TruncateIs(v, w);
  }

  lemma WriteRegister(s: State, undefined: bool, r: Reg, w: Width, rex: bool, v: u64)
    ensures Puts(s, WriteGpr(s.(taint := undefined), r, w, rex, v), InRegister(r), w, rex, v % Modulus(w), undefined)
  {
    hide Insert;
  }

  /** LEA: the address as decoded, also with its segment base. */
  lemma LeaLaw(s: State, w: Width, r: Reg, a: Address, rex: bool, next: u64)
    ensures var p := Perform(s, Lea(w, r, a), rex, next);
      p.Done? && Puts(WithReports(s, PointerReports(s, Memory(a), next)), p.value, InRegister(r), w, rex,
        LinearAddress(s, a, next) % Modulus(w), s.taint || PointerUndefined(s, Memory(a)))
  {
    hide LinearAddress, DecodedAddress, WriteGpr, Puts, Modulus;
    AddressIs(s, a, next);
    var s1 := WithReports(s, PointerReports(s, Memory(a), next));
    WriteRegister(s1, s.taint || PointerUndefined(s, Memory(a)), r, w, rex, LinearAddress(s, a, next));
    assert s.reports + [] == s.reports;
  }

  /** BSWAP: byte k from byte n - 1 - k. */
  lemma BswapLaw(s: State, w: Width, r: Reg, rex: bool, next: u64, k: nat)
    requires k < Size(w)
    ensures Perform(s, Bswap(w, r), rex, next).Done?
    ensures var s', x := Perform(s, Bswap(w, r), rex, next).value, Held(s, InRegister(r), w, rex);
      var v := Held(s', InRegister(r), w, rex);
      && Puts(s, s', InRegister(r), w, rex, v, s.taint || Undefined(s, InRegister(r), w, rex))
      && ToBytes(v, Size(w))[k] == ToBytes(x, Size(w))[Size(w) - 1 - k]
  {
    hide WriteGpr, Extract, Puts, ToBytes, FromBytes, Swapped, Modulus, ViewOf;
    ViewIs(s, r, w, rex);
    var x, undefined := Held(s, InRegister(r), w, rex), s.taint || Undefined(s, InRegister(r), w, rex);
    var v := Swapped(x, w);
    WriteRegister(s, undefined, r, w, rex, v);
    SwappedFits(x, w);
    SmallModulo(v, Modulus(w));
    PutsThenHeld(s, Perform(s, Bswap(w, r), rex, next).value, InRegister(r), w, rex, v, undefined);
    SwapReverses(x, w, k);
  }

  lemma SwappedFits(x: u64, w: Width)
    ensures Swapped(x, w) < Modulus(w)
  {
    hide ToBytes, FromBytes;
    WordFits(Reversed(ToBytes(x, Size(w))), w);
  }

  /** XCHG: the operand takes the register's value, then the register the operand's. */
  lemma XchgLaw(s: State, w: Width, rm: Operand, g: Reg, rex: bool, next: u64)
    ensures var p := PlaceOf(s, rm, next); Perform(s, Xchg(w, rm, g), rex, next).Done? <==> Readable(s, p, w) && Writable(s, p, w)
    ensures Perform(s, Xchg(w, rm, g), rex, next).Done? ==>
      var p, s' := PlaceOf(s, rm, next), Perform(s, Xchg(w, rm, g), rex, next).value;
      var undefined := s.taint || Tainting(s, rm, w, rex, next) || Undefined(s, InRegister(g), w, rex);
      exists s1 :: Puts(Seen(s, rm, w, next), s1, p, w, rex, Held(s, InRegister(g), w, rex), undefined)
        && Puts(s1, s', InRegister(g), w, rex, Held(s, p, w, rex), undefined)
  {
    hide Locate, ReadOperand, WriteOperand, PlaceOf, Held, Tainting, Seen, Readable, Writable, Puts, PutsFlagged, SetsFlags,
      SameMachine, Modulus, Truncate, WriteGpr, Extract, ViewOf;
    OneRead(s, rm, w, rex, next);
    var p, s1 := PlaceOf(s, rm, next), Seen(s, rm, w, next);
    var x, y := Held(s, p, w, rex), Held(s, InRegister(g), w, rex);
    var undefined := s.taint || Tainting(s, rm, w, rex, next) || Undefined(s, InRegister(g), w, rex);
    SeenSees(s, rm, w, next, p);
    ViewSeen(s, s1, g, w, rex);
    WriteAfter(s1, undefined, s1.rflags, s1.flagsTainted, p, w, rex, y);
    SmallModulo(y, Modulus(w));
    SmallModulo(x, Modulus(w));
    if Readable(s, p, w) && Writable(s, p, w) {
      var s2 := WriteOperand(s1.(taint := undefined), p, w, rex, y).value;
      KeepsTaint(s1.(taint := undefined), p, w, rex, y);
      WriteRegister(s2, undefined, g, w, rex, x);
    }
  }

  lemma ViewSeen(s: State, s1: State, g: Reg, w: Width, rex: bool)
    requires s1.gpr == s.gpr && s1.shadow == s.shadow
    ensures Extract(s1.gpr, g, w, rex) == Held(s, InRegister(g), w, rex)
    ensures Extract(s1.shadow, g, w, rex) != 0 <==> Undefined(s, InRegister(g), w, rex)
  {
  }

  lemma KeepsTaint(s: State, p: Place, w: Width, rex: bool, v: u64)
    ensures WriteOperand(s, p, w, rex, v).Done? ==> WriteOperand(s, p, w, rex, v).value.taint == s.taint
  {
    hide Insert, Store;
  }

  /** Two different registers really are exchanged. */
  lemma RegistersExchanged(s: State, w: Width, r: Reg, g: Reg, rex: bool, next: u64)
    requires r != g && (rex || w != W8)
    ensures Perform(s, Xchg(w, Register(r), g), rex, next).Done?
    ensures var s' := Perform(s, Xchg(w, Register(r), g), rex, next).value;
      ViewOf(s'.gpr, r, w, rex) == ViewOf(s.gpr, g, w, rex) && ViewOf(s'.gpr, g, w, rex) == ViewOf(s.gpr, r, w, rex)
  {
    hide Perform, Insert, Modulus;
    XchgLaw(s, w, Register(r), g, rex, next);
    var s' := Perform(s, Xchg(w, Register(r), g), rex, next).value;
    var x, y := Held(s, InRegister(r), w, rex), Held(s, InRegister(g), w, rex);
    var undefined := s.taint || Tainting(s, Register(r), w, rex, next) || Undefined(s, InRegister(g), w, rex);
    var s1 :| Puts(Seen(s, Register(r), w, next), s1, InRegister(r), w, rex, y, undefined)
      && Puts(s1, s', InRegister(g), w, rex, x, undefined);
    PutsThenHeld(Seen(s, Register(r), w, next), s1, InRegister(r), w, rex, y, undefined);
    PutsThenHeld(s1, s', InRegister(g), w, rex, x, undefined);
    InsertThenExtract(s1.gpr, g, w, rex, x);
    assert s'.gpr[r] == s1.gpr[r];
  }

  /** XCHG RAX, r: whole words with their shadows. */
  lemma XchgRaxLaw(s: State, r: Reg, rex: bool, next: u64)
    ensures var p := Perform(s, XchgRax(r), rex, next);
      && p.Done? && p.value == s.(gpr := p.value.gpr, shadow := p.value.shadow)
      && (forall i: Reg :: p.value.gpr[i] == s.gpr[if i == r then 0 else if i == 0 then r else i])
      && (forall i: Reg :: p.value.shadow[i] == s.shadow[if i == r then 0 else if i == 0 then r else i])
  {
  }

  // ----- tests, conditions and jumps -----

  /** TEST: the flags of AND, and nothing else. */
  lemma TestLaw(s: State, w: Width, rm: Operand, g: Reg, rex: bool, next: u64)
    ensures Perform(s, Test(w, rm, g), rex, next).Done? <==> Readable(s, PlaceOf(s, rm, next), w)
    ensures Perform(s, Test(w, rm, g), rex, next).Done? ==>
      var s' := Perform(s, Test(w, rm, g), rex, next).value;
      var x, y := Held(s, PlaceOf(s, rm, next), w, rex), Held(s, InRegister(g), w, rex);
      && SetsFlags(Seen(s, rm, w, next), s', s.taint || Tainting(s, rm, w, rex, next) || Undefined(s, InRegister(g), w, rex))
      && FlagsMean(AndOp, x, y, w, s.rflags, s'.rflags)
  {
    hide Locate, ReadOperand, WriteOperand, PlaceOf, Held, Tainting, Seen, Readable, Writable, Puts, PutsFlagged,
      Modulus, Truncate, And, LogicFlags, Extract, FlagsMean;
    OneRead(s, rm, w, rex, next);
    SeenSees(s, rm, w, next, InRegister(g));
    ViewSeen(s, Seen(s, rm, w, next), g, w, rex);
    var x, y := Held(s, PlaceOf(s, rm, next), w, rex), Held(s, InRegister(g), w, rex);
    TestFlags(x, y, w, s.rflags);
    SmallModulo(y, Modulus(w));
  }

  lemma TestFlags(x: u64, y: u64, w: Width, f: u64)
    requires x < Modulus(w)
    ensures FlagsMean(AndOp, x, y % Modulus(w), w, f, LogicFlags(f, And(x, y), w))
  {
    hide Means, LogicFlags, And, Modulus, Truncate;
    ComputeMeans(AndOp, x, y, w, f);
    TruncateIs(y, w);
  }

  lemma TestImmediateLaw(s: State, w: Width, rm: Operand, value: u64, rex: bool, next: u64)
    ensures Perform(s, TestImmediate(w, rm, value), rex, next).Done? <==> Readable(s, PlaceOf(s, rm, next), w)
    ensures Perform(s, TestImmediate(w, rm, value), rex, next).Done? ==>
      var s', x := Perform(s, TestImmediate(w, rm, value), rex, next).value, Held(s, PlaceOf(s, rm, next), w, rex);
      && SetsFlags(Seen(s, rm, w, next), s', s.taint || Tainting(s, rm, w, rex, next))
      && FlagsMean(AndOp, x, value % Modulus(w), w, s.rflags, s'.rflags)
  {
    hide Locate, ReadOperand, WriteOperand, PlaceOf, Held, Tainting, Seen, Readable, Writable, Puts, PutsFlagged,
      Modulus, Truncate, And, LogicFlags, FlagsMean;
    OneRead(s, rm, w, rex, next);
    SeenSees(s, rm, w, next, InRegister(0));
    TestFlags(Held(s, PlaceOf(s, rm, next), w, rex), value, w, s.rflags);
  }

  /** SETcc: one byte, 1 or 0; tainted flags make it undefined. */
  lemma SetConditionLaw(s: State, cc: nat, rm: Operand, rex: bool, next: u64)
    ensures Perform(s, SetCondition(cc, rm), rex, next).Done? <==> Writable(s, PlaceOf(s, rm, next), W8)
    ensures Perform(s, SetCondition(cc, rm), rex, next).Done? ==>
      var s', v: u64 := Perform(s, SetCondition(cc, rm), rex, next).value, if Condition(cc % 16, s.rflags) then 1 else 0;
      Puts(WithReports(s, PointerReports(s, rm, next)), s', PlaceOf(s, rm, next), W8, rex, v,
        s.taint || s.flagsTainted || PointerUndefined(s, rm))
  {
    hide Locate, WriteOperand, PlaceOf, PointerUndefined, PointerReports, Writable, Puts, Condition, WithReports;
    LocateMeans(s, rm, next);
    NotedIs(s, PointerUndefined(s, rm), PointerReports(s, rm, next));
    PutAfterReports(s, PointerReports(s, rm, next), s.taint || s.flagsTainted || PointerUndefined(s, rm),
      PlaceOf(s, rm, next), W8, rex, if Condition(cc % 16, s.rflags) then 1 else 0);
  }

  /** CMOVcc: if the condition does not hold the source is not even read. */
  lemma MoveIfLaw(s: State, cc: nat, w: Width, g: Reg, o: Operand, rex: bool, next: u64)
    ensures var taken := Condition(cc % 16, s.rflags);
      Perform(s, MoveIf(cc, w, g, o), rex, next).Done? <==> (taken ==> Readable(s, PlaceOf(s, o, next), w))
    ensures !Condition(cc % 16, s.rflags) ==>
      SameMachine(WithReports(s, PointerReports(s, o, next)), Perform(s, MoveIf(cc, w, g, o), rex, next).value)
    ensures Condition(cc % 16, s.rflags) && Perform(s, MoveIf(cc, w, g, o), rex, next).Done? ==>
      Puts(Seen(s, o, w, next), Perform(s, MoveIf(cc, w, g, o), rex, next).value, InRegister(g), w, rex,
        Held(s, PlaceOf(s, o, next), w, rex), s.taint || s.flagsTainted || Tainting(s, o, w, rex, next))
  {
    hide Locate, ReadOperand, WriteGpr, PlaceOf, Held, Undefined, PointerUndefined, PointerReports, ReadReports, Readable,
      Puts, Condition, Modulus, Noted;
    var q, b, r := PlaceOf(s, o, next), PointerUndefined(s, o), PointerReports(s, o, next);
    LocateMeans(s, o, next);
    NotedIs(s, b, r);
    var s1 := WithReports(s, r).(taint := s.taint || b || s.flagsTainted);
    NotedIs(s, b || s.flagsTainted, r);
    NotedSees(s, b || s.flagsTainted, r, o, q, w, rex, next);
    ReadMeans(s1, q, w, rex);
    NotedTwice(s, b || s.flagsTainted, r, Undefined(s, q, w, rex), ReadReports(s, q, w));
    NotedIs(s, b || s.flagsTainted || Undefined(s, q, w, rex), r + ReadReports(s, q, w));
    WriteRegister(Seen(s, o, w, next), s.taint || s.flagsTainted || Tainting(s, o, w, rex, next), g, w, rex, Held(s, q, w, rex));
    SmallModulo(Held(s, q, w, rex), Modulus(w));
  }

  /** Jcc: to next + offset exactly if the condition holds; tainted flags are reported. */
  lemma JumpIfLaw(s: State, cc: nat, offset: int, rex: bool, next: u64)
    ensures Perform(s, JumpIf(cc, offset), rex, next) == Done(s.(
      rip := if Condition(cc % 16, s.rflags) then (next + offset) % TWO_64 else s.rip,
      reports := s.reports + if s.flagsTainted then [UninitBranch] else []))
  {
    hide Condition, Wrap;
    WrapIsModulo(next + offset);
    assert s.reports + [] == s.reports;
  }

  lemma JumpLaw(s: State, offset: int, rex: bool, next: u64)
    ensures Perform(s, Jump(offset), rex, next) == Done(s.(rip := (next + offset) % TWO_64))
  {
    hide Wrap;
    WrapIsModulo(next + offset);
  }

  // ----- the stack -----

  /** The bytes of a word with the shadow of each. */
  function WordAndShadow(v: u64, shadow: u64): seq<ShadowByte> {
    seq(8, k requires 0 <= k < 8 => ShadowByte(ToBytes(v, 8)[k], ToBytes(shadow, 8)[k] == 0))
  }

  /** s' is s with a word pushed. */
  ghost predicate Pushes(s: State, s': State, v: u64, shadow: u64) {
    var top := (s.gpr[RSP] - 8) % TWO_64;
    s' == s.(gpr := s.gpr[RSP := top], mem := s'.mem) && Overwritten(s.mem, top, WordAndShadow(v, shadow), s'.mem)
  }

  predicate MayPush(s: State) {
    Accessible(s.mem, (s.gpr[RSP] - 8) % TWO_64, 8, Write)
  }

  predicate MayPop(s: State) {
    Accessible(s.mem, s.gpr[RSP], 8, Read)
  }

  function TopWord(s: State): u64 {
    Held(s, InMemory(s.gpr[RSP]), W64, false)
  }

  lemma PushMeans(s: State, v: u64, shadow: u64)
    ensures PushWord(s, v, shadow).Done? <==> MayPush(s)
    ensures MayPush(s) ==> Pushes(s, PushWord(s, v, shadow).value, v, shadow)
  {
    hide Wrap, Store, Overwritten, Accessible, ToBytes;
    WrapIsModulo(s.gpr[RSP] as int - 8);
    assert ShadowedBytes(v, shadow) == WordAndShadow(v, shadow);
    StoreIsPointwise(s.mem, (s.gpr[RSP] - 8) % TWO_64, WordAndShadow(v, shadow));
  }

  lemma PopMeans(s: State)
    ensures PopWord(s).Done? <==> MayPop(s)
    ensures MayPop(s) ==>
      var s' := s.(gpr := s.gpr[RSP := (s.gpr[RSP] + 8) % TWO_64]);
      PopWord(s).value == (s', Popped(TopWord(s), !AnyUndefined(s.mem, s.gpr[RSP], 8)))
  {
    hide Wrap, Load, FromBytes, Accessible;
    WrapIsModulo(s.gpr[RSP] as int + 8);
    LoadIsPointwise(s.mem, s.gpr[RSP], 8);
    if Load(s.mem, s.gpr[RSP], 8).Ok? {
      assert Values(Load(s.mem, s.gpr[RSP], 8).value) == Bytes(s.mem, s.gpr[RSP], 8);
    }
  }

  /** PUSH of a register: its word and shadow, as they were before. */
  lemma PushLaw(s: State, g: Reg, rex: bool, next: u64)
    ensures Perform(s, Push(g), rex, next).Done? <==> MayPush(s)
    ensures MayPush(s) ==> Pushes(s, Perform(s, Push(g), rex, next).value, s.gpr[g], s.shadow[g])
  {
    hide PushWord, Pushes, MayPush;
    PushMeans(s, s.gpr[g], s.shadow[g]);
  }

  lemma PushImmediateLaw(s: State, value: u64, rex: bool, next: u64)
    ensures Perform(s, PushImmediate(value), rex, next).Done? <==> MayPush(s)
    ensures MayPush(s) ==> Pushes(s, Perform(s, PushImmediate(value), rex, next).value, value, 0)
  {
    hide PushWord, Pushes, MayPush;
    PushMeans(s, value, 0);
  }

  /** POP: the word at the top; one undefined byte makes all of the register undefined. */
  lemma PopLaw(s: State, g: Reg, rex: bool, next: u64)
    ensures Perform(s, Pop(g), rex, next).Done? <==> MayPop(s)
    ensures MayPop(s) ==> Perform(s, Pop(g), rex, next).value == s.(
      gpr := s.gpr[RSP := (s.gpr[RSP] + 8) % TWO_64][g := TopWord(s)],
      shadow := s.shadow[g := if AnyUndefined(s.mem, s.gpr[RSP], 8) then TWO_64 - 1 else 0])
  {
    hide PopWord, TopWord, AnyUndefined, MayPop;
    PopMeans(s);
  }

  /** CALL: pushes the address of the next instruction and jumps. */
  lemma CallLaw(s: State, offset: int, rex: bool, next: u64)
    ensures Perform(s, Call(offset), rex, next).Done? <==> MayPush(s)
    ensures MayPush(s) ==>
      var s' := Perform(s, Call(offset), rex, next).value;
      s'.rip == (next + offset) % TWO_64 && Pushes(s, s'.(rip := s.rip), next, 0)
  {
    hide PushWord, MayPush, Wrap, Overwritten;
    PushMeans(s, next, 0);
    WrapIsModulo(next + offset);
  }

  /** RET: pops the address it continues at, and drops more bytes if asked to. */
  lemma ReturnLaw(s: State, discard: nat, rex: bool, next: u64)
    ensures Perform(s, Return(discard), rex, next).Done? <==> MayPop(s)
    ensures MayPop(s) ==>
      var top := (s.gpr[RSP] + 8 + discard) % TWO_64;
      Perform(s, Return(discard), rex, next).value == s.(gpr := s.gpr[RSP := top], rip := TopWord(s))
  {
    hide PopWord, TopWord, AnyUndefined, MayPop, Wrap;
    PopMeans(s);
    WrapIsModulo((s.gpr[RSP] + 8) % TWO_64 + discard);
    SumModulo(s.gpr[RSP] as int + 8, discard);
    var top: u64 := (s.gpr[RSP] + 8 + discard) % TWO_64;
    assert s.gpr[RSP := (s.gpr[RSP] + 8) % TWO_64][RSP := top] == s.gpr[RSP := top];
  }

  // ----- steps and runs -----

  /** The machine as an instruction finds it: rip past the instruction, no taint yet. */
  function Fetched(s: State, length: nat): State {
    s.(taint := false, rip := (s.rip + length) % TWO_64)
  }

  predicate IsAt(program: Program, rip: u64, i: Instruction, rex: bool, length: nat) {
    rip in program && program[rip] == Cpu.Decoded.Decoded(i, rex, length)
  }

  /** A step performs the instruction rip is at, or stops. */
  lemma StepLaw(program: Program, s: State)
    ensures s.rip !in program ==> Step(program, s) == Faulted(Unsupported, s.reports)
    ensures forall i, rex, length :: IsAt(program, s.rip, i, rex, length) ==>
      Step(program, s) == Perform(Fetched(s, length), i, rex, Fetched(s, length).rip)
  {
    hide Perform, Wrap;
    if s.rip in program {
      WrapIsModulo(s.rip + program[s.rip].length);
    }
  }

  lemma TwoSteps(program: Program, s: State)
    ensures Run(program, s, 2) == if Step(program, s).Done? then Step(program, Step(program, s).value) else Step(program, s)
  {
    hide Step;
    if Step(program, s).Done? {
      var s1 := Step(program, s).value;
      assert Run(program, s, 2) == Run(program, s1, 1);
      if Step(program, s1).Done? {
        assert Run(program, Step(program, s1).value, 0) == Step(program, s1);
      }
    }
  }

  /** CMP then Jcc: the jump is taken exactly if the relation holds of destination and source, in that
      order, for each of the sixteen condition codes. */
  lemma CompareThenJump(program: Program, s: State, w: Width, d: Operand, o: Operand, rex: bool, length: nat,
                        cc: nat, offset: int, rex': bool, length': nat)
    requires cc < 16
    requires IsAt(program, s.rip, Arithmetic(CmpOp, w, d, o), rex, length)
    requires IsAt(program, Fetched(s, length).rip, JumpIf(cc, offset), rex', length')
    requires var s1 := Fetched(s, length);
      Readable(s1, PlaceOf(s1, d, s1.rip), w) && Readable(s1, PlaceOf(s1, o, s1.rip), w)
    ensures var s1, end := Fetched(s, length), Run(program, s, 2);
      var x, y := Held(s1, PlaceOf(s1, d, s1.rip), w, rex), Held(s1, PlaceOf(s1, o, s1.rip), w, rex);
      var after := (s1.rip + length') % TWO_64;
      end.Done? && end.value.rip == if Relation(cc, x, y, w) then (after + offset) % TWO_64 else after
  {
    hide Run, Step, Perform, PlaceOf, Held, Readable, Tainting, SeenBoth, Relation, Condition, FlagsMean;
    var s1 := Fetched(s, length);
    StepLaw(program, s);
    ArithmeticLaw(s1, CmpOp, w, d, o, rex, s1.rip);
    var s2 := Step(program, s).value;
    SeenBothStays(s1, d, o, w, s1.rip);
    var x, y := Held(s1, PlaceOf(s1, d, s1.rip), w, rex), Held(s1, PlaceOf(s1, o, s1.rip), w, rex);
    JumpsOn(program, s1, s2, x, y, w, cc, offset, rex', length');
    TwoSteps(program, s);
  }

  lemma SeenBothStays(s: State, d: Operand, o: Operand, w: Width, next: u64)
    ensures SeenBoth(s, d, o, w, next).rip == s.rip
  {
    hide PointerReports, ReadReports, PlaceOf;
  }

  lemma SeenStays(s: State, o: Operand, w: Width, next: u64)
    ensures Seen(s, o, w, next).rip == s.rip
  {
    hide PointerReports, ReadReports, PlaceOf;
  }

  /** The jump after a comparison. */
  lemma JumpsOn(program: Program, s: State, s': State, x: nat, y: nat, w: Width, cc: nat, offset: int, rex: bool, length: nat)
    requires cc < 16 && x < Modulus(w) && y < Modulus(w) && s'.rip == s.rip && FlagsMean(CmpOp, x, y, w, s.rflags, s'.rflags)
    requires IsAt(program, s.rip, JumpIf(cc, offset), rex, length)
    ensures var r, after := Step(program, s'), (s.rip + length) % TWO_64;
      r.Done? && r.value.rip == if Relation(cc, x, y, w) then (after + offset) % TWO_64 else after
  {
    hide Step, Perform, Relation, Condition, IsDifference;
    StepLaw(program, s');
    var s1 := Fetched(s', length);
    JumpIfLaw(s1, cc, offset, rex, s1.rip);
    var v: u64 :| Means(CmpOp, x, y, w, s.rflags, v, s'.rflags);
    ConditionIsRelation(cc, x, y, w, s.rflags, v, s'.rflags);
    SmallModulo(cc, 16);
  }

  /** The same for a comparison with an immediate. */
  lemma CompareImmediateThenJump(program: Program, s: State, w: Width, d: Operand, value: u64, rex: bool, length: nat,
                                 cc: nat, offset: int, rex': bool, length': nat)
    requires cc < 16
    requires IsAt(program, s.rip, ArithmeticImmediate(CmpOp, w, d, value), rex, length)
    requires IsAt(program, Fetched(s, length).rip, JumpIf(cc, offset), rex', length')
    requires var s1 := Fetched(s, length); Readable(s1, PlaceOf(s1, d, s1.rip), w)
    ensures var s1, end := Fetched(s, length), Run(program, s, 2);
      var x, y, after := Held(s1, PlaceOf(s1, d, s1.rip), w, rex), value % Modulus(w), (s1.rip + length') % TWO_64;
      end.Done? && end.value.rip == if Relation(cc, x, y, w) then (after + offset) % TWO_64 else after
  {
    hide Run, Step, Perform, PlaceOf, Held, Readable, Tainting, Seen, Relation, Condition, FlagsMean, Modulus;
    var s1 := Fetched(s, length);
    StepLaw(program, s);
    ImmediateLaw(s1, CmpOp, w, d, value, rex, s1.rip);
    var s2 := Step(program, s).value;
    SeenStays(s1, d, w, s1.rip);
    JumpsOn(program, s1, s2, Held(s1, PlaceOf(s1, d, s1.rip), w, rex), value % Modulus(w), w, cc, offset, rex', length');
    TwoSteps(program, s);
  }
}
