/** The converse of noninterference: a step that `Taint.Covered` leaves out really does depend on
    undefined data, for some machine that agrees on everything defined. */
module TaintExact {
  import opened Words
  import opened FlatMemory
  import opened Registers
  import opened Alu
  import opened Cpu
  import opened MulDiv
  import opened Taint
  import OperationLaws

  /** No machine that agrees on everything defined can end the step differently. */
  ghost predicate Secure(program: Program, s: State) {
    forall t :: Agree(s, t) ==> SameOutcome(Step(program, s), Step(program, t))
  }

  // ----- reading back what was written -----

  lemma RegisterReadBack(s: State, r: Reg, w: Width, rex: bool, v: u64)
    requires !s.taint
    ensures var s' := WriteGpr(s, r, w, rex, v); ReadGpr(s', r, w, rex) == (s', Truncate(v, w))
  {
    hide Extract, Insert, Truncate;
    InsertThenExtract(s.gpr, r, w, rex, Truncate(v, w));
    InsertThenExtract(s.shadow, r, w, rex, 0);
  }

  /** A cleanly written operand that could be read before reads back as the value, untainted. */
  lemma ReadBack(s: State, p: Place, w: Width, rex: bool, v: u64)
    requires !s.taint && ReadOperand(s, p, w, rex).Done? && WriteOperand(s, p, w, rex, v).Done?
    ensures var s' := WriteOperand(s, p, w, rex, v).value; ReadOperand(s', p, w, rex) == Done((s', Truncate(v, w)))
  {
    hide Load, Store, Extract, Insert, Truncate, Accessible, Overwritten;
    match p
    case InRegister(r) => RegisterReadBack(s, r, w, rex, v);
    case InMemory(a) =>
      var bs := Tainted(ToBytes(Truncate(v, w), Size(w)), false);
      LoadIsPointwise(s.mem, a, Size(w));
      StoreIsPointwise(s.mem, a, bs);
      ShadowRoundTrip(s.mem, a, bs);
      PowerOfSize(w);
      ValueOfBytes(Truncate(v, w), Size(w));
  }

  /** If two machines agree after clean writes to an operand, they wrote the same. */
  lemma WritesDiffer(s: State, t: State, p: Place, w: Width, rex: bool, v: u64, v': u64)
    requires !s.taint && ReadOperand(s, p, w, rex).Done? && WriteOperand(s, p, w, rex, v).Done?
    requires !t.taint && ReadOperand(t, p, w, rex).Done? && Truncate(v, w) != Truncate(v', w)
    ensures !SameOutcome(WriteOperand(s, p, w, rex, v), WriteOperand(t, p, w, rex, v'))
  {
    hide ReadOperand, WriteOperand, Agree, Truncate;
    var r, r' := WriteOperand(s, p, w, rex, v), WriteOperand(t, p, w, rex, v');
    ReadBack(s, p, w, rex, v);
    if r'.Done? && Agree(r.value, r'.value) {
      ReadBack(t, p, w, rex, v');
      ReadAgrees(r.value, r'.value, p, w, rex);
      WriteKeepsTaint(s, p, w, rex, v);
    }
  }

  // ----- ADC and SBB -----

  /** s with the carry flag flipped. */
  function Flipped(s: State): State {
    s.(rflags := SetFlag(s.rflags, CF, !Flag(s.rflags, CF)))
  }

  lemma FlippedCarry(f: u64)
    ensures Flag(SetFlag(f, CF, !Flag(f, CF)), CF) == !Flag(f, CF)
  {
    hide SetFlag, Flag;
    SetFlagBits(f, CF, !Flag(f, CF));
  }

  /** Tainted flags are free to differ. */
  lemma OtherFlagsAgree(s: State, rflags: u64)
    requires s.flagsTainted
    ensures Agree(s, s.(rflags := rflags))
  {
    hide StatusAgree, WordsAgree;
    forall r: Reg ensures WordsAgree(s.gpr[r], s.gpr[r], s.shadow[r]) {
      SameWord(s.gpr[r], s.shadow[r]);
    }
    SameMemory(s.mem);
  }

  /** A word plus or minus the carry depends on the carry. */
  lemma OneApart(x: int, y: int, m: int)
    requires m >= 2 && (y == x + 1 || x == y + 1)
    ensures x % m != y % m
  {
    Successor(Min(x, y), m);
  }

  lemma AddByCarry(a: u64, b: u64, w: Width, f: u64)
    ensures Add(a, b, w, true, f).value == (Truncate(a, w) + Truncate(b, w) + CarryIn(true, f)) % Modulus(w)
  {
    hide Truncate, Modulus, ArithFlags, Wrap, CarryIn;
    var sum := Truncate(a, w) + Truncate(b, w) + CarryIn(true, f);
    WrapIsModulo(sum);
    LowTruncated(sum, w);
  }

  lemma SubByBorrow(a: u64, b: u64, w: Width, f: u64)
    ensures Sub(a, b, w, true, f).value == (Truncate(a, w) - Truncate(b, w) - CarryIn(true, f)) % Modulus(w)
  {
    hide *;
    var x, y := Truncate(a, w), Truncate(b, w) + CarryIn(true, f);
    SubValue(a, b, w, f);
    OperationLaws.DifferenceValue(x, y, w);
  }

  lemma SubValue(a: u64, b: u64, w: Width, f: u64)
    ensures Sub(a, b, w, true, f).value == Truncate(Wrap(Truncate(a, w) - Wrap(Truncate(b, w) + CarryIn(true, f))), w)
  {
    hide Truncate, ArithFlags, Wrap, CarryIn, Aux, Sign;
  }

  /** ADC and SBB give different words with and without a carry. */
  lemma CarryShows(op: AluOp, lhs: u64, rhs: u64, w: Width, f: u64, f': u64)
    requires ReadsCarry(op) && Flag(f, CF) != Flag(f', CF)
    ensures Truncate(Compute(op, lhs, rhs, w, f).value, w) != Truncate(Compute(op, lhs, rhs, w, f').value, w)
  {
    hide Add, Sub, Flag, Truncate, Modulus;
    AddIsShort(lhs, rhs, w, true, f);
    AddIsShort(lhs, rhs, w, true, f');
    var x, y, m := Truncate(lhs, w), Truncate(rhs, w), Modulus(w);
    if op == AdcOp {
      AddByCarry(lhs, rhs, w, f);
      AddByCarry(lhs, rhs, w, f');
      OneApart(x + y + CarryIn(true, f), x + y + CarryIn(true, f'), m);
    } else {
      SubByBorrow(lhs, rhs, w, f);
      SubByBorrow(lhs, rhs, w, f');
      OneApart(x - y - CarryIn(true, f), x - y - CarryIn(true, f'), m);
    }
  }

  /** Reading an operand does not look at the flags. */
  lemma ReadIgnoresFlags(s: State, rflags: u64, p: Place, w: Width, rex: bool)
    ensures ReadOperand(s.(rflags := rflags), p, w, rex) ==
      match ReadOperand(s, p, w, rex)
      case Done(v) => Done((v.0.(rflags := rflags), v.1))
      case Faulted(e, log) => Faulted(e, log)
  {
    hide Load, Extract;
  }

  lemma FinishLeaks(s: State, op: AluOp, w: Width, rex: bool, d: Place, lhs: u64, rhs: u64)
    requires ReadsCarry(op) && !s.taint && ReadOperand(s, d, w, rex).Done? && Finish(s, op, w, rex, d, lhs, rhs).Done?
    ensures !SameOutcome(Finish(s, op, w, rex, d, lhs, rhs), Finish(Flipped(s), op, w, rex, d, lhs, rhs))
  {
    hide ReadOperand, WriteOperand, Compute, SetFlag, Flag, Agree, Truncate, SameOutcome;
    var t := Flipped(s);
    FlippedCarry(s.rflags);
    CarryShows(op, lhs, rhs, w, s.rflags, t.rflags);
    var r, r' := Compute(op, lhs, rhs, w, s.rflags), Compute(op, lhs, rhs, w, t.rflags);
    ReadIgnoresFlags(s, t.rflags, d, w, rex);
    ReadIgnoresFlagTaint(s, r.rflags, d, w, rex);
    ReadIgnoresFlagTaint(t, r'.rflags, d, w, rex);
    WritesDiffer(WithFlags(s, r.rflags), WithFlags(t, r'.rflags), d, w, rex, r.value, r'.value);
  }

  lemma ReadIgnoresFlagTaint(s: State, rflags: u64, p: Place, w: Width, rex: bool)
    requires ReadOperand(s, p, w, rex).Done?
    ensures ReadOperand(WithFlags(s, rflags), p, w, rex).Done?
  {
    hide Load, Extract;
  }

  /** A readable operand stays readable after reads. */
  lemma StillReadable(s: State, s': State, p: Place, w: Width, rex: bool)
    requires ReadOperand(s, p, w, rex).Done? && s'.mem == s.mem
    ensures ReadOperand(s', p, w, rex).Done?
  {
    hide Load, Extract;
  }

  lemma ArithmeticLeaks(s: State, op: AluOp, w: Width, rex: bool, d: Place, p: Place)
    requires !ArithmeticHidesFlags(s, op, w, rex, d, p)
    ensures !SameOutcome(ExecuteArithmetic(s, op, w, rex, d, p), ExecuteArithmetic(Flipped(s), op, w, rex, d, p))
  {
    hide ReadOperand, Finish, SetFlag, Flag, SameOutcome;
    var f := Flipped(s).rflags;
    ReadIgnoresFlags(s, f, d, w, rex);
    ReadFacts(s, d, w, rex);
    var (s1, lhs) := ReadOperand(s, d, w, rex).value;
    ReadIgnoresFlags(s1, f, p, w, rex);
    ReadFacts(s1, p, w, rex);
    var (s2, rhs) := ReadOperand(s1, p, w, rex).value;
    StillReadable(s, s2, d, w, rex);
    FinishLeaks(s2, op, w, rex, d, lhs, rhs);
  }

  lemma ImmediateLeaks(s: State, op: AluOp, w: Width, rex: bool, d: Place, value: u64)
    requires ReadsCarry(op) && ExecuteImmediate(s, op, w, rex, d, value).Done? && !OperandTaints(s, w, rex, d)
    ensures !SameOutcome(ExecuteImmediate(s, op, w, rex, d, value), ExecuteImmediate(Flipped(s), op, w, rex, d, value))
  {
    hide ReadOperand, Finish, SetFlag, Flag, SameOutcome;
    ReadIgnoresFlags(s, Flipped(s).rflags, d, w, rex);
    ReadFacts(s, d, w, rex);
    var (s1, lhs) := ReadOperand(s, d, w, rex).value;
    StillReadable(s, s1, d, w, rex);
    FinishLeaks(s1, op, w, rex, d, lhs, value);
  }

  // ----- INC and DEC -----

  lemma CountKeepsOneCarry(op: Counter, w: Width, f: u64)
    ensures Flag(CountResult(op, w, f).rflags, CF) == Flag(f, CF)
  {
    hide Add, Sub, SetFlag, Flag;
    var r := match op case Inc(v) => Add(v, 1, w, false, f) case Dec(v) => Sub(v, 1, w, false, f);
    SetFlagBits(r.rflags, CF, Flag(f, CF));
  }

  lemma WriteKeepsFlags(s: State, p: Place, w: Width, rex: bool, v: u64)
    ensures WriteOperand(s, p, w, rex, v).Done? ==>
      WriteOperand(s, p, w, rex, v).value.rflags == s.rflags && WriteOperand(s, p, w, rex, v).value.flagsTainted == s.flagsTainted
  {
    hide Store, Insert;
  }

  /** The carry that INC and DEC keep is left behind in flags that count as defined. */
  lemma CountLeaks(s: State, up: bool, w: Width, rex: bool, rm: Place)
    requires ExecuteCount(s, up, w, rex, rm).Done? && !OperandTaints(s, w, rex, rm)
    ensures !SameOutcome(ExecuteCount(s, up, w, rex, rm), ExecuteCount(Flipped(s), up, w, rex, rm))
  {
    hide ReadOperand, WriteOperand, CountResult, SetFlag, Flag, FilesAgree, MemoriesAgree;
    var t := Flipped(s);
    FlippedCarry(s.rflags);
    ReadIgnoresFlags(s, t.rflags, rm, w, rex);
    ReadFacts(s, rm, w, rex);
    var (s1, v) := ReadOperand(s, rm, w, rex).value;
    var op := if up then Inc(v) else Dec(v);
    CountKeepsOneCarry(op, w, s.rflags);
    CountKeepsOneCarry(op, w, t.rflags);
    var r, r' := CountResult(op, w, s.rflags), CountResult(op, w, t.rflags);
    WriteKeepsFlags(WithFlags(s1, r.rflags), rm, w, rex, r.value);
    WriteKeepsFlags(WithFlags(s1.(rflags := t.rflags), r'.rflags), rm, w, rex, r'.value);
  }

  // ----- CMOVcc -----

  /** Flags under which the condition holds exactly if it does not hold now. */
  function Opposite(cc: nat, now: bool): u64
    requires cc < 16
  {
    if now == (cc % 2 == 0) then 0
    else if cc < 2 then SetFlag(0, OF, true)
    else SetFlag(SetFlag(SetFlag(SetFlag(0, CF, true), PF, true), ZF, true), SF, true)
  }

  lemma {:induction false} ZeroBits(k: nat)
    ensures !Bit(0, k)
  {
    if k > 0 {
      ZeroBits(k - 1);
    }
  }

  lemma OppositeIs(cc: nat, now: bool)
    requires cc < 16
    ensures Condition(cc, Opposite(cc, now)) == !now
  {
    hide SetFlag, Bit;
    forall k: nat ensures !Flag(0, k) {
      ZeroBits(k);
    }
    var f1 := SetFlag(0, CF, true);
    var f2 := SetFlag(f1, PF, true);
    var f3 := SetFlag(f2, ZF, true);
    SetFlagBits(0, OF, true);
    SetFlagBits(0, CF, true);
    SetFlagBits(f1, PF, true);
    SetFlagBits(f2, ZF, true);
    SetFlagBits(f3, SF, true);
  }

  /** A word whose upper four bytes are zero is below 2^32. */
  lemma HighHalfClear(v: u64)
    requires forall k :: 4 <= k < 8 ==> Lane(v, k) == 0
    ensures v < 0x1_0000_0000
  {
    hide ToBytes, FromBytes;
    var bs := ToBytes(v, 8);
    forall k | 4 <= k < 8 ensures bs[k] == 0 {
      assert Lane(v, k) == 0;
    }
    PowerOfSize(W64);
    ValueOfBytes(v, 8);
    TruncateBytes(v, W32);
    ZeroTail(bs[..4], bs[4..]);
    assert bs[..4] + bs[4..] == bs;
  }

  lemma {:induction false} ZeroTail(bs: seq<u8>, zeros: seq<u8>)
    requires forall k :: 0 <= k < |zeros| ==> zeros[k] == 0
    ensures FromBytes(bs + zeros) == FromBytes(bs)
    decreases |bs| + |zeros|
  {
    if |bs| > 0 {
      assert (bs + zeros)[1..] == bs[1..] + zeros;
      ZeroTail(bs[1..], zeros);
    } else if |zeros| > 0 {
      assert bs + zeros == zeros;
      assert zeros[1..] == [] + zeros[1..];
      ZeroTail([], zeros[1..]);
    }
  }

  /** If a tainted move taken on one machine cannot be told from not moving on the other, it does not show. */
  lemma TakenShows(s: State, rflags: u64, w: Width, rex: bool, r: Reg, p: Place)
    requires s.taint && !MoveInvisible(s, w, rex, r, p)
    ensures var t := s.(rflags := rflags);
      !SameOutcome(Done(s), Taken(t, w, rex, r, p)) && !SameOutcome(Taken(s, w, rex, r, p), Done(t))
  {
    hide ReadOperand, Insert, MemoriesAgree, StatusAgree, FilesAgree, Truncate, Modulus;
    var t := s.(rflags := rflags);
    ReadIgnoresFlags(s, rflags, p, w, rex);
    ReadFacts(s, p, w, rex);
    var q := ReadOperand(s, p, w, rex);
    if q.Done? && q.value.0.reports == s.reports && Insert(s.shadow, r, w, rex, Modulus(w) - 1) == s.shadow && w == W32 {
      var f' := Insert(s.gpr, r, w, rex, Truncate(q.value.1, w));
      FilesSymmetric(s.gpr, f', s.shadow);
      if FilesAgree(s.gpr, f', s.shadow) {
        UpperHalfShows(s.gpr, f', s.shadow, r, rex, Truncate(q.value.1, w));
      }
    }
  }

  lemma FilesSymmetric(f: File, f': File, shadow: File)
    ensures FilesAgree(f, f', shadow) <==> FilesAgree(f', f, shadow)
  {
    hide Lane;
    forall r: Reg ensures WordsAgree(f[r], f'[r], shadow[r]) <==> WordsAgree(f'[r], f[r], shadow[r]) {}
  }

  /** A 32-bit write clears the upper half, which the shadow calls defined. */
  lemma UpperHalfShows(f: File, f': File, shadow: File, r: Reg, rex: bool, v: u64)
    requires v < Modulus(W32) && f' == Insert(f, r, W32, rex, v) && Insert(shadow, r, W32, rex, Modulus(W32) - 1) == shadow
    requires FilesAgree(f, f', shadow)
    ensures f[r] < 0x1_0000_0000
  {
    hide Lane;
    forall k | 4 <= k < 8 ensures Lane(f[r], k) == 0 {
      HighHalfZero(shadow[r], k);
      HighHalfZero(v, k);
      assert WordsAgree(f[r], f'[r], shadow[r]);
    }
    HighHalfClear(f[r]);
  }

  lemma MoveIfLeaks(s: State, cc: nat, w: Width, rex: bool, r: Reg, p: Place)
    requires s.flagsTainted && !MoveInvisible(s, w, rex, r, p)
    ensures var t := s.(rflags := Opposite(cc % 16, Condition(cc % 16, s.rflags)));
      !SameOutcome(ExecuteMoveIf(s, cc, w, rex, r, p), ExecuteMoveIf(t, cc, w, rex, r, p))
  {
    hide ReadOperand, Insert, Condition, Opposite, Agree, SameOutcome, MoveInvisible;
    var f := Opposite(cc % 16, Condition(cc % 16, s.rflags));
    OppositeIs(cc % 16, Condition(cc % 16, s.rflags));
    var s1 := s.(taint := true);
    if MoveInvisible(s1, w, rex, r, p) {
      InvisibleBefore(s, w, rex, r, p);
    } else {
      TakenShows(s1, f, w, rex, r, p);
    }
  }

  lemma InvisibleBefore(s: State, w: Width, rex: bool, r: Reg, p: Place)
    requires MoveInvisible(s.(taint := true), w, rex, r, p)
    ensures MoveInvisible(s, w, rex, r, p)
  {
    hide Insert, Load, Extract;
  }

  // ----- RET -----

  /** s with one byte of memory changed. */
  function WithCell(s: State, a: int): State
    requires a in s.mem
  {
    s.(mem := s.mem[a := s.mem[a].(value := (s.mem[a].value + 1) % 256)])
  }

  lemma OtherByteAgrees(s: State, a: int)
    requires a in s.mem && !s.mem[a].initialized
    ensures Agree(s, WithCell(s, a))
  {
    hide WordsAgree;
    forall r: Reg ensures WordsAgree(s.gpr[r], s.gpr[r], s.shadow[r]) {
      SameWord(s.gpr[r], s.shadow[r]);
    }
  }

  /** A return address with an undefined byte can be any of several. */
  lemma ReturnLeaks(s: State, discard: nat) returns (a: u64)
    requires s.shadow[RSP] == 0 && PopWord(s).Done? && !PopWord(s).value.1.initialized
    ensures a in s.mem && !s.mem[a].initialized
    ensures !SameOutcome(ExecuteReturn(s, discard), ExecuteReturn(WithCell(s, a), discard))
  {
    hide FilesAgree, MemoriesAgree, StatusAgree, Load, FromBytes, Accessible;
    LoadIsPointwise(s.mem, s.gpr[RSP], 8);
    var bs := Load(s.mem, s.gpr[RSP], 8).value;
    var i :| 0 <= i < 8 && !bs[i].initialized;
    a := At(s.gpr[RSP], i);
    var t := WithCell(s, a);
    LoadIsPointwise(t.mem, s.gpr[RSP], 8);
    StillAccessible(s.mem, t.mem, s.gpr[RSP], 8);
    var bs' := Load(t.mem, s.gpr[RSP], 8).value;
    assert Values(bs)[i] != Values(bs')[i];
    BytesOfValue(Values(bs));
    BytesOfValue(Values(bs'));
  }

  lemma StillAccessible(m: Memory, m': Memory, a: u64, n: nat)
    requires SameAccess(m, m')
    ensures Accessible(m, a, n, Read) <==> Accessible(m', a, n, Read)
  {
    forall i | 0 <= i < n ensures Allowed(m, At(a, i), Read) == Allowed(m', At(a, i), Read) {}
  }

  // ----- whole steps -----

  /** Some agreeing machine ends the instruction differently. */
  ghost predicate Leaks(s: State, i: Instruction, rex: bool, next: u64) {
    exists t :: Agree(s, t) && !SameOutcome(Perform(s, i, rex, next), Perform(t, i, rex, next))
  }

  /** Flags do not show in where an operand is. */
  lemma LocateIgnoresFlags(s: State, rflags: u64, o: Operand, next: u64)
    ensures Locate(s.(rflags := rflags), o, next) == (Locate(s, o, next).0.(rflags := rflags), Locate(s, o, next).1)
  {
    hide Wrap, Truncate;
  }

  lemma RestLeaks(s: State, i: Instruction, rex: bool, p: Place) returns (rflags: u64)
    requires HasOneOperand(i) && s.flagsTainted && !RestHidesFlags(s, i, rex, p)
    ensures !SameOutcome(Rest(s, i, rex, p), Rest(s.(rflags := rflags), i, rex, p))
  {
    hide ExecuteImmediate, ExecuteCount, ExecuteMoveIf, OperandTaints, MoveInvisible, SameOutcome, SetFlag, Flag, Condition, Opposite;
    rflags := Flipped(s).rflags;
    match i
    case ArithmeticImmediate(op, w, _, value) => ImmediateLeaks(s, op, w, rex, p, value);
    case Count(up, w, _) => CountLeaks(s, up, w, rex, p);
    case MoveIf(cc, w, r, _) =>
      rflags := Opposite(cc % 16, Condition(cc % 16, s.rflags));
      MoveIfLeaks(s, cc, w, rex, r, p);
  }

  lemma FlagsLeak(s: State, i: Instruction, rex: bool, next: u64)
    requires s.flagsTainted && !HidesFlags(s, i, rex, next) && Quiet(Log(Perform(s, i, rex, next)))
    ensures Leaks(s, i, rex, next)
  {
    hide Agree, Locate, Rest, RestHidesFlags, ArithmeticHidesFlags, ExecuteArithmetic, SameOutcome, Quiet, Log, SetFlag, Flag;
    if HasOneOperand(i) {
      hide Perform;
      OneOperandLeaks(s, i, rex, next);
    } else {
      ArithmeticStepLeaks(s, i, rex, next);
    }
  }

  lemma OneOperandLeaks(s: State, i: Instruction, rex: bool, next: u64)
    requires s.flagsTainted && HasOneOperand(i) && !HidesFlags(s, i, rex, next) && Quiet(Log(Perform(s, i, rex, next)))
    ensures Leaks(s, i, rex, next)
  {
    hide Agree, Locate, Rest, RestHidesFlags, SameOutcome, Quiet, Log, Perform;
    var (s1, p) := Locate(s, OneOperand(i), next);
    RestOf(s, i, rex, next);
    RestGrows(s1, i, rex, p);
    AgreeSelf(s);
    LocateQuietly(s, s, OneOperand(i), next, Log(Perform(s, i, rex, next)));
    var rflags := RestLeaks(s, i, rex, p);
    var t := s.(rflags := rflags);
    OtherFlagsAgree(s, rflags);
    LocateIgnoresFlags(s, rflags, OneOperand(i), next);
    RestOf(t, i, rex, next);
  }

  lemma ArithmeticStepLeaks(s: State, i: Instruction, rex: bool, next: u64)
    requires s.flagsTainted && i.Arithmetic? && !HidesFlags(s, i, rex, next) && Quiet(Log(Perform(s, i, rex, next)))
    ensures Leaks(s, i, rex, next)
  {
    hide Agree, Locate, ExecuteArithmetic, ArithmeticHidesFlags, SameOutcome, Quiet, Log, SetFlag, Flag;
    var log := Log(Perform(s, i, rex, next));
    var (s1, d) := Locate(s, i.destination, next);
    var (s2, p) := Locate(s1, i.source, next);
    ArithmeticGrows(s2, i.op, i.w, rex, d, p);
    LocateKeepsFlags(s, i.destination, next);
    LocateKeepsFlags(s1, i.source, next);
    AgreeSelf(s);
    LocateQuietly(s, s, i.destination, next, log);
    LocateQuietly(s, s, i.source, next, log);
    ArithmeticLeaks(s, i.op, i.w, rex, d, p);
    var t := Flipped(s);
    OtherFlagsAgree(s, t.rflags);
    LocateIgnoresFlags(s, t.rflags, i.destination, next);
    LocateIgnoresFlags(s, t.rflags, i.source, next);
    assert Perform(t, i, rex, next) == ExecuteArithmetic(t, i.op, i.w, rex, d, p);
  }

  lemma ReturnStepLeaks(s: State, i: Instruction, rex: bool, next: u64)
    requires i.Return? && s.shadow[RSP] == 0 && !StackDefined(s, i)
    ensures Leaks(s, i, rex, next)
  {
    hide Agree, SameOutcome, Perform, Load, FromBytes;
    var a := ReturnLeaks(s, i.discard);
    OtherByteAgrees(s, a);
    StackPerforms(s, i, rex, next);
    StackPerforms(WithCell(s, a), i, rex, next);
  }

  /** Every instruction that is not covered leaks, unless it uses an undefined stack pointer. */
  lemma UncoveredLeaks(s: State, i: Instruction, rex: bool, next: u64)
    requires !Covered(s, i, rex, next) && Quiet(Log(Perform(s, i, rex, next))) && (UsesStack(i) ==> s.shadow[RSP] == 0)
    ensures Leaks(s, i, rex, next)
  {
    hide Perform, Leaks, Quiet, Load;
    if s.flagsTainted && !HidesFlags(s, i, rex, next) {
      FlagsLeak(s, i, rex, next);
    } else {
      ReturnStepLeaks(s, i, rex, next);
    }
  }

  /** The stack pointer is defined wherever the step uses it. */
  predicate TopDefined(program: Program, s: State) {
    s.rip in program && UsesStack(program[s.rip].instruction) ==> s.shadow[RSP] == 0
  }

  /** The exact form of noninterference for one step: a step that reports no tainted pointer or branch
      is independent of undefined data if and only if it is covered. With tainted flags, ADC and SBB
      must fault or have a tainted operand, INC and DEC likewise, and a conditional move must not show;
      RET must follow a defined address. */
  lemma StepIsSecureExactlyIfCovered(program: Program, s: State)
    requires Quiet(Log(Step(program, s))) && TopDefined(program, s)
    ensures Secure(program, s) <==> CoveredStep(program, s)
  {
    hide Step, Agree, SameOutcome, CoveredStep, Quiet, TopDefined;
    if CoveredStep(program, s) {
      forall t | Agree(s, t) ensures SameOutcome(Step(program, s), Step(program, t)) {
        StepAgrees(program, s, t);
      }
    } else {
      StepLeaks(program, s);
    }
  }

  lemma StepLeaks(program: Program, s: State)
    requires Quiet(Log(Step(program, s))) && TopDefined(program, s) && !CoveredStep(program, s)
    ensures !Secure(program, s)
  {
    hide Perform, Agree, SameOutcome, Covered, Quiet, UsesStack;
    var d := program[s.rip];
    var next := Wrap(s.rip + d.length);
    var s1 := s.(taint := false, rip := next);
    UncoveredLeaks(s1, d.instruction, d.rex, next);
    var t1 :| Agree(s1, t1) && !SameOutcome(Perform(s1, d.instruction, d.rex, next), Perform(t1, d.instruction, d.rex, next));
    var t := t1.(taint := s.taint, rip := s.rip);
    BeforeStep(s, t1, next);
    assert t1 == t.(taint := false, rip := next);
    assert Step(program, t) == Perform(t1, d.instruction, d.rex, next);
    assert Agree(s, t);
  }

  lemma BeforeStep(s: State, t1: State, next: u64)
    requires Agree(s.(taint := false, rip := next), t1)
    ensures t1.taint == false && t1.rip == next && Agree(s, t1.(taint := s.taint, rip := s.rip))
  {
    hide FilesAgree, MemoriesAgree, StatusAgree;
  }

  // ----- a concrete leak -----

  /** All registers zero and defined; only the tainted carry flag varies. */
  function CarryState(carry: bool): State {
    State(seq(16, _ => 0), seq(16, _ => 0), 0, if carry then 1 else 0, 0, 0, false, true, map[], [])
  }

  const ADC_RAX_RAX: Program := map[0 := Decoded(Arithmetic(AdcOp, W64, Register(0), Register(0)), true, 3)]

  /** ADC after a tainted comparison leaks the carry into a register whose shadow is clear:
      nothing is reported, the machines agreed before, and they differ in a defined byte after. */
  lemma AdcLeaksTaintedCarry()
    ensures var s, t := CarryState(true), CarryState(false);
      Agree(s, t) && Quiet(Log(Run(ADC_RAX_RAX, s, 1))) && !SameOutcome(Run(ADC_RAX_RAX, s, 1), Run(ADC_RAX_RAX, t, 1))
  {
    hide Run, CarryState, Agree, SameOutcome;
    AdcOutcome(true);
    AdcOutcome(false);
    CarryStatesAgree();
    OutcomesDiffer(Run(ADC_RAX_RAX, CarryState(true), 1), Run(ADC_RAX_RAX, CarryState(false), 1));
  }

  lemma OutcomesDiffer(r: Exec<State>, r': Exec<State>)
    requires r.Done? && r'.Done? && r.value.gpr[0] == 1 && r'.value.gpr[0] == 0 && r.value.shadow[0] == 0
    ensures !SameOutcome(r, r')
  {
    assert Lane(1, 0) == 1 && Lane(0, 0) == 0;
    assert !WordsAgree(r.value.gpr[0], r'.value.gpr[0], r.value.shadow[0]);
  }

  lemma CarryStatesAgree()
    ensures Agree(CarryState(true), CarryState(false))
  {
    hide Flag;
  }

  lemma AdcOutcome(carry: bool)
    ensures var r := Run(ADC_RAX_RAX, CarryState(carry), 1);
      r.Done? && r.value.gpr[0] == (if carry then 1 else 0) && r.value.shadow[0] == 0 && r.value.reports == []
  {
    hide ArithFlags, Sign, Aux, Parity;
    var s := CarryState(carry).(taint := false, rip := 3);
    var sum := Add(0, 0, W64, true, s.rflags);
    assert sum.value == if carry then 1 else 0;
    assert Run(ADC_RAX_RAX, CarryState(carry), 1) == Step(ADC_RAX_RAX, CarryState(carry));
    assert Step(ADC_RAX_RAX, CarryState(carry)) == ExecuteArithmetic(s, AdcOp, W64, true, InRegister(0), InRegister(0));
    assert ReadOperand(s, InRegister(0), W64, true) == Done((s, 0));
  }
}
