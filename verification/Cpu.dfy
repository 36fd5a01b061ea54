/** The integer CPU with taint, as a function from state to state.

    Instructions are decoded values. Every function threads the taint accumulated by the
    instruction and the log of reports. */
module Cpu {
  import opened Words
  import opened FlatMemory
  import opened Registers
  import opened Alu

  /** The non-fatal reports, without the once-per-site suppression. */
  datatype Report = UninitRead(address: u64) | UninitPointer(address: u64) | UninitBranch

  datatype State = State(
    gpr: File, shadow: File, rip: u64, rflags: u64, fsBase: u64, gsBase: u64,
    taint: bool, flagsTainted: bool, mem: Memory, reports: seq<Report>)

  datatype Segment = NoSegment | Fs | Gs

  datatype Address = Address(
    base: Option<Reg>, index: Option<Reg>, scale: nat, displacement: int,
    ripRelative: bool, address32: bool, segment: Segment)

  datatype Operand = Register(reg: Reg) | Memory(address: Address)

  /** An operand after address decoding. */
  datatype Place = InRegister(reg: Reg) | InMemory(address: u64)

  datatype AluOp = AddOp | OrOp | AdcOp | SbbOp | AndOp | SubOp | XorOp | CmpOp

  datatype ShiftOp = Shl | Shr | Sar

  datatype Instruction =
    | Mov(w: Width, destination: Operand, source: Operand)
    | MovImmediate(w: Width, destination: Operand, value: u64)
    | MovExtend(signed: bool, from: Width, w: Width, reg: Reg, source: Operand)
    | Lea(w: Width, reg: Reg, address: Address)
    | Bswap(w: Width, reg: Reg)
    | Xchg(w: Width, rm: Operand, reg: Reg)
    | XchgRax(reg: Reg)
    | NotOp(w: Width, rm: Operand)
    | NegOp(w: Width, rm: Operand)
    | Test(w: Width, rm: Operand, reg: Reg)
    | TestImmediate(w: Width, rm: Operand, value: u64)
    | Arithmetic(op: AluOp, w: Width, destination: Operand, source: Operand)
    | ArithmeticImmediate(op: AluOp, w: Width, destination: Operand, value: u64)
    | Count(up: bool, w: Width, rm: Operand)
    | Shift(shift: ShiftOp, w: Width, rm: Operand, count: nat)
    | SetCondition(cc: nat, rm: Operand)
    | MoveIf(cc: nat, w: Width, reg: Reg, source: Operand)
    | JumpIf(cc: nat, offset: int)
    | Jump(offset: int)
    | Push(reg: Reg)
    | PushImmediate(value: u64)
    | Pop(reg: Reg)
    | Call(offset: int)
    | Return(discard: nat)

  /** A decoded instruction: its length in bytes and whether it carries a REX prefix. */
  datatype Decoded = Decoded(instruction: Instruction, rex: bool, length: nat)

  type Program = map<u64, Decoded>

  /** What executing some part of an instruction gives: a value, or the error that stops the
      emulator together with the reports made so far. */
  datatype Exec<+T> = Done(value: T) | Faulted(error: Error, reports: seq<Report>) {
    predicate IsFailure() { Faulted? }
    function PropagateFailure<U>(): Exec<U> requires Faulted? { Faulted(error, reports) }
    function Extract(): T requires Done? { value }
  }

  // ----- registers -----

  /** `read_gpr`: an undefined byte taints the instruction. */
  function ReadGpr(s: State, r: Reg, w: Width, rex: bool): (State, u64) {
    (s.(taint := s.taint || Extract(s.shadow, r, w, rex) != 0), Extract(s.gpr, r, w, rex))
  }

  /** `write_gpr`: the view takes the value and the taint of the whole instruction. */
  function WriteGpr(s: State, r: Reg, w: Width, rex: bool, v: u64): State {
    s.(shadow := Insert(s.shadow, r, w, rex, if s.taint then Modulus(w) - 1 else 0),
       gpr := Insert(s.gpr, r, w, rex, Truncate(v, w)))
  }

  // ----- addresses -----

  predicate AddressTainted(s: State, a: Address) {
    !a.ripRelative && ((a.base.Some? && s.shadow[a.base.value] != 0) || (a.index.Some? && s.shadow[a.index.value] != 0))
  }

  function SegmentBase(s: State, segment: Segment): u64 {
    match segment case NoSegment => 0 case Fs => s.fsBase case Gs => s.gsBase
  }

  /** The address `decode_memory_address` computes; next is the address after the instruction. */
  function DecodedAddress(s: State, a: Address, next: u64): u64 {
    var base := if a.ripRelative then next else if a.base.Some? then s.gpr[a.base.value] else 0;
    var index := if !a.ripRelative && a.index.Some? then s.gpr[a.index.value] * a.scale else 0;
    var sum := Wrap(base + index + a.displacement);
    Wrap((if a.address32 then Truncate(sum, W32) else sum) + SegmentBase(s, a.segment))
  }

  /** A tainted base or index is reported and taints the instruction. */
  function DecodeAddress(s: State, a: Address, next: u64): State {
    if AddressTainted(s, a)
    then s.(taint := true, reports := s.reports + [UninitPointer(DecodedAddress(s, a, next))])
    else s
  }

  /** `effective_address`: RIP-relative operands ignore the segment and the address size. */
  function EffectiveAddress(s: State, a: Address, next: u64): u64 {
    if a.ripRelative then Wrap(next + a.displacement) else DecodedAddress(s, a, next)
  }

  /** `decode_rm_operand` */
  function Locate(s: State, o: Operand, next: u64): (State, Place) {
    match o
    case Register(r) => (s, InRegister(r))
    case Memory(a) => (DecodeAddress(s, a, next), InMemory(EffectiveAddress(s, a, next)))
  }

  // ----- operands -----

  function ReadOperand(s: State, p: Place, w: Width, rex: bool): Exec<(State, u64)> {
    match p
    case InRegister(r) => Done(ReadGpr(s, r, w, rex))
    case InMemory(a) =>
      match Load(s.mem, a, Size(w))
      case Err(e) => Faulted(e, s.reports)
      case Ok(bs) =>
        var value := FromBytes(Values(bs));
        WordFits(Values(bs), w);
        if AllInitialized(bs) then Done((s, value))
        else Done((s.(taint := true, reports := s.reports + [UninitRead(a)]), value))
  }

  lemma WordFits(vs: seq<u8>, w: Width)
    requires |vs| == Size(w)
    ensures FromBytes(vs) < Modulus(w)
  {
    PowerOfSize(w);
  }

  lemma PowerOfSize(w: Width)
    ensures Pow256(Size(w)) == Modulus(w)
  {
    assert Pow256(1) == 256 && Pow256(2) == 256 * Pow256(1) && Pow256(3) == 256 * Pow256(2) && Pow256(4) == 256 * Pow256(3);
    assert Pow256(5) == 256 * Pow256(4) && Pow256(6) == 256 * Pow256(5) && Pow256(7) == 256 * Pow256(6) && Pow256(8) == 256 * Pow256(7);
  }

  function WriteOperand(s: State, p: Place, w: Width, rex: bool, v: u64): Exec<State> {
    match p
    case InRegister(r) => Done(WriteGpr(s, r, w, rex, v))
    case InMemory(a) =>
      var stored := Store(s.mem, a, Tainted(ToBytes(Truncate(v, w), Size(w)), s.taint));
      if stored.error.Some? then Faulted(stored.error.value, s.reports) else Done(s.(mem := stored.mem))
  }

  // ----- operations on values -----

  function Compute(op: AluOp, lhs: u64, rhs: u64, w: Width, rflags: u64): Flagged {
    match op
    case AddOp => Add(lhs, rhs, w, false, rflags)
    case AdcOp => Add(lhs, rhs, w, true, rflags)
    case SubOp => Sub(lhs, rhs, w, false, rflags)
    case CmpOp => Sub(lhs, rhs, w, false, rflags)
    case SbbOp => Sub(lhs, rhs, w, true, rflags)
    case OrOp => Logic(Or(lhs, rhs), w, rflags)
    case AndOp => Logic(And(lhs, rhs), w, rflags)
    case XorOp => Logic(Xor(lhs, rhs), w, rflags)
  }

  function Logic(v: u64, w: Width, rflags: u64): Flagged {
    Flagged(Truncate(v, w), LogicFlags(rflags, v, w))
  }

  /** The result and flags of a computation; the flags take the taint of the instruction. */
  function WithFlags(s: State, rflags: u64): State {
    s.(rflags := rflags, flagsTainted := s.taint)
  }

  function ShiftedLeft(v: nat, count: nat): nat
    decreases count
  {
    if count == 0 then v else ShiftedLeft(2 * v, count - 1)
  }

  function ShiftedRight(v: nat, count: nat): nat {
    if count == 0 then v else ShiftedRight(v / 2, count - 1)
  }

  /** The count is at most 63; SAR shifts the sign-extended word logically. */
  function ShiftedBy(op: ShiftOp, v: u64, w: Width, count: nat): u64 {
    match op
    case Shl => Truncate(Wrap(ShiftedLeft(v, count)), w)
    case Shr => Truncate(ShiftedRight(v, count), w)
    case Sar => Truncate(ShiftedRight(SignExtend(v, w), count), w)
  }

  function Reversed(bs: seq<u8>): (r: seq<u8>)
    ensures |r| == |bs|
  {
    seq(|bs|, i requires 0 <= i < |bs| => bs[|bs| - 1 - i])
  }

  function Swapped(v: u64, w: Width): u64 {
    WordFits(Reversed(ToBytes(v, Size(w))), w);
    FromBytes(Reversed(ToBytes(v, Size(w))))
  }

  /** `xor r, r`, `sub r, r` and `cmp r, r` do not depend on r. */
  predicate SelfCancelling(op: AluOp, destination: Place, source: Place) {
    destination.InRegister? && source.InRegister? && destination.reg == source.reg && op in {SubOp, XorOp, CmpOp}
  }

  // ----- the stack -----

  const RSP: Reg := 4

  /** The eight bytes of a word, each initialized exactly if its own shadow byte is clear. */
  function ShadowedBytes(v: u64, shadow: u64): (bs: seq<ShadowByte>)
    ensures |bs| == 8
  {
    seq(8, k requires 0 <= k < 8 => ShadowByte(Lane(v, k), Lane(shadow, k) == 0))
  }

  /** `push64(value, shadow)`; a tainted stack pointer is not reported. */
  function PushWord(s: State, v: u64, shadow: u64): Exec<State> {
    var top := Wrap(s.gpr[RSP] as int - 8);
    var stored := Store(s.mem, top, ShadowedBytes(v, shadow));
    if stored.error.Some? then Faulted(stored.error.value, s.reports)
    else Done(s.(gpr := s.gpr[RSP := top], mem := stored.mem))
  }

  /** A popped word and whether all of it is initialized. */
  datatype Popped = Popped(value: u64, initialized: bool)

  /** `pop64_with_shadow` */
  function PopWord(s: State): Exec<(State, Popped)> {
    match Load(s.mem, s.gpr[RSP], 8)
    case Err(e) => Faulted(e, s.reports)
    case Ok(bs) =>
      WordFits(Values(bs), W64);
      Done((s.(gpr := s.gpr[RSP := Wrap(s.gpr[RSP] as int + 8)]), Popped(FromBytes(Values(bs)), AllInitialized(bs))))
  }

  function ExecutePop(s: State, r: Reg): Exec<State> {
    var (s1, w) :- PopWord(s);
    Done(s1.(gpr := s1.gpr[r := w.value], shadow := s1.shadow[r := if w.initialized then 0 else TWO_64 - 1]))
  }

  function ExecuteCall(s: State, offset: int, next: u64): Exec<State> {
    var s1 :- PushWord(s, next, 0);
    Done(s1.(rip := Wrap(next + offset)))
  }

  /** RET ignores the shadow of the return address. */
  function ExecuteReturn(s: State, discard: nat): Exec<State> {
    var (s1, w) :- PopWord(s);
    Done(s1.(gpr := s1.gpr[RSP := Wrap(s1.gpr[RSP] as int + discard)], rip := w.value))
  }

  predicate UsesStack(i: Instruction) {
    i.Push? || i.PushImmediate? || i.Pop? || i.Call? || i.Return?
  }

  function ExecuteStack(s: State, i: Instruction, next: u64): Exec<State>
    requires UsesStack(i)
  {
    match i
    case Push(r) => PushWord(s, s.gpr[r], s.shadow[r])
    case PushImmediate(value) => PushWord(s, value, 0)
    case Pop(r) => ExecutePop(s, r)
    case Call(offset) => ExecuteCall(s, offset, next)
    case Return(discard) => ExecuteReturn(s, discard)
  }

  // ----- instructions -----

  function ExecuteMov(s: State, w: Width, rex: bool, destination: Place, source: Place): Exec<State> {
    var (s1, v) :- ReadOperand(s, source, w, rex);
    WriteOperand(s1, destination, w, rex, v)
  }

  function ExecuteExchange(s: State, w: Width, rex: bool, rm: Place, r: Reg): Exec<State> {
    var (s1, lhs) :- ReadOperand(s, rm, w, rex);
    var (s2, rhs) := ReadGpr(s1, r, w, rex);
    var s3 :- WriteOperand(s2, rm, w, rex, rhs);
    Done(WriteGpr(s3, r, w, rex, lhs))
  }

  function ExecuteTest(s: State, w: Width, rex: bool, rm: Place, r: Reg): Exec<State> {
    var (s1, lhs) :- ReadOperand(s, rm, w, rex);
    var (s2, rhs) := ReadGpr(s1, r, w, rex);
    Done(WithFlags(s2, LogicFlags(s2.rflags, And(lhs, rhs), w)))
  }

  /** Flags from both operands, then the result into the destination, except for CMP. */
  function Finish(s: State, op: AluOp, w: Width, rex: bool, destination: Place, lhs: u64, rhs: u64): Exec<State> {
    var r := Compute(op, lhs, rhs, w, s.rflags);
    var s1 := WithFlags(s, r.rflags);
    if op == CmpOp then Done(s1) else WriteOperand(s1, destination, w, rex, r.value)
  }

  function ExecuteArithmetic(s: State, op: AluOp, w: Width, rex: bool, destination: Place, source: Place): Exec<State> {
    var (s1, lhs) :- ReadOperand(s, destination, w, rex);
    var (s2, rhs) :- ReadOperand(s1, source, w, rex);
    Finish(if SelfCancelling(op, destination, source) then s2.(taint := false) else s2, op, w, rex, destination, lhs, rhs)
  }

  function ExecuteCount(s: State, up: bool, w: Width, rex: bool, rm: Place): Exec<State> {
    var (s1, v) :- ReadOperand(s, rm, w, rex);
    var r := CountResult(if up then Inc(v) else Dec(v), w, s1.rflags);
    WriteOperand(WithFlags(s1, r.rflags), rm, w, rex, r.value)
  }

  function ExecuteShift(s: State, op: ShiftOp, w: Width, rex: bool, rm: Place, count: nat): Exec<State> {
    if count == 0 then Done(s) else
    var (s1, v) :- ReadOperand(s, rm, w, rex);
    var result := ShiftedBy(op, v, w, count);
    WriteOperand(WithFlags(s1, LogicFlags(s1.rflags, result, w)), rm, w, rex, result)
  }

  function ExecuteSetCondition(s: State, cc: nat, rex: bool, rm: Place): Exec<State> {
    WriteOperand(s.(taint := s.taint || s.flagsTainted), rm, W8, rex, if Condition(cc % 16, s.rflags) then 1 else 0)
  }

  function ExecuteMoveIf(s: State, cc: nat, w: Width, rex: bool, r: Reg, source: Place): Exec<State> {
    var s1 := s.(taint := s.taint || s.flagsTainted);
    if !Condition(cc % 16, s1.rflags) then Done(s1) else
    var (s2, v) :- ReadOperand(s1, source, w, rex);
    Done(WriteGpr(s2, r, w, rex, v))
  }

  function ExecuteUnary(s: State, i: Instruction, rex: bool, rm: Place): Exec<State>
    requires i.NotOp? || i.NegOp? || i.TestImmediate?
  {
    var (s1, v) :- ReadOperand(s, rm, i.w, rex);
    match i
    case NotOp(w, _) => WriteOperand(s1, rm, w, rex, Not(v))
    case NegOp(w, _) =>
      var r := Sub(0, v, w, false, s1.rflags);
      WriteOperand(WithFlags(s1, r.rflags), rm, w, rex, r.value)
    case TestImmediate(w, _, value) => Done(WithFlags(s1, LogicFlags(s1.rflags, And(v, value), w)))
  }

  function ExecuteImmediate(s: State, op: AluOp, w: Width, rex: bool, destination: Place, value: u64): Exec<State> {
    var (s1, lhs) :- ReadOperand(s, destination, w, rex);
    Finish(s1, op, w, rex, destination, lhs, value)
  }

  function ExecuteExtend(s: State, signed: bool, from: Width, w: Width, rex: bool, r: Reg, source: Place): Exec<State> {
    var (s1, v) :- ReadOperand(s, source, from, rex);
    Done(WriteGpr(s1, r, w, rex, if signed then SignExtend(v, from) else v))
  }

  /** `xchg rax, r` swaps whole words and shadows without tainting. */
  function ExchangeRax(s: State, r: Reg): Exec<State> {
    Done(s.(gpr := s.gpr[0 := s.gpr[r]][r := s.gpr[0]], shadow := s.shadow[0 := s.shadow[r]][r := s.shadow[0]]))
  }

  /** One decoded instruction; `next` is the address after it and already in `s.rip`. */
  function Perform(s: State, i: Instruction, rex: bool, next: u64): Exec<State> {
    match i
    case Mov(w, destination, source) =>
      var (s1, d) := Locate(s, destination, next);
      var (s2, p) := Locate(s1, source, next);
      ExecuteMov(s2, w, rex, d, p)
    case MovImmediate(w, destination, value) =>
      var (s1, d) := Locate(s, destination, next);
      WriteOperand(s1, d, w, rex, value)
    case MovExtend(signed, from, w, r, source) =>
      var (s1, p) := Locate(s, source, next);
      ExecuteExtend(s1, signed, from, w, rex, r, p)
    case Lea(w, r, a) =>
      Done(WriteGpr(DecodeAddress(s, a, next), r, w, rex, DecodedAddress(s, a, next)))
    case Bswap(w, r) =>
      var (s1, v) := ReadGpr(s, r, w, rex);
      Done(WriteGpr(s1, r, w, rex, Swapped(v, w)))
    case Xchg(w, rm, r) =>
      var (s1, p) := Locate(s, rm, next);
      ExecuteExchange(s1, w, rex, p, r)
    case XchgRax(r) =>
      ExchangeRax(s, r)
    case NotOp(w, rm) => var (s1, p) := Locate(s, rm, next); ExecuteUnary(s1, i, rex, p)
    case NegOp(w, rm) => var (s1, p) := Locate(s, rm, next); ExecuteUnary(s1, i, rex, p)
    case TestImmediate(w, rm, _) => var (s1, p) := Locate(s, rm, next); ExecuteUnary(s1, i, rex, p)
    case Test(w, rm, r) => var (s1, p) := Locate(s, rm, next); ExecuteTest(s1, w, rex, p, r)
    case Arithmetic(op, w, destination, source) =>
      var (s1, d) := Locate(s, destination, next);
      var (s2, p) := Locate(s1, source, next);
      ExecuteArithmetic(s2, op, w, rex, d, p)
    case ArithmeticImmediate(op, w, destination, value) =>
      var (s1, d) := Locate(s, destination, next);
      ExecuteImmediate(s1, op, w, rex, d, value)
    case Count(up, w, rm) => var (s1, p) := Locate(s, rm, next); ExecuteCount(s1, up, w, rex, p)
    case Shift(op, w, rm, count) => var (s1, p) := Locate(s, rm, next); ExecuteShift(s1, op, w, rex, p, count % 64)
    case SetCondition(cc, rm) => var (s1, p) := Locate(s, rm, next); ExecuteSetCondition(s1, cc, rex, p)
    case MoveIf(cc, w, r, source) => var (s1, p) := Locate(s, source, next); ExecuteMoveIf(s1, cc, w, rex, r, p)
    case JumpIf(cc, offset) =>
      var s1 := if s.flagsTainted then s.(reports := s.reports + [UninitBranch]) else s;
      Done(if Condition(cc % 16, s1.rflags) then s1.(rip := Wrap(next + offset)) else s1)
    case Jump(offset) => Done(s.(rip := Wrap(next + offset)))
    case _ => ExecuteStack(s, i, next)
  }

  lemma StackPerforms(s: State, i: Instruction, rex: bool, next: u64)
    requires UsesStack(i)
    ensures !HasOneOperand(i) && Perform(s, i, rex, next) == ExecuteStack(s, i, next)
  {
    hide ExecuteStack;
  }

  predicate HasOneOperand(i: Instruction) {
    i.MovImmediate? || i.MovExtend? || i.Xchg? || i.NotOp? || i.NegOp? || i.Test? || i.TestImmediate?
    || i.ArithmeticImmediate? || i.Count? || i.Shift? || i.SetCondition? || i.MoveIf?
  }

  function OneOperand(i: Instruction): Operand
    requires HasOneOperand(i)
  {
    match i
    case MovImmediate(_, destination, _) => destination
    case ArithmeticImmediate(_, _, destination, _) => destination
    case MovExtend(_, _, _, _, source) => source
    case MoveIf(_, _, _, source) => source
    case Xchg(_, rm, _) => rm
    case NotOp(_, rm) => rm
    case NegOp(_, rm) => rm
    case Test(_, rm, _) => rm
    case TestImmediate(_, rm, _) => rm
    case Count(_, _, rm) => rm
    case Shift(_, _, rm, _) => rm
    case SetCondition(_, rm) => rm
  }

  /** The rest of a one-operand instruction, once its operand is located. */
  function Rest(s: State, i: Instruction, rex: bool, p: Place): Exec<State>
    requires HasOneOperand(i)
  {
    match i
    case MovImmediate(w, _, value) => WriteOperand(s, p, w, rex, value)
    case ArithmeticImmediate(op, w, _, value) => ExecuteImmediate(s, op, w, rex, p, value)
    case MovExtend(signed, from, w, r, _) => ExecuteExtend(s, signed, from, w, rex, r, p)
    case MoveIf(cc, w, r, _) => ExecuteMoveIf(s, cc, w, rex, r, p)
    case Xchg(w, _, r) => ExecuteExchange(s, w, rex, p, r)
    case NotOp(_, _) => ExecuteUnary(s, i, rex, p)
    case NegOp(_, _) => ExecuteUnary(s, i, rex, p)
    case TestImmediate(_, _, _) => ExecuteUnary(s, i, rex, p)
    case Test(w, _, r) => ExecuteTest(s, w, rex, p, r)
    case Count(up, w, _) => ExecuteCount(s, up, w, rex, p)
    case Shift(op, w, _, count) => ExecuteShift(s, op, w, rex, p, count % 64)
    case SetCondition(cc, _) => ExecuteSetCondition(s, cc, rex, p)
  }

  lemma RestOf(s: State, i: Instruction, rex: bool, next: u64)
    requires HasOneOperand(i)
    ensures Perform(s, i, rex, next) == var (s1, p) := Locate(s, OneOperand(i), next); Rest(s1, i, rex, p)
  {
    hide Locate, WriteOperand, ExecuteImmediate, ExecuteExtend, ExecuteMoveIf, ExecuteExchange, ExecuteUnary, ExecuteTest,
      ExecuteCount, ExecuteShift, ExecuteSetCondition;
  }

  /** `step`: the taint of the previous instruction is forgotten. */
  function Step(program: Program, s: State): Exec<State> {
    if s.rip !in program then Faulted(Unsupported, s.reports) else
    var d := program[s.rip];
    var next := Wrap(s.rip + d.length);
    Perform(s.(taint := false, rip := next), d.instruction, d.rex, next)
  }

  /** n steps, or fewer when the emulator stops on an error. */
  function Run(program: Program, s: State, n: nat): Exec<State>
    decreases n
  {
    if n == 0 then Done(s) else
    var s1 :- Step(program, s);
    Run(program, s1, n - 1)
  }
}
