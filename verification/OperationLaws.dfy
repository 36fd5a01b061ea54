/** What the operations compute, in plain arithmetic: the result, and each flag by what it means. */
module OperationLaws {
  import opened Words
  import opened Registers
  import opened Alu
  import opened Cpu
  import opened MulDiv
  import opened DataOps

  /** The low byte has an odd number of ones. */
  predicate OddOnes(v: int) {
    Ones((v % 256) as bv8) & 1 == 1
  }

  const ARITHMETIC_FLAGS := [CF, PF, AF, ZF, SF, OF]

  /** The status flags after an operation with this result. */
  predicate Status(f: u64, carry: bool, overflow: bool, v: nat, w: Width) {
    && Flag(f, CF) == carry && Flag(f, OF) == overflow
    && Flag(f, ZF) == (v == 0) && Flag(f, SF) == (v >= Modulus(w) / 2) && Flag(f, PF) == OddOnes(v)
  }

  /** A carry out of, or a borrow into, bit 3. */
  predicate AuxCarry(x: nat, y: nat, v: nat) {
    (x / 16 + y / 16 + v / 16) % 2 == 1
  }

  ghost predicate OthersKept(f: u64, f': u64, flags: seq<nat>) {
    forall k: nat :: k !in flags ==> Flag(f', k) == Flag(f, k)
  }

  function Carry(f: u64): nat {
    if Flag(f, CF) then 1 else 0
  }

  /** The two's-complement reading of w bits. */
  function Signed(x: nat, w: Width): int {
    if x >= Modulus(w) / 2 then x - Modulus(w) else x
  }

  /** x + y + c on w bits; at width 64 the carry out is lost. */
  ghost predicate IsSum(x: nat, y: nat, c: nat, w: Width, f: u64, v: nat, f': u64) {
    && v == (x + y + c) % Modulus(w)
    && Status(f', w != W64 && x + y + c >= Modulus(w), !InSignedRange(Signed(x, w) + Signed(y, w) + c, w), v, w)
    && Flag(f', AF) == AuxCarry(x, y, v) && OthersKept(f, f', ARITHMETIC_FLAGS)
  }

  /** x - y - c on w bits; at width 64 the borrow is lost when y + c wraps. */
  ghost predicate IsDifference(x: nat, y: nat, c: nat, w: Width, f: u64, v: nat, f': u64) {
    && v == (x - y - c) % Modulus(w)
    && Status(f', x < y + c < TWO_64, !InSignedRange(Signed(x, w) - Signed(y, w) - c, w), v, w)
    && Flag(f', AF) == AuxCarry(x, y, v) && OthersKept(f, f', ARITHMETIC_FLAGS)
  }

  ghost predicate IsBitwise(op: (bool, bool) -> bool, x: nat, y: nat, w: Width, f: u64, v: nat, f': u64) {
    && v < Modulus(w) && (forall k: nat :: k < Bits(w) ==> Bit(v, k) == op(Bit(x, k), Bit(y, k)))
    && LogicStatus(f, f', v, w)
  }

  /** CF and OF clear, AF as it was. */
  ghost predicate LogicStatus(f: u64, f': u64, v: nat, w: Width) {
    Status(f', false, false, v, w) && OthersKept(f, f', STATUS)
  }

  /** What each of the eight two-operand operations computes from w-bit operands. */
  ghost predicate Means(op: AluOp, x: nat, y: nat, w: Width, f: u64, v: nat, f': u64) {
    match op
    case AddOp => IsSum(x, y, 0, w, f, v, f')
    case AdcOp => IsSum(x, y, Carry(f), w, f, v, f')
    case SubOp => IsDifference(x, y, 0, w, f, v, f')
    case CmpOp => IsDifference(x, y, 0, w, f, v, f')
    case SbbOp => IsDifference(x, y, Carry(f), w, f, v, f')
    case OrOp => IsBitwise((p, q) => p || q, x, y, w, f, v, f')
    case AndOp => IsBitwise((p, q) => p && q, x, y, w, f, v, f')
    case XorOp => IsBitwise((p, q) => p != q, x, y, w, f, v, f')
  }

  // ----- flags -----

  lemma ParityMeans(v: u64)
    ensures Parity(v) == OddOnes(v)
  {
    hide ParityBits, Ones;
    ParityIsOdd((v % 256) as bv8);
  }

  lemma ArithmeticStatus(f: u64, carry: bool, aux: bool, v: u64, w: Width, overflow: bool)
    requires v < Modulus(w)
    ensures var f' := ArithFlags(f, carry, aux, v, w, overflow);
      Status(f', carry, overflow, v, w) && Flag(f', AF) == aux && OthersKept(f, f', ARITHMETIC_FLAGS)
  {
    hide Flag, ArithFlags, Parity, OddOnes, Truncate, Modulus;
    ArithFlagBits(f, carry, aux, v, w, overflow);
    ParityMeans(v);
    Fits(v, w);
  }

  lemma LogicFlagsMean(f: u64, v: u64, w: Width)
    ensures LogicStatus(f, LogicFlags(f, v, w), Truncate(v, w), w)
  {
    hide Flag, LogicFlags, Parity, OddOnes, Truncate, Modulus;
    LogicFlagBits(f, v, w);
    ParityMeans(Truncate(v, w));
    Fits(Truncate(v, w), w);
  }

  lemma BitFour(v: nat)
    ensures Bit(v, 4) <==> v / 16 % 2 == 1
  {
    assert Bit(v, 4) == Bit(v / 2, 3) && Bit(v / 2, 3) == Bit(v / 2 / 2, 2);
    assert Bit(v / 2 / 2, 2) == Bit(v / 2 / 2 / 2, 1) && Bit(v / 2 / 2 / 2, 1) == Bit(v / 2 / 2 / 2 / 2, 0);
  }

  lemma ThreeBits(a: nat, b: nat, c: nat)
    ensures (a + b + c) % 2 == 1 <==> ((a % 2 == 1) != (b % 2 == 1)) != (c % 2 == 1)
  {
  }

  lemma AuxMeans(x: u64, y: u64, w: Width, v: u64)
    ensures Aux(x, y, v) == AuxCarry(x, Truncate(y, w), v)
  {
    hide Bit, Truncate;
    BitFour(x);
    BitFour(Truncate(y, w));
    BitFour(v);
    BitOfTruncated(y, w, 4);
    ThreeBits(x / 16, Truncate(y, w) / 16, v / 16);
  }

  // ----- sums and differences -----

  lemma OnceAround(s: int, m: int)
    requires m > 0 && -m <= s < 2 * m
    ensures s % m == if s < 0 then s + m else if s < m then s else s - m
  {
    QuotientUnique(s, m, if s < 0 then -1 else if s < m then 0 else 1, if s < 0 then s + m else if s < m then s else s - m);
  }

  /** Overflow by signs is overflow of the signed sum; h is half of m. */
  lemma SumOverflow(x: int, y: int, c: int, m: int, h: int, v: int)
    requires m == 2 * h && h > 0 && 0 <= x < m && 0 <= y < m && 0 <= c <= 1
    requires v == if x + y + c < m then x + y + c else x + y + c - m
    ensures var sx, sy := if x >= h then x - m else x, if y >= h then y - m else y;
      ((x >= h) == (y >= h) && (x >= h) != (v >= h)) <==> !(-h <= sx + sy + c < h)
  {
  }

  lemma DifferenceOverflow(x: int, y: int, c: int, m: int, h: int, v: int)
    requires m == 2 * h && h > 0 && 0 <= x < m && 0 <= y < m && 0 <= c <= 1
    requires v == if x >= y + c then x - y - c else x - y - c + m
    ensures var sx, sy := if x >= h then x - m else x, if y >= h then y - m else y;
      ((x >= h) != (y >= h) && (x >= h) != (v >= h)) <==> !(-h <= sx - sy - c < h)
  {
  }

  lemma SignMeans(v: nat, w: Width)
    requires v < Modulus(w)
    ensures Sign(v, w) == (v >= Modulus(w) / 2)
  {
    hide Truncate, Modulus;
    Fits(v, w);
  }

  lemma SumSigns(x: nat, y: nat, c: nat, w: Width, v: nat)
    requires x < Modulus(w) && y < Modulus(w) && c <= 1 && v == (x + y + c) % Modulus(w)
    ensures (Sign(x, w) == Sign(y, w) && Sign(x, w) != Sign(v, w)) == !InSignedRange(Signed(x, w) + Signed(y, w) + c, w)
  {
    hide Sign, Modulus;
    HalfModulus(w);
    OnceAround(x + y + c, Modulus(w));
    SignMeans(x, w);
    SignMeans(y, w);
    SignMeans(v, w);
    SumOverflow(x, y, c, Modulus(w), Modulus(w) / 2, v);
  }

  lemma DifferenceSigns(x: nat, y: nat, c: nat, w: Width, v: nat)
    requires x < Modulus(w) && y < Modulus(w) && c <= 1 && v == (x - y - c) % Modulus(w)
    ensures (Sign(x, w) != Sign(y, w) && Sign(x, w) != Sign(v, w)) == !InSignedRange(Signed(x, w) - Signed(y, w) - c, w)
  {
    hide Sign, Modulus;
    HalfModulus(w);
    OnceAround(x - y - c, Modulus(w));
    SignMeans(x, w);
    SignMeans(y, w);
    SignMeans(v, w);
    DifferenceOverflow(x, y, c, Modulus(w), Modulus(w) / 2, v);
  }

  /** The sum as the flags see it; the right operand may be wider than the operation. */
  lemma AddInParts(x: u64, y: u64, w: Width, carry: bool, f: u64)
    requires x < Modulus(w)
    ensures var r, sum := Add(x, y, w, carry, f), x + Truncate(y, w) + CarryIn(carry, f);
      && r.value == sum % Modulus(w)
      && r.rflags == ArithFlags(f, Wrap(sum) >= Modulus(w), Aux(x, y, r.value), r.value, w,
           Sign(x, w) == Sign(y, w) && Sign(x, w) != Sign(r.value, w))
  {
    hide Flag, ArithFlags, Aux, CarryIn, Wrap, Truncate, Modulus, Sign;
    var sum := x + Truncate(y, w) + CarryIn(carry, f);
    Fits(x, w);
    WrapIsModulo(sum);
    LowTruncated(sum, w);
    LowIsModulo(sum);
  }

  lemma SignOfTruncated(y: u64, w: Width)
    ensures Sign(Truncate(y, w), w) == Sign(y, w)
  {
    hide Truncate, Modulus;
    Fits(Truncate(y, w), w);
  }

  lemma AddIsSum(x: u64, y: u64, w: Width, carry: bool, f: u64)
    requires x < Modulus(w)
    ensures var r := Add(x, y, w, carry, f); IsSum(x, Truncate(y, w), CarryIn(carry, f), w, f, r.value, r.rflags)
  {
    hide Add, Flag, ArithFlags, Aux, AuxCarry, Status, OthersKept, CarryIn, Wrap, Sign, Signed, InSignedRange, Modulus, Truncate;
    var c, r, right := CarryIn(carry, f), Add(x, y, w, carry, f), Truncate(y, w);
    AddInParts(x, y, w, carry, f);
    SumSigns(x, right, c, w, r.value);
    SignOfTruncated(y, w);
    CarryOut(x + right + c, w);
    AuxMeans(x, y, w, r.value);
    ArithmeticStatus(f, Wrap(x + right + c) >= Modulus(w), Aux(x, y, r.value), r.value, w,
      Sign(x, w) == Sign(y, w) && Sign(x, w) != Sign(r.value, w));
  }

  lemma CarryOut(sum: int, w: Width)
    requires 0 <= sum < 2 * Modulus(w)
    ensures Wrap(sum) >= Modulus(w) <==> w != W64 && sum >= Modulus(w)
  {
    WrapOnce(sum);
  }

  lemma SubInParts(x: u64, y: u64, w: Width, borrow: bool, f: u64)
    requires x < Modulus(w)
    ensures var r, right := Sub(x, y, w, borrow, f), Truncate(y, w) + CarryIn(borrow, f);
      && r.value == (x - right) % Modulus(w)
      && r.rflags == ArithFlags(f, x < Wrap(right), Aux(x, y, r.value), r.value, w,
           Sign(x, w) != Sign(y, w) && Sign(x, w) != Sign(r.value, w))
  {
    hide Flag, ArithFlags, Aux, CarryIn, Wrap, Truncate, Modulus, Sign;
    Fits(x, w);
    DifferenceValue(x, Truncate(y, w) + CarryIn(borrow, f), w);
  }

  lemma SubIsDifference(x: u64, y: u64, w: Width, borrow: bool, f: u64)
    requires x < Modulus(w)
    ensures var r := Sub(x, y, w, borrow, f); IsDifference(x, Truncate(y, w), CarryIn(borrow, f), w, f, r.value, r.rflags)
  {
    hide Sub, Flag, ArithFlags, Aux, AuxCarry, Status, OthersKept, CarryIn, Wrap, Sign, Signed, InSignedRange, Modulus, Truncate;
    var c, r, right := CarryIn(borrow, f), Sub(x, y, w, borrow, f), Truncate(y, w);
    SubInParts(x, y, w, borrow, f);
    assert x - (right + c) == x - right - c;
    DifferenceSigns(x, right, c, w, r.value);
    SignOfTruncated(y, w);
    WrapOnce(right + c);
    AuxMeans(x, y, w, r.value);
    ArithmeticStatus(f, x < Wrap(right + c), Aux(x, y, r.value), r.value, w,
      Sign(x, w) != Sign(y, w) && Sign(x, w) != Sign(r.value, w));
  }

  lemma DifferenceValue(x: u64, y: nat, w: Width)
    ensures Truncate(Wrap(x - Wrap(y)), w) == (x - y) % Modulus(w)
  {
    hide Wrap, Truncate, Modulus;
    WrapIsModulo(y);
    WrapIsModulo(x - Wrap(y));
    DifferenceModulo(x, y);
    LowIsModulo(x - y);
    LowTruncated(x - y, w);
  }

  lemma DifferenceModulo(x: int, y: int)
    ensures (x - y % TWO_64) % TWO_64 == (x - y) % TWO_64
  {
    var q, z := y / TWO_64, x - y % TWO_64;
    assert y == q * TWO_64 + y % TWO_64;
    assert x - y == (z / TWO_64 - q) * TWO_64 + z % TWO_64;
  }

  // ----- bitwise operations -----

  lemma LogicIsBitwise(op: (bool, bool) -> bool, x: u64, y: u64, w: Width, f: u64, bits: u64)
    requires forall k: nat :: k < 64 ==> Bit(bits, k) == op(Bit(x, k), Bit(y, k))
    ensures var r := Logic(bits, w, f); IsBitwise(op, x, Truncate(y, w), w, f, r.value, r.rflags)
  {
    hide Flag, LogicFlags, Status, OthersKept, Truncate, Bit;
    LogicFlagsMean(f, bits, w);
    forall k: nat | k < Bits(w) ensures Bit(Truncate(bits, w), k) == op(Bit(x, k), Bit(Truncate(y, w), k)) {
      BitOfTruncated(bits, w, k);
      BitOfTruncated(y, w, k);
    }
  }

  lemma BitOfTruncated(v: u64, w: Width, k: nat)
    requires k < Bits(w)
    ensures Bit(Truncate(v, w), k) == Bit(v, k)
  {
    hide Pow2, Bit;
    ModulusIsPower(w);
    BitOfModulo(v, Bits(w), k);
  }

  lemma {:induction false} BitOfModulo(v: nat, n: nat, k: nat)
    requires k < n
    ensures Bit(v % Pow2(n), k) == Bit(v, k)
    decreases n
  {
    HalfOfModulo(v, Pow2(n - 1));
    if k > 0 {
      BitOfModulo(v / 2, n - 1, k - 1);
    }
  }

  lemma HalfOfModulo(v: nat, p: nat)
    requires p > 0
    ensures v % (2 * p) % 2 == v % 2 && v % (2 * p) / 2 == v / 2 % p
  {
    var q, r := v / (2 * p), v % (2 * p);
    assert v == 2 * (q * p) + r by {
      assert q * (2 * p) == 2 * (q * p);
    }
    assert v / 2 == q * p + r / 2;
    QuotientUnique(v / 2, p, q, r / 2);
  }

  /** The operations compute what their names mean, of the low bits of the right operand. */
  lemma ComputeMeans(op: AluOp, x: u64, y: u64, w: Width, f: u64)
    requires x < Modulus(w)
    ensures var r := Compute(op, x, y, w, f); Means(op, x, Truncate(y, w), w, f, r.value, r.rflags)
  {
    hide Bit, Add, Sub, Logic, IsSum, IsDifference, IsBitwise, And, Or, Xor, Modulus, Truncate;
    match op {
      case AddOp => AddIsSum(x, y, w, false, f);
      case AdcOp => AddIsSum(x, y, w, true, f);
      case SubOp => SubIsDifference(x, y, w, false, f);
      case CmpOp => SubIsDifference(x, y, w, false, f);
      case SbbOp => SubIsDifference(x, y, w, true, f);
      case OrOp =>
        LogicBits(x, y);
        LogicIsBitwise((p, q) => p || q, x, y, w, f, Or(x, y));
      case AndOp =>
        LogicBits(x, y);
        LogicIsBitwise((p, q) => p && q, x, y, w, f, And(x, y));
      case XorOp =>
        LogicBits(x, y);
        LogicIsBitwise((p, q) => p != q, x, y, w, f, Xor(x, y));
    }
  }

  lemma LogicBits(x: u64, y: u64)
    ensures forall k: nat :: k < 64 ==> Bit(Or(x, y), k) == (Bit(x, k) || Bit(y, k))
    ensures forall k: nat :: k < 64 ==> Bit(And(x, y), k) == (Bit(x, k) && Bit(y, k))
    ensures forall k: nat :: k < 64 ==> Bit(Xor(x, y), k) == (Bit(x, k) != Bit(y, k))
  {
    hide Bit;
    Pow2Of64();
    forall k: nat | k < 64
      ensures Bit(Or(x, y), k) == (Bit(x, k) || Bit(y, k)) && Bit(And(x, y), k) == (Bit(x, k) && Bit(y, k))
        && Bit(Xor(x, y), k) == (Bit(x, k) != Bit(y, k))
    {
      BitOfBitwise((p, q) => p || q, x, y, 64, k);
      BitOfBitwise((p, q) => p && q, x, y, 64, k);
      BitOfBitwise((p, q) => p != q, x, y, 64, k);
    }
  }

  // ----- the condition codes after a comparison -----

  /** What condition cc says of the operands compared (Intel SDM volume 1, appendix B). */
  predicate Relation(cc: nat, x: nat, y: nat, w: Width)
    requires cc < 16
  {
    var sx, sy, d := Signed(x, w), Signed(y, w), (x - y) % Modulus(w);
    match cc
    case 0 => !InSignedRange(sx - sy, w)
    case 1 => InSignedRange(sx - sy, w)
    case 2 => x < y
    case 3 => x >= y
    case 4 => x == y
    case 5 => x != y
    case 6 => x <= y
    case 7 => x > y
    case 8 => Signed(d, w) < 0
    case 9 => Signed(d, w) >= 0
    case 10 => OddOnes(d)
    case 11 => !OddOnes(d)
    case 12 => sx < sy
    case 13 => sx >= sy
    case 14 => sx <= sy
    case _ => sx > sy
  }

  /** All sixteen condition codes, for any flags that a difference leaves. */
  lemma ConditionIsRelation(cc: nat, x: nat, y: nat, w: Width, f: u64, v: nat, f': u64)
    requires cc < 16 && x < Modulus(w) && y < Modulus(w) && IsDifference(x, y, 0, w, f, v, f')
    ensures Condition(cc, f') <==> Relation(cc, x, y, w)
  {
    hide Flag, OddOnes, AuxCarry, OthersKept, Modulus;
    var m := Modulus(w);
    HalfModulus(w);
    OnceAround(x - y, m);
    assert v == (x - y) % m;
    DifferenceOrder(x, y, m, m / 2, v);
  }

  lemma DifferenceOrder(x: int, y: int, m: int, h: int, d: int)
    requires m == 2 * h && 0 <= x < m && 0 <= y < m && d == if x >= y then x - y else x - y + m
    ensures var sx, sy := if x >= h then x - m else x, if y >= h then y - m else y;
      && (d == 0 <==> x == y) && (d == 0 <==> sx == sy)
      && ((d >= h) != !(-h <= sx - sy < h) <==> sx < sy)
  {
  }

  // ----- counting, shifting, extending, complementing -----

  /** x + 1 or x - 1 on w bits, with CF as it was. */
  ghost predicate IsCount(up: bool, x: nat, w: Width, f: u64, v: nat, f': u64) {
    var step := if up then 1 else -1;
    && v == (x + step) % Modulus(w)
    && Status(f', Flag(f, CF), !InSignedRange(Signed(x, w) + step, w), v, w)
    && Flag(f', AF) == AuxCarry(x, 1, v) && OthersKept(f, f', ARITHMETIC_FLAGS)
  }

  lemma CarryPutBack(f: u64, g: u64, carry: bool, overflow: bool, v: nat, w: Width)
    requires Status(g, carry, overflow, v, w) && OthersKept(f, g, ARITHMETIC_FLAGS)
    ensures var f' := SetFlag(g, CF, Flag(f, CF));
      Status(f', Flag(f, CF), overflow, v, w) && Flag(f', AF) == Flag(g, AF) && OthersKept(f, f', ARITHMETIC_FLAGS)
  {
    hide Flag, SetFlag, OddOnes, Modulus;
    SetFlagBits(g, CF, Flag(f, CF));
  }

  lemma CountMeans(up: bool, x: u64, w: Width, f: u64)
    requires x < Modulus(w)
    ensures var r := CountResult(if up then Inc(x) else Dec(x), w, f); IsCount(up, x, w, f, r.value, r.rflags)
  {
    hide Add, Sub, Flag, SetFlag, AuxCarry, Status, OthersKept, Modulus, Signed, InSignedRange, Truncate;
    SmallestModulus(w);
    Fits(1, w);
    var overflow := !InSignedRange(Signed(x, w) + if up then 1 else -1, w);
    if up {
      var r := Add(x, 1, w, false, f);
      AddIsSum(x, 1, w, false, f);
      assert Signed(x, w) + Signed(1, w) + 0 == Signed(x, w) + 1;
      CarryPutBack(f, r.rflags, w != W64 && x + 1 + 0 >= Modulus(w), overflow, r.value, w);
    } else {
      var r := Sub(x, 1, w, false, f);
      SubIsDifference(x, 1, w, false, f);
      assert Signed(x, w) - Signed(1, w) - 0 == Signed(x, w) + -1;
      CarryPutBack(f, r.rflags, x < 1 + 0 < TWO_64, overflow, r.value, w);
    }
  }

  lemma SmallestModulus(w: Width)
    ensures 1 < Modulus(w) && Signed(1, w) == 1
  {
  }

  /** A shift by n < 64 places. SAR fills the 64-bit sign extension from the top with zeros. */
  predicate IsShift(op: ShiftOp, x: nat, w: Width, n: nat, v: nat) {
    match op
    case Shl => v == x * Pow2(n) % Modulus(w)
    case Shr => v == x / Pow2(n)
    case Sar => v == Signed(x, w) % TWO_64 / Pow2(n) % Modulus(w)
  }

  lemma ShiftMeans(op: ShiftOp, x: u64, w: Width, n: nat)
    requires x < Modulus(w)
    ensures IsShift(op, x, w, n, ShiftedBy(op, x, w, n))
  {
    hide Wrap, Pow2, Signed, Modulus, SignExtend, ShiftedLeft, ShiftedRight;
    match op {
      case Shl => ShlMultiplies(x, w, n);
      case Shr => ShrDivides(x, w, n);
      case Sar =>
        ShiftedRightIsQuotient(SignExtend(x, w), n);
        SignExtendMeans(x, w);
    }
  }

  lemma SignExtendMeans(x: u64, w: Width)
    requires x < Modulus(w)
    ensures SignExtend(x, w) == Signed(x, w) % TWO_64
  {
    hide Truncate, Modulus;
    Fits(x, w);
    OnceAround(Signed(x, w), TWO_64);
  }

  /** A sign-extended word, cut to w bits. */
  lemma ExtensionMeans(x: u64, from: Width, w: Width)
    requires x < Modulus(from)
    ensures Truncate(SignExtend(x, from), w) == Signed(x, from) % Modulus(w)
  {
    hide Truncate, SignExtend, Signed, Modulus;
    SignExtendMeans(x, from);
    LowIsModulo(Signed(x, from));
    LowTruncated(Signed(x, from), w);
  }

  lemma ComplementMeans(x: u64, w: Width)
    requires x < Modulus(w)
    ensures Truncate(Not(x), w) == Modulus(w) - 1 - x
  {
    var m := Modulus(w);
    var k := match w case W8 => 0x100_0000_0000_0000 case W16 => 0x1_0000_0000_0000 case W32 => 0x1_0000_0000 case W64 => 1;
    assert k * m == TWO_64;
    QuotientUnique(Not(x), m, k - 1, m - 1 - x);
  }
}
