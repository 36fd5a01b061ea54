/** One-operand MUL, IMUL, DIV and IDIV: the accumulator pair AX, DX:AX, EDX:EAX or RDX:RAX as one
    double-width number. */
module MulDiv {
  import opened Words
  import opened FlatMemory
  import opened Registers
  import opened Alu
  import opened Cpu

  const RAX: Reg := 0
  const RDX: Reg := 2

  datatype MulDivOp = Mul | Imul | Div | Idiv

  // ----- the instructions -----

  /** `static_cast<u64>` of a wider integer */
  function Low64(x: int): u64 {
    x % TWO_64
  }

  /** `static_cast<i64>` */
  function AsI64(x: u64): int {
    if x >= TWO_64 / 2 then x - TWO_64 else x
  }

  /** The operand as the signed instructions see it. */
  function SignedOperand(v: u64, w: Width): int {
    AsI64(SignExtend(v, w))
  }

  /** The product goes to AX, or its low half to RAX and its high half to RDX. */
  function WriteProduct(s: State, w: Width, rex: bool, p: int): State {
    if w == W8 then WriteGpr(s, RAX, W16, rex, Low64(p))
    else WriteGpr(WriteGpr(s, RAX, w, rex, Low64(p)), RDX, w, rex, Low64(p / Modulus(w)))
  }

  /** CF and OF, without touching the taint of the flags. */
  function WithCarryOverflow(s: State, on: bool): State {
    s.(rflags := SetFlag(SetFlag(s.rflags, CF, on), OF, on))
  }

  function ExecuteMul(s: State, w: Width, rex: bool, v: u64): State {
    var (s1, a) := ReadGpr(s, RAX, w, rex);
    WithCarryOverflow(WriteProduct(s1, w, rex, a * v), a * v / Modulus(w) != 0)
  }

  function ExecuteImul(s: State, w: Width, rex: bool, v: u64): State {
    var (s1, a) := ReadGpr(s, RAX, w, rex);
    var p := SignedOperand(a, w) * SignedOperand(v, w);
    WithCarryOverflow(WriteProduct(s1, w, rex, p), p != SignedOperand(Low64(p), w))
  }

  /** Quotient and remainder go to AL and AH, or to RAX and RDX. */
  function WriteQuotient(s: State, w: Width, rex: bool, q: int, r: int): State {
    if w == W8 then WriteGpr(s, RAX, W16, rex, r % 256 * 256 + q % 256)
    else WriteGpr(WriteGpr(s, RAX, w, rex, Low64(q)), RDX, w, rex, Low64(r))
  }

  /** The state after reading the dividend, which taints as its registers do. */
  function ReadDividend(s: State, w: Width, rex: bool): State {
    if w == W8 then ReadGpr(s, RAX, W16, rex).0 else ReadGpr(ReadGpr(s, RDX, w, rex).0, RAX, w, rex).0
  }

  /** The unsigned double-width accumulator. */
  function Wide(s: State, w: Width): nat {
    if w == W8 then Extract(s.gpr, RAX, W16, false)
    else Extract(s.gpr, RDX, w, false) * Modulus(w) + Extract(s.gpr, RAX, w, false)
  }

  function SignedWide(s: State, w: Width): int {
    if w == W8 then SignedOperand(Extract(s.gpr, RAX, W16, false), W16)
    else SignedOperand(Extract(s.gpr, RDX, w, false), w) * Modulus(w) + Extract(s.gpr, RAX, w, false)
  }

  function ExecuteDiv(s: State, w: Width, rex: bool, v: u64): Exec<State> {
    if v == 0 then Faulted(DivideByZero, s.reports) else
    var s1, q, r := ReadDividend(s, w, rex), Wide(s, w) / v, Wide(s, w) % v;
    if q >= Modulus(w) then Faulted(DivideOverflow, s.reports) else Done(WriteQuotient(s1, w, rex, q, r))
  }

  /** Division that rounds toward zero. */
  function Quotient(x: int, y: int): int
    requires y != 0
  {
    if x >= 0 then x / y else -((-x) / y)
  }

  function ExecuteIdiv(s: State, w: Width, rex: bool, v: u64): Exec<State> {
    var d := SignedOperand(v, w);
    if d == 0 then Faulted(DivideByZero, s.reports) else
    var s1, q := ReadDividend(s, w, rex), Quotient(SignedWide(s, w), d);
    var r := SignedWide(s, w) - q * d;
    if q < -(Modulus(w) / 2) || q >= Modulus(w) / 2 then Faulted(DivideOverflow, s.reports)
    else Done(WriteQuotient(s1, w, rex, q, r))
  }

  function ExecuteMulDiv(s: State, op: MulDivOp, w: Width, rex: bool, rm: Place): Exec<State> {
    var (s1, v) :- ReadOperand(s, rm, w, rex);
    match op
    case Mul => Done(ExecuteMul(s1, w, rex, v))
    case Imul => Done(ExecuteImul(s1, w, rex, v))
    case Div => ExecuteDiv(s1, w, rex, v)
    case Idiv => ExecuteIdiv(s1, w, rex, v)
  }

  // ----- reading back what was written -----

  lemma WrittenReads(f: File, r: Reg, w: Width, rex: bool, v: u64)
    requires r < 4 && v < Modulus(w)
    ensures Extract(Insert(f, r, w, rex, v), r, w, false) == v
    ensures forall i: Reg :: i != r ==> Insert(f, r, w, rex, v)[i] == f[i]
  {
    hide Extract, Insert, Modulus;
    InsertThenExtract(f, r, w, rex, v);
    RexFree(Insert(f, r, w, rex, v), r, w, rex);
  }

  lemma LowIsModulo(x: int)
    ensures Low64(x) == x % TWO_64
  {
  }

  /** Half a word is a whole number of words, so truncating twice is truncating once. */
  lemma LowTruncated(x: int, w: Width)
    ensures Truncate(Low64(x), w) == x % Modulus(w)
  {
    var m := Modulus(w);
    var k := match w case W8 => 0x100_0000_0000_0000 case W16 => 0x1_0000_0000_0000 case W32 => 0x1_0000_0000 case W64 => 1;
    assert k * m == TWO_64;
    var q, r := x / TWO_64, x % TWO_64;
    assert x == (q * k + r / m) * m + r % m by {
      assert q * (k * m) == q * k * m;
      assert r == r / m * m + r % m;
    }
    QuotientUnique(x, m, q * k + r / m, r % m);
  }

  lemma PairAfter(s: State, w: Width, rex: bool, x: int, y: int)
    ensures var s' := WriteGpr(WriteGpr(s, RAX, w, rex, Low64(x)), RDX, w, rex, Low64(y));
      Extract(s'.gpr, RAX, w, false) == x % Modulus(w) && Extract(s'.gpr, RDX, w, false) == y % Modulus(w)
  {
    hide Extract, Insert, Truncate, Modulus, Low64;
    LowTruncated(x, w);
    LowTruncated(y, w);
    var f := Insert(s.gpr, RAX, w, rex, Truncate(Low64(x), w));
    WrittenReads(s.gpr, RAX, w, rex, Truncate(Low64(x), w));
    WrittenReads(f, RDX, w, rex, Truncate(Low64(y), w));
    OtherRegister(f, Insert(f, RDX, w, rex, Truncate(Low64(y), w)), RAX, w);
  }

  lemma OtherRegister(f: File, f': File, r: Reg, w: Width)
    requires r < 4 && f'[r] == f[r]
    ensures Extract(f', r, w, false) == Extract(f, r, w, false)
  {
  }

  lemma AxAfter(s: State, rex: bool, x: int)
    ensures Extract(WriteGpr(s, RAX, W16, rex, Low64(x)).gpr, RAX, W16, false) == x % 0x1_0000
  {
    hide Extract, Insert, Truncate, Low64;
    LowTruncated(x, W16);
    WrittenReads(s.gpr, RAX, W16, rex, Truncate(Low64(x), W16));
  }

  // ----- multiplication -----

  lemma TimesMono(a: int, b: int, c: int)
    requires a <= b && c >= 0
    ensures a * c <= b * c
  {
  }

  lemma ProductBound(a: nat, b: nat, m: nat)
    requires a < m && b < m
    ensures 0 <= a * b < m * m
    ensures (a * b / m) * m + a * b % m == a * b && 0 <= a * b / m < m
  {
    var p := a * b;
    TimesMono(a, m - 1, b);
    TimesMono(b, m, m);
    assert p <= (m - 1) * b == m * b - b;
    assert p >= 0;
    assert p < m * m;
    QuotientFits(p, m, m);
  }

  /** A double-width product, read back from the accumulator. */
  lemma WideAfterProduct(s: State, w: Width, rex: bool, a: nat, b: nat)
    requires a < Modulus(w) && b < Modulus(w)
    ensures Wide(WriteProduct(s, w, rex, a * b), w) == a * b
  {
    hide Extract, WriteGpr, Modulus, Low64;
    ProductBound(a, b, Modulus(w));
    if w == W8 {
      ByteModulus();
      AxAfter(s, rex, a * b);
    } else {
      PairAfter(s, w, rex, a * b, a * b / Modulus(w));
      SmallModulo(a * b / Modulus(w), Modulus(w));
    }
  }

  lemma ByteModulus()
    ensures Modulus(W8) * Modulus(W8) == Modulus(W16) == 0x1_0000
  {
  }

  lemma CarryOverflowFlags(s: State, on: bool)
    ensures var f := WithCarryOverflow(s, on).rflags;
      Flag(f, CF) == on && Flag(f, OF) == on && forall k: nat :: k != CF && k != OF ==> Flag(f, k) == Flag(s.rflags, k)
  {
    hide SetFlag, Flag;
    SetFlagBits(s.rflags, CF, on);
    SetFlagBits(SetFlag(s.rflags, CF, on), OF, on);
  }

  /** MUL leaves the exact double-width product, and CF and OF say whether it needs the high half. */
  lemma MulIsExact(s: State, w: Width, rex: bool, v: u64)
    requires v < Modulus(w)
    ensures var s', product := ExecuteMul(s, w, rex, v), Extract(s.gpr, RAX, w, false) * v;
      Wide(s', w) == product && (Flag(s'.rflags, CF) <==> product >= Modulus(w)) && Flag(s'.rflags, OF) == Flag(s'.rflags, CF)
  {
    hide Extract, Modulus, WriteProduct, WithCarryOverflow;
    var a := Extract(s.gpr, RAX, w, false);
    RexFree(s.gpr, RAX, w, rex);
    var s1 := ReadGpr(s, RAX, w, rex).0;
    ProductBound(a, v, Modulus(w));
    WideAfterProduct(s1, w, rex, a, v);
    var on := a * v / Modulus(w) != 0;
    CarryOverflowFlags(WriteProduct(s1, w, rex, a * v), on);
    SameAccumulator(WriteProduct(s1, w, rex, a * v), on, w);
    HighHalf(a * v, Modulus(w));
  }

  lemma HighHalf(p: nat, m: nat)
    requires m > 0
    ensures p / m != 0 <==> p >= m
  {
  }

  lemma SameAccumulator(s: State, on: bool, w: Width)
    ensures WithCarryOverflow(s, on).gpr == s.gpr
    ensures Wide(WithCarryOverflow(s, on), w) == Wide(s, w) && SignedWide(WithCarryOverflow(s, on), w) == SignedWide(s, w)
  {
    hide SetFlag, Extract;
  }

  lemma RexFree(f: File, r: Reg, w: Width, rex: bool)
    requires r < 4
    ensures Extract(f, r, w, rex) == Extract(f, r, w, false)
  {
  }

  /** The signed operand is the low bits read as two's complement. */
  lemma SignedIsSigned(v: u64, w: Width)
    ensures SignedOperand(v, w) == ToSigned(v, w)
    ensures -(Modulus(w) / 2) <= SignedOperand(v, w) < Modulus(w) / 2
    ensures SignedOperand(v, w) == 0 <==> Truncate(v, w) == 0
  {
    hide Truncate;
  }

  /** A word that holds a number modulo 2^w gives it back if it is in signed range. */
  lemma SignedBack(x: int, w: Width)
    ensures SignedOperand(Low64(x), w) == x <==> -(Modulus(w) / 2) <= x < Modulus(w) / 2
  {
    hide Truncate, Low64, SignedOperand;
    SignedIsSigned(Low64(x), w);
    LowTruncated(x, w);
    SignedResidue(x, Modulus(w));
    HalfModulus(w);
  }

  lemma SignedResidue(x: int, m: int)
    requires m > 0 && m == 2 * (m / 2)
    ensures -(m / 2) <= x < m / 2 ==> x % m == if x < 0 then x + m else x
  {
    if -(m / 2) <= x < 0 {
      QuotientUnique(x, m, -1, x + m);
    } else if 0 <= x < m / 2 {
      QuotientUnique(x, m, 0, x);
    }
  }

  lemma SignedProductBound(a: int, b: int, h: int)
    requires h >= 0 && -h <= a < h && -h <= b < h
    ensures -(h * h) <= a * b <= h * h
  {
    if b >= 0 {
      ScaledBound(a, b, h);
    } else {
      ScaledBound(a, -b, h);
      assert a * -b == -(a * b);
    }
  }

  lemma ScaledBound(a: int, c: int, h: int)
    requires -h <= a <= h && 0 <= c <= h
    ensures -(h * h) <= a * c <= h * h
  {
    TimesMono(a, h, c);
    TimesMono(-h, a, c);
    TimesMono(c, h, h);
    assert (-h) * c == -(h * c) && c * h == h * c;
  }

  /** A signed double-width number, split into a signed high and an unsigned low half. */
  lemma SignedSplit(p: int, m: int)
    requires m > 0 && m == 2 * (m / 2) && -(m / 2 * (m / 2)) <= p <= m / 2 * (m / 2)
    ensures p / m * m + p % m == p && -(m / 2) <= p / m < m / 2
  {
    var h := m / 2;
    var q := p / m;
    assert h * m == 2 * (h * h);
    assert (-h - 1) * m == -(2 * (h * h)) - m;
    if q >= h {
      TimesMono(h, q, m);
    } else if q < -h {
      TimesMono(q, -h - 1, m);
    }
  }

  lemma SignedWideAfterProduct(s: State, w: Width, rex: bool, p: int)
    requires var h := Modulus(w) / 2; -(h * h) <= p <= h * h
    ensures SignedWide(WriteProduct(s, w, rex, p), w) == p
  {
    hide Extract, WriteGpr, Modulus, Low64, SignedOperand;
    HalfModulus(w);
    if w == W8 {
      ByteModulus();
      ByteHalf();
      AxAfter(s, rex, p);
      SignedBack(p, W16);
      LowTruncated(p, W16);
      SameSigned(p % 0x1_0000, Low64(p), W16);
    } else {
      var m := Modulus(w);
      SignedSplit(p, m);
      PairAfter(s, w, rex, p, p / m);
      SignedBack(p / m, w);
      LowTruncated(p / m, w);
      SameSigned(Truncate(Low64(p / m), w), Low64(p / m), w);
    }
  }

  lemma ByteHalf()
    ensures Modulus(W8) / 2 == 128 && Modulus(W16) / 2 == 0x8000
  {
  }

  /** Only the low bits matter. */
  lemma SameSigned(x: u64, y: u64, w: Width)
    requires x == Truncate(y, w)
    ensures SignedOperand(x, w) == SignedOperand(y, w)
  {
    hide Truncate;
    Fits(x, w);
  }

  /** IMUL leaves the exact signed product, and CF and OF say whether it exceeds a signed word. */
  lemma ImulIsExact(s: State, w: Width, rex: bool, v: u64)
    ensures var s', product := ExecuteImul(s, w, rex, v), ToSigned(Extract(s.gpr, RAX, w, false), w) * ToSigned(v, w);
      && SignedWide(s', w) == product
      && (Flag(s'.rflags, CF) <==> !(-(Modulus(w) / 2) <= product < Modulus(w) / 2))
      && Flag(s'.rflags, OF) == Flag(s'.rflags, CF)
  {
    hide Extract, Modulus, WriteProduct, WithCarryOverflow, SignedOperand, ToSigned, Low64;
    var a := Extract(s.gpr, RAX, w, false);
    RexFree(s.gpr, RAX, w, rex);
    SignedIsSigned(a, w);
    SignedIsSigned(v, w);
    var s1, p := ReadGpr(s, RAX, w, rex).0, SignedOperand(a, w) * SignedOperand(v, w);
    HalfModulus(w);
    SignedProductBound(SignedOperand(a, w), SignedOperand(v, w), Modulus(w) / 2);
    SignedWideAfterProduct(s1, w, rex, p);
    SignedBack(p, w);
    var on := p != SignedOperand(Low64(p), w);
    CarryOverflowFlags(WriteProduct(s1, w, rex, p), on);
    SameAccumulator(WriteProduct(s1, w, rex, p), on, w);
  }

  // ----- division -----

  /** Where DIV leaves its results. */
  function QuotientOf(s: State, w: Width): u64 {
    Extract(s.gpr, RAX, w, false)
  }

  function RemainderOf(s: State, w: Width): u64 {
    if w == W8 then Extract(s.gpr, 4, W8, false) else Extract(s.gpr, RDX, w, false)
  }

  lemma HalvesOfAx(f: File)
    ensures var ax := Extract(f, RAX, W16, false);
      Extract(f, RAX, W8, false) == ax % 256 && Extract(f, 4, W8, false) == ax / 256
  {
    var v := f[RAX];
    assert v % 0x1_0000 == v / 256 % 256 * 256 + v % 256;
  }

  lemma QuotientWritten(s: State, w: Width, rex: bool, q: int, r: int)
    ensures var s' := WriteQuotient(s, w, rex, q, r);
      QuotientOf(s', w) == q % Modulus(w) && RemainderOf(s', w) == r % Modulus(w)
  {
    hide Extract, WriteGpr, Low64;
    if w == W8 {
      var ax := r % 256 * 256 + q % 256;
      HalvesOfAx(WriteGpr(s, RAX, W16, rex, ax).gpr);
      assert Low64(ax) == ax by {
        SmallLow(ax);
      }
      AxAfter(s, rex, ax);
      SmallModulo(ax, 0x1_0000);
    } else {
      hide Modulus;
      PairAfter(s, w, rex, q, r);
    }
  }

  lemma SmallLow(x: u64)
    ensures Low64(x) == x
  {
  }

  /** DIV faults exactly when the divisor is zero or the quotient needs more than a word; otherwise
      dividend = quotient * divisor + remainder with the remainder below the divisor. */
  lemma DivIsExact(s: State, w: Width, rex: bool, v: u64)
    requires v < Modulus(w)
    ensures ExecuteDiv(s, w, rex, v).Done? <==> v != 0 && Wide(s, w) < Modulus(w) * v
    ensures v == 0 ==> ExecuteDiv(s, w, rex, v) == Faulted(DivideByZero, s.reports)
    ensures v != 0 && Wide(s, w) >= Modulus(w) * v ==> ExecuteDiv(s, w, rex, v) == Faulted(DivideOverflow, s.reports)
    ensures ExecuteDiv(s, w, rex, v).Done? ==>
      var s' := ExecuteDiv(s, w, rex, v).value;
      Wide(s, w) == QuotientOf(s', w) * v + RemainderOf(s', w) && RemainderOf(s', w) < v
  {
    hide Modulus, Wide, QuotientOf, RemainderOf, WriteQuotient, ReadDividend;
    if v != 0 {
      var x, m := Wide(s, w), Modulus(w);
      QuotientFits(x, v, m);
      if x / v < m {
        QuotientWritten(ReadDividend(s, w, rex), w, rex, x / v, x % v);
        SmallModulo(x / v, m);
        SmallModulo(x % v, m);
      }
    }
  }

  lemma QuotientFits(x: nat, v: nat, m: nat)
    requires v > 0
    ensures x / v < m <==> x < m * v
    ensures x == x / v * v + x % v && 0 <= x % v < v
  {
    assert x / v >= m ==> x / v * v >= m * v;
    assert x / v <= m - 1 ==> x / v * v <= (m - 1) * v;
    assert (m - 1) * v == m * v - v;
  }

  lemma QuotientTruncates(x: int, d: int)
    requires d != 0
    ensures var q := Quotient(x, d);
      var r := x - q * d;
      Abs(r) < Abs(d) && (r == 0 || (r > 0 <==> x > 0))
  {
    var y := Abs(x);
    assert y == y / d * d + y % d;
    assert (-(y / d)) * d == -(y / d * d);
  }

  function Abs(x: int): nat {
    if x >= 0 then x else -x
  }

  /** What a signed word holds after the instruction. */
  function SignedQuotientOf(s: State, w: Width): int {
    ToSigned(QuotientOf(s, w), w)
  }

  function SignedRemainderOf(s: State, w: Width): int {
    ToSigned(RemainderOf(s, w), w)
  }

  lemma SignedWritten(s: State, w: Width, rex: bool, q: int, r: int)
    requires InSignedRange(q, w) && InSignedRange(r, w)
    ensures var s' := WriteQuotient(s, w, rex, q, r); SignedQuotientOf(s', w) == q && SignedRemainderOf(s', w) == r
  {
    hide WriteQuotient, QuotientOf, RemainderOf, Modulus, ToSigned, Low64;
    QuotientWritten(s, w, rex, q, r);
    SignedResidueBack(q, w);
    SignedResidueBack(r, w);
  }

  lemma SignedResidueBack(x: int, w: Width)
    requires InSignedRange(x, w)
    ensures 0 <= x % Modulus(w) < TWO_64 && ToSigned(x % Modulus(w), w) == x
  {
    hide Truncate;
    HalfModulus(w);
    SignedResidue(x, Modulus(w));
    Fits(x % Modulus(w), w);
  }

  /** IDIV faults exactly when the divisor is zero or the truncated quotient is out of signed range;
      otherwise it truncates toward zero and the remainder takes the sign of the dividend. */
  lemma IdivIsExact(s: State, w: Width, rex: bool, v: u64)
    ensures var d, x := ToSigned(v, w), SignedWide(s, w);
      && (ExecuteIdiv(s, w, rex, v).Done? <==> d != 0 && InSignedRange(Quotient(x, d), w))
      && (d == 0 ==> ExecuteIdiv(s, w, rex, v) == Faulted(DivideByZero, s.reports))
      && (d != 0 && !InSignedRange(Quotient(x, d), w) ==> ExecuteIdiv(s, w, rex, v) == Faulted(DivideOverflow, s.reports))
    ensures ExecuteIdiv(s, w, rex, v).Done? ==>
      var s', d, x := ExecuteIdiv(s, w, rex, v).value, ToSigned(v, w), SignedWide(s, w);
      && x == SignedQuotientOf(s', w) * d + SignedRemainderOf(s', w)
      && Abs(SignedRemainderOf(s', w)) < Abs(d)
      && (SignedRemainderOf(s', w) == 0 || (SignedRemainderOf(s', w) > 0 <==> x > 0))
  {
    hide Modulus, SignedWide, QuotientOf, RemainderOf, WriteQuotient, ReadDividend, SignedOperand, Quotient, ToSigned,
      SignedQuotientOf, SignedRemainderOf;
    SignedIsSigned(v, w);
    var d, x := ToSigned(v, w), SignedWide(s, w);
    if d != 0 && InSignedRange(Quotient(x, d), w) {
      QuotientTruncates(x, d);
      SignedWritten(ReadDividend(s, w, rex), w, rex, Quotient(x, d), x - Quotient(x, d) * d);
    }
  }

  // ----- there and back -----

  lemma ExactQuotient(a: int, d: int)
    requires d != 0
    ensures Quotient(a * d, d) == a
  {
    var x := a * d;
    if x >= 0 {
      QuotientOfProduct(x, a, d);
    } else {
      assert -x == (-a) * d;
      QuotientOfProduct(-x, -a, d);
    }
  }

  lemma QuotientOfProduct(x: int, a: int, d: int)
    requires d != 0 && x == a * d
    ensures x / d == a
  {
    if d > 0 {
      QuotientUnique(x, d, a, 0);
    } else {
      QuotientUnique(x, -d, -a, 0);
      assert x / d == -(x / -d);
    }
  }

  /** MUL, then DIV by the same nonzero operand: the accumulator comes back, remainder zero. */
  lemma MulThenDiv(s: State, w: Width, rex: bool, v: u64)
    requires 0 < v < Modulus(w)
    ensures var r := ExecuteDiv(ExecuteMul(s, w, rex, v), w, rex, v);
      r.Done? && QuotientOf(r.value, w) == QuotientOf(s, w) && RemainderOf(r.value, w) == 0
  {
    hide Modulus, Wide, Extract, RemainderOf, WriteQuotient, ReadDividend, ExecuteMul, ExecuteDiv, Flag;
    var a: nat := Extract(s.gpr, RAX, w, false);
    var s1 := ExecuteMul(s, w, rex, v);
    MulIsExact(s, w, rex, v);
    DivIsExact(s1, w, rex, v);
    BelowMultiple(a, Modulus(w), v);
    var s2 := ExecuteDiv(s1, w, rex, v).value;
    SameQuotient(a * v, v, a, QuotientOf(s2, w), RemainderOf(s2, w));
  }

  lemma BelowMultiple(a: nat, m: nat, v: nat)
    requires a < m && v > 0
    ensures a * v < m * v
  {
  }

  lemma SameQuotient(x: int, v: int, a: int, q: int, r: int)
    requires v > 0 && x == a * v && x == q * v + r && 0 <= r < v
    ensures q == a && r == 0
  {
    QuotientUnique(x, v, a, 0);
    QuotientUnique(x, v, q, r);
  }

  /** IMUL, then IDIV by the same nonzero operand: the signed accumulator comes back. */
  lemma ImulThenIdiv(s: State, w: Width, rex: bool, v: u64)
    requires Truncate(v, w) != 0
    ensures var r := ExecuteIdiv(ExecuteImul(s, w, rex, v), w, rex, v);
      r.Done? && SignedQuotientOf(r.value, w) == SignedQuotientOf(s, w) && SignedRemainderOf(r.value, w) == 0
  {
    hide Modulus, SignedWide, Extract, RemainderOf, WriteQuotient, ReadDividend, ExecuteImul, Quotient, ToSigned, SignedOperand,
      SignedQuotientOf, SignedRemainderOf, Truncate;
    var a := Extract(s.gpr, RAX, w, false);
    SignedIsSigned(a, w);
    SignedIsSigned(v, w);
    ZeroInRange(w);
    var d := ToSigned(v, w);
    ImulIsExact(s, w, rex, v);
    ExactQuotient(ToSigned(a, w), d);
    SignedWritten(ReadDividend(ExecuteImul(s, w, rex, v), w, rex), w, rex, ToSigned(a, w), 0);
    AccumulatorSigned(s, w);
  }

  lemma ZeroInRange(w: Width)
    ensures InSignedRange(0, w)
  {
  }

  lemma AccumulatorSigned(s: State, w: Width)
    ensures SignedQuotientOf(s, w) == ToSigned(Extract(s.gpr, RAX, w, false), w)
  {
  }
}
