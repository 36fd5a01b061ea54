/** MUL, IMUL, DIV and IDIV as instructions: which operation each is, what it reads, and where the two
    halves of its result go. */
module MulDivLaws {
  import opened Words
  import opened FlatMemory
  import opened Registers
  import opened Alu
  import opened Cpu
  import opened MulDiv
  import opened OperationLaws
  import opened InstructionLaws

  // ----- the accumulator pair -----

  /** AL, AX, EAX or RAX */
  function Lower(f: File, w: Width): (v: u64)
    ensures v < Modulus(w)
  {
    ViewOf(f, 0, w, true)
  }

  /** AH, DX, EDX or RDX */
  function Upper(f: File, w: Width): (v: u64)
    ensures v < Modulus(w)
  {
    if w == W8 then f[0] / 256 % 256 else ViewOf(f, 2, w, true)
  }

  /** Both halves as one number. */
  function Pair(f: File, w: Width, signed: bool): int {
    (if signed then Signed(Upper(f, w), w) else Upper(f, w)) * Modulus(w) + Lower(f, w)
  }

  function Product(x: int, y: int): int {
    x * y
  }

  function LowerPart(x: int, w: Width): (v: u64)
    ensures v < Modulus(w)
  {
    x % Modulus(w)
  }

  function UpperPart(x: int, w: Width): (v: u64)
    ensures v < Modulus(w)
  {
    x / Modulus(w) % Modulus(w)
  }

  /** s' is s with both halves written. */
  ghost predicate PutsPair(s: State, s': State, w: Width, rex: bool, upper: nat, lower: nat, undefined: bool)
    requires upper < Modulus(w) && lower < Modulus(w)
  {
    if w == W8 then upper * 256 + lower < 0x1_0000 && Puts(s, s', InRegister(0), W16, rex, upper * 256 + lower, undefined)
    else exists mid :: Puts(s, mid, InRegister(0), w, rex, lower, undefined) && Puts(mid, s', InRegister(2), w, rex, upper, undefined)
  }

  lemma HalvesAre(s: State, w: Width)
    ensures Wide(s, w) == Pair(s.gpr, w, false)
    ensures SignedWide(s, w) == Pair(s.gpr, w, true)
  {
    hide Modulus, SignedOperand, Signed, Extract, Upper, Lower;
    if w == W8 {
      AxIs(s);
      EightIs();
      SignedAx(Upper(s.gpr, W8), Lower(s.gpr, W8));
    } else {
      HalfIs(s, w);
      SignedIs(Upper(s.gpr, w), w);
    }
  }

  lemma AxIs(s: State)
    ensures Extract(s.gpr, 0, W16, false) == Upper(s.gpr, W8) * 256 + Lower(s.gpr, W8)
  {
    ByteHalves(s.gpr[0]);
  }

  lemma HalfIs(s: State, w: Width)
    requires w != W8
    ensures Extract(s.gpr, 0, w, false) == Lower(s.gpr, w) && Extract(s.gpr, 2, w, false) == Upper(s.gpr, w)
  {
  }

  lemma EightIs()
    ensures Modulus(W8) == 256 && Modulus(W16) == 0x1_0000
  {
  }

  lemma ByteHalves(v: u64)
    ensures v % 0x1_0000 == v / 256 % 256 * 256 + v % 256
  {
  }

  lemma SignedIs(v: u64, w: Width)
    requires v < Modulus(w)
    ensures SignedOperand(v, w) == Signed(v, w)
  {
    hide Truncate, Modulus, SignedOperand;
    SignedIsSigned(v, w);
    Fits(v, w);
  }

  lemma SignedAx(high: u64, low: u64)
    requires high < 256 && low < 256
    ensures SignedOperand(high * 256 + low, W16) == Signed(high, W8) * 256 + low
  {
    hide SignedOperand;
    SignedIs(high * 256 + low, W16);
  }

  /** The shadow of the pair is clear exactly if that of both halves is. */
  lemma DividendTaint(s: State, w: Width, rex: bool)
    ensures ReadDividend(s, w, rex) == s.(taint := s.taint || Lower(s.shadow, w) != 0 || Upper(s.shadow, w) != 0)
  {
    if w == W8 {
      ByteHalves(s.shadow[0]);
    }
  }

  lemma LowerRead(s: State, w: Width, rex: bool)
    ensures ReadGpr(s, 0, w, rex) == (s.(taint := s.taint || Lower(s.shadow, w) != 0), Lower(s.gpr, w))
  {
  }

  // ----- writing the result -----

  lemma LowModulo(x: int, w: Width)
    ensures Low64(x) % Modulus(w) == x % Modulus(w)
  {
    hide Modulus;
    LowTruncated(x, w);
    TruncateIs(Low64(x), w);
  }

  lemma PairWritten(s: State, undefined: bool, w: Width, rex: bool, upper: int, lower: int)
    requires w != W8
    ensures var s' := WriteGpr(WriteGpr(s.(taint := undefined), 0, w, rex, Low64(lower)), 2, w, rex, Low64(upper));
      PutsPair(s, s', w, rex, upper % Modulus(w), lower % Modulus(w), undefined)
  {
    hide WriteGpr, Puts, Modulus, Low64;
    var s1 := WriteGpr(s.(taint := undefined), 0, w, rex, Low64(lower));
    WriteRegister(s, undefined, 0, w, rex, Low64(lower));
    RegisterKeepsTaint(s.(taint := undefined), 0, w, rex, Low64(lower));
    WriteRegister(s1, undefined, 2, w, rex, Low64(upper));
    LowModulo(lower, w);
    LowModulo(upper, w);
  }

  lemma RegisterKeepsTaint(s: State, r: Reg, w: Width, rex: bool, v: u64)
    ensures WriteGpr(s, r, w, rex, v) == WriteGpr(s, r, w, rex, v).(taint := s.taint)
  {
    hide Insert;
  }

  lemma ProductWritten(s: State, undefined: bool, w: Width, rex: bool, p: int)
    ensures PutsPair(s, WriteProduct(s.(taint := undefined), w, rex, p), w, rex, UpperPart(p, w), LowerPart(p, w), undefined)
  {
    if w == W8 {
      hide WriteGpr, Puts, Low64;
      WriteRegister(s, undefined, 0, W16, rex, Low64(p));
      LowModulo(p, W16);
      ProductBytes(p);
    } else {
      hide WriteGpr, PutsPair, Modulus, Low64;
      PairWritten(s, undefined, w, rex, p / Modulus(w), p);
    }
  }

  lemma ProductBytes(p: int)
    ensures p / 256 % 256 * 256 + p % 256 == p % 0x1_0000
  {
  }

  lemma QuotientPut(s: State, undefined: bool, w: Width, rex: bool, q: int, r: int)
    ensures PutsPair(s, WriteQuotient(s.(taint := undefined), w, rex, q, r), w, rex, LowerPart(r, w), LowerPart(q, w), undefined)
  {
    if w == W8 {
      hide WriteGpr, Puts;
      WriteRegister(s, undefined, 0, W16, rex, r % 256 * 256 + q % 256);
      SmallModulo(r % 256 * 256 + q % 256, 0x1_0000);
    } else {
      hide WriteGpr, PutsPair, Modulus, Low64;
      PairWritten(s, undefined, w, rex, r, q);
    }
  }

  // ----- the instructions -----

  function Reading(signed: bool, x: u64, w: Width): int {
    if signed then Signed(x, w) else x
  }

  predicate FitsWord(signed: bool, x: int, w: Width) {
    if signed then InSignedRange(x, w) else 0 <= x < Modulus(w)
  }

  /** The machine once the operand has been read. */
  function AfterRead(s: State, p: Place, w: Width): State {
    WithReports(s, ReadReports(s, p, w))
  }

  lemma ReadOnce(s: State, p: Place, w: Width, rex: bool)
    ensures ReadOperand(s, p, w, rex).Done? <==> Readable(s, p, w)
    ensures Readable(s, p, w) ==>
      ReadOperand(s, p, w, rex).value == (AfterRead(s, p, w).(taint := s.taint || Undefined(s, p, w, rex)), Held(s, p, w, rex))
  {
    hide ReadOperand, Readable, Held, Undefined, ReadReports;
    ReadMeans(s, p, w, rex);
  }

  lemma ProductFlags(s: State, s1: State, on: bool)
    requires s1.rflags == s.rflags
    ensures var s' := WithCarryOverflow(s1, on);
      s' == s1.(rflags := s'.rflags) && Flag(s'.rflags, CF) == on && Flag(s'.rflags, OF) == on && OthersKept(s.rflags, s'.rflags, [CF, OF])
  {
    hide Flag, SetFlag;
    CarryOverflowFlags(s1, on);
  }

  /** What a multiplication leaves: the product in both halves, CF and OF set exactly if it does not fit the
      lower one, the taint of the flags as it was. */
  ghost predicate Multiplied(s: State, s': State, w: Width, rex: bool, product: int, fits: bool, undefined: bool) {
    && PutsPair(s, s'.(rflags := s.rflags), w, rex, UpperPart(product, w), LowerPart(product, w), undefined)
    && Flag(s'.rflags, CF) == Flag(s'.rflags, OF) == !fits && OthersKept(s.rflags, s'.rflags, [CF, OF])
  }

  /** MUL and IMUL: the lower half times the operand. */
  lemma MulLaw(s: State, signed: bool, w: Width, rex: bool, p: Place)
    ensures ExecuteMulDiv(s, if signed then Imul else Mul, w, rex, p).Done? <==> Readable(s, p, w)
    ensures Readable(s, p, w) ==>
      var product := Product(Reading(signed, Lower(s.gpr, w), w), Reading(signed, Held(s, p, w, rex), w));
      Multiplied(AfterRead(s, p, w), ExecuteMulDiv(s, if signed then Imul else Mul, w, rex, p).value, w, rex, product,
        FitsWord(signed, product, w), s.taint || Undefined(s, p, w, rex) || Lower(s.shadow, w) != 0)
  {
    hide ReadOperand, Readable, Held, Undefined, Modulus, Lower, ExecuteMul, ExecuteImul, Multiplied, Product, Signed;
    ReadOnce(s, p, w, rex);
    if Readable(s, p, w) {
      var x := Held(s, p, w, rex);
      if signed {
        ImulMeans(AfterRead(s, p, w), s.taint || Undefined(s, p, w, rex), w, rex, x);
      } else {
        MulMeans(AfterRead(s, p, w), s.taint || Undefined(s, p, w, rex), w, rex, x);
        ProductNotNegative(Lower(s.gpr, w), x);
      }
    }
  }

  lemma ProductNotNegative(x: nat, y: nat)
    ensures Product(x, y) >= 0
  {
  }

  lemma MulMeans(s: State, tainted: bool, w: Width, rex: bool, x: u64)
    requires x < Modulus(w)
    ensures var product := Product(Lower(s.gpr, w), x);
      Multiplied(s, ExecuteMul(s.(taint := tainted), w, rex, x), w, rex, product, product < Modulus(w), tainted || Lower(s.shadow, w) != 0)
  {
    hide Modulus, WriteProduct, WithCarryOverflow, Flag, OthersKept, PutsPair, ReadGpr, Lower, LowerPart, UpperPart;
    var undefined := tainted || Lower(s.shadow, w) != 0;
    LowerRead(s.(taint := tainted), w, rex);
    ProductNotNegative(Lower(s.gpr, w), x);
    var product: nat := Product(Lower(s.gpr, w), x);
    HighHalf(product, Modulus(w));
    Completed(s, undefined, w, rex, product, product / Modulus(w) != 0);
  }

  lemma ImulMeans(s: State, tainted: bool, w: Width, rex: bool, x: u64)
    requires x < Modulus(w)
    ensures var product := Product(Signed(Lower(s.gpr, w), w), Signed(x, w));
      Multiplied(s, ExecuteImul(s.(taint := tainted), w, rex, x), w, rex, product, InSignedRange(product, w),
        tainted || Lower(s.shadow, w) != 0)
  {
    hide Modulus, WriteProduct, WithCarryOverflow, Flag, OthersKept, PutsPair, ReadGpr, Lower, LowerPart, UpperPart, SignedOperand,
      Signed, Low64;
    var undefined := tainted || Lower(s.shadow, w) != 0;
    LowerRead(s.(taint := tainted), w, rex);
    SignedIs(Lower(s.gpr, w), w);
    SignedIs(x, w);
    var product := Product(Signed(Lower(s.gpr, w), w), Signed(x, w));
    SignedBack(product, w);
    Completed(s, undefined, w, rex, product, product != SignedOperand(Low64(product), w));
  }

  lemma Completed(s: State, undefined: bool, w: Width, rex: bool, product: int, on: bool)
    ensures Multiplied(s, WithCarryOverflow(WriteProduct(s.(taint := undefined), w, rex, product), on), w, rex, product, !on, undefined)
  {
    hide Modulus, WriteProduct, WithCarryOverflow, Flag, OthersKept, PutsPair, LowerPart, UpperPart;
    ProductWritten(s, undefined, w, rex, product);
    var s1 := WriteProduct(s.(taint := undefined), w, rex, product);
    ProductKeepsFlags(s.(taint := undefined), w, rex, product);
    ProductFlags(s, s1, on);
    assert WithCarryOverflow(s1, on).(rflags := s.rflags) == s1;
  }

  lemma ProductKeepsFlags(s: State, w: Width, rex: bool, p: int)
    ensures WriteProduct(s, w, rex, p).rflags == s.rflags
  {
    hide Insert;
  }

  /** n divided by d, rounding toward zero, with the remainder that belongs to it. */
  predicate IsDivision(n: int, d: int, q: int, r: int) {
    n == q * d + r && Abs(r) < Abs(d) && (r == 0 || (r > 0 <==> n > 0))
  }

  lemma DivisionExists(n: int, d: int) returns (q: int, r: int)
    requires d != 0
    ensures IsDivision(n, d, q, r)
  {
    q, r := Quotient(n, d), n - Quotient(n, d) * d;
    QuotientTruncates(n, d);
  }

  lemma DivisionIsUnique(n: int, d: int, q: int, r: int)
    requires IsDivision(n, d, q, r)
    ensures d != 0 && q == Quotient(n, d) && r == n - Quotient(n, d) * d
  {
    hide Quotient;
    var q' := Quotient(n, d);
    QuotientTruncates(n, d);
    SameDivision(n, d, q, r, q', n - q' * d);
  }

  lemma SameDivision(n: int, d: int, q: int, r: int, q': int, r': int)
    requires IsDivision(n, d, q, r) && n == q' * d + r' && Abs(r') < Abs(d) && (r' == 0 || (r' > 0 <==> n > 0))
    ensures q == q' && r == r'
  {
    var e := q - q';
    assert e * d == q * d - q' * d == r' - r;
    assert Abs(e * d) < Abs(d);
    if e != 0 {
      ProductAtLeast(e, d);
    }
  }

  lemma ProductAtLeast(e: int, d: int)
    requires e != 0
    ensures Abs(e * d) >= Abs(d)
  {
    if e > 0 {
      if d >= 0 {
        TimesMono(1, e, d);
      } else {
        TimesMono(1, e, -d);
        assert e * -d == -(e * d);
      }
    } else {
      if d >= 0 {
        TimesMono(1, -e, d);
        assert (-e) * d == -(e * d);
      } else {
        TimesMono(1, -e, -d);
        assert (-e) * -d == e * d;
      }
    }
  }

  /** What a division leaves: quotient below, remainder above, flags as they were; or its fault. */
  ghost predicate Divided(s: State, result: Exec<State>, w: Width, rex: bool, d: int, q: int, r: int, fits: bool, undefined: bool) {
    if d == 0 then result == Faulted(DivideByZero, s.reports)
    else if !fits then result == Faulted(DivideOverflow, s.reports)
    else result.Done? && PutsPair(s, result.value, w, rex, LowerPart(r, w), LowerPart(q, w), undefined)
  }

  /** DIV and IDIV: both halves divided by the operand; a zero divisor or a quotient that does not fit
      the lower half faults. */
  lemma DivLaw(s: State, signed: bool, w: Width, rex: bool, p: Place, q: int, r: int)
    requires var d := Reading(signed, Held(s, p, w, rex), w); d != 0 ==> IsDivision(Pair(s.gpr, w, signed), d, q, r)
    ensures !Readable(s, p, w) ==> ExecuteMulDiv(s, if signed then Idiv else Div, w, rex, p).Faulted?
    ensures Readable(s, p, w) ==>
      Divided(AfterRead(s, p, w), ExecuteMulDiv(s, if signed then Idiv else Div, w, rex, p), w, rex,
        Reading(signed, Held(s, p, w, rex), w), q, r, FitsWord(signed, q, w),
        s.taint || Undefined(s, p, w, rex) || Lower(s.shadow, w) != 0 || Upper(s.shadow, w) != 0)
  {
    hide ReadOperand, Readable, Held, Undefined, Modulus, Lower, Upper, Pair, ExecuteDiv, ExecuteIdiv, Divided, Signed, FitsWord, IsDivision;
    ReadOnce(s, p, w, rex);
    if Readable(s, p, w) {
      var x := Held(s, p, w, rex);
      if signed {
        IdivMeans(AfterRead(s, p, w), s.taint || Undefined(s, p, w, rex), w, rex, x, q, r);
      } else {
        DivMeans(AfterRead(s, p, w), s.taint || Undefined(s, p, w, rex), w, rex, x, q, r);
      }
    }
  }

  lemma DivMeans(s: State, tainted: bool, w: Width, rex: bool, x: u64, q: int, r: int)
    requires x < Modulus(w) && (x != 0 ==> IsDivision(Pair(s.gpr, w, false), x, q, r))
    ensures Divided(s, ExecuteDiv(s.(taint := tainted), w, rex, x), w, rex, x, q, r, FitsWord(false, q, w),
      tainted || Lower(s.shadow, w) != 0 || Upper(s.shadow, w) != 0)
  {
    hide Modulus, Lower, Upper, Pair, WriteQuotient, ReadDividend, PutsPair, LowerPart, Wide, SignedWide, IsDivision;
    HalvesAre(s.(taint := tainted), w);
    DividendTaint(s.(taint := tainted), w, rex);
    if x != 0 {
      UnsignedDivision(s, w, x, q, r);
      QuotientPut(s, tainted || Lower(s.shadow, w) != 0 || Upper(s.shadow, w) != 0, w, rex, q, r);
    }
  }

  lemma UnsignedDivision(s: State, w: Width, x: u64, q: int, r: int)
    requires x != 0 && IsDivision(Pair(s.gpr, w, false), x, q, r)
    ensures var n := Pair(s.gpr, w, false); n >= 0 && q == n / x && r == n % x && q >= 0
  {
    hide Modulus, Lower, Upper;
    TimesMono(0, Upper(s.gpr, w), Modulus(w));
    DivideDown(Pair(s.gpr, w, false), x, q, r);
  }

  lemma DivideDown(n: int, x: int, q: int, r: int)
    requires n >= 0 && x > 0 && IsDivision(n, x, q, r)
    ensures q == n / x && r == n % x && q >= 0
  {
    assert 0 <= r < x;
    QuotientUnique(n, x, q, r);
  }

  lemma IdivMeans(s: State, tainted: bool, w: Width, rex: bool, x: u64, q: int, r: int)
    requires x < Modulus(w) && (Signed(x, w) != 0 ==> IsDivision(Pair(s.gpr, w, true), Signed(x, w), q, r))
    ensures Divided(s, ExecuteIdiv(s.(taint := tainted), w, rex, x), w, rex, Signed(x, w), q, r, FitsWord(true, q, w),
      tainted || Lower(s.shadow, w) != 0 || Upper(s.shadow, w) != 0)
  {
    hide Modulus, Lower, Upper, Pair, WriteQuotient, ReadDividend, PutsPair, LowerPart, Wide, SignedWide, IsDivision, SignedOperand,
      Signed, Quotient;
    HalvesAre(s.(taint := tainted), w);
    DividendTaint(s.(taint := tainted), w, rex);
    SignedIs(x, w);
    if Signed(x, w) != 0 {
      DivisionIsUnique(Pair(s.gpr, w, true), Signed(x, w), q, r);
      QuotientPut(s, tainted || Lower(s.shadow, w) != 0 || Upper(s.shadow, w) != 0, w, rex, q, r);
    }
  }
}
