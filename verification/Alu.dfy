/** Integer arithmetic with flags: `add`, `sub`, the logic operations and the condition codes. */
module Alu {
  import opened Words
  import opened Registers

  // bit positions in rflags
  const CF := 0
  const PF := 2
  const AF := 4
  const ZF := 6
  const SF := 7
  const DF := 10
  const OF := 11

  /** The bits a condition code can look at. */
  const STATUS := [CF, PF, ZF, SF, OF]

  function SetFlag(rflags: u64, flag: nat, on: bool): u64
    requires flag < 64
  {
    Pow2Of64();
    SetBitBound(rflags, flag, on, 64);
    SetBit(rflags, flag, on)
  }

  predicate Flag(rflags: u64, flag: nat) {
    Bit(rflags, flag)
  }

  /** `parity_even`, on bit vectors as the source computes it. */
  predicate ParityBits(value: bv8) {
    (0x6996 as bv16 >> ((value ^ (value >> 4)) & 0xf)) & 1 == 1
  }

  function Ones(value: bv8): bv8 {
    (value & 1) + ((value >> 1) & 1) + ((value >> 2) & 1) + ((value >> 3) & 1)
      + ((value >> 4) & 1) + ((value >> 5) & 1) + ((value >> 6) & 1) + ((value >> 7) & 1)
  }

  /** Despite its name, `parity_even` holds for an odd number of ones. */
  lemma ParityIsOdd(value: bv8)
    ensures ParityBits(value) <==> Ones(value) & 1 == 1
  {
    var folded := (value ^ (value >> 4)) & 0xf;
    assert Ones(value) & 1 == Ones(folded) & 1;
    assert (0x6996 as bv16 >> folded) & 1 == 1 <==> Ones(folded) & 1 == 1;
  }

  predicate Parity(result: u64) {
    ParityBits((result % 256) as bv8)
  }

  predicate Sign(v: nat, w: Width) {
    Truncate(v, w) >= Modulus(w) / 2
  }

  datatype Flagged = Flagged(value: u64, rflags: u64)

  function ArithFlags(rflags: u64, carry: bool, aux: bool, result: u64, w: Width, overflow: bool): u64 {
    SetFlag(SetFlag(SetFlag(SetFlag(SetFlag(SetFlag(rflags, CF, carry), AF, aux), SF, Sign(result, w)),
      ZF, result == 0), PF, Parity(result)), OF, overflow)
  }

  /** `set_logic_flags` leaves AF alone. */
  function LogicFlags(rflags: u64, value: u64, w: Width): u64 {
    var result := Truncate(value, w);
    SetFlag(SetFlag(SetFlag(SetFlag(SetFlag(rflags, CF, false), OF, false), SF, Sign(result, w)),
      ZF, result == 0), PF, Parity(result))
  }

  /** Bit 4 of lhs ^ rhs ^ result */
  predicate Aux(lhs: u64, rhs: u64, result: u64) {
    (Bit(lhs, 4) != Bit(rhs, 4)) != Bit(result, 4)
  }

  function CarryIn(use: bool, rflags: u64): (c: nat)
    ensures c <= 1
  {
    if use && Flag(rflags, CF) then 1 else 0
  }

  /** `add(lhs, rhs, w, carry)`; the 64-bit sum wraps before the carry is looked at. */
  function Add(lhs: u64, rhs: u64, w: Width, carry: bool, rflags: u64): Flagged {
    var full := Wrap(Truncate(lhs, w) + Truncate(rhs, w) + CarryIn(carry, rflags));
    var result := Truncate(full, w);
    var overflow := Sign(lhs, w) == Sign(rhs, w) && Sign(lhs, w) != Sign(result, w);
    Flagged(result, ArithFlags(rflags, full >= Modulus(w), Aux(lhs, rhs, result), result, w, overflow))
  }

  /** `sub(lhs, rhs, w, borrow)`; at width 64 the borrow can wrap the right operand. */
  function Sub(lhs: u64, rhs: u64, w: Width, borrow: bool, rflags: u64): Flagged {
    var right := Wrap(Truncate(rhs, w) + CarryIn(borrow, rflags));
    var result := Truncate(Wrap(Truncate(lhs, w) - right), w);
    var overflow := Sign(lhs, w) != Sign(rhs, w) && Sign(lhs, w) != Sign(result, w);
    Flagged(result, ArithFlags(rflags, Truncate(lhs, w) < right, Aux(lhs, rhs, result), result, w, overflow))
  }

  function And(lhs: u64, rhs: u64): u64 {
    Pow2Of64();
    Bitwise((x, y) => x && y, lhs, rhs, 64)
  }

  function Or(lhs: u64, rhs: u64): u64 {
    Pow2Of64();
    Bitwise((x, y) => x || y, lhs, rhs, 64)
  }

  function Xor(lhs: u64, rhs: u64): u64 {
    Pow2Of64();
    Bitwise((x, y) => x != y, lhs, rhs, 64)
  }

  /** `~value` */
  function Not(value: u64): u64 {
    TWO_64 - 1 - value
  }

  predicate Condition(cc: nat, rflags: u64)
    requires cc < 16
  {
    var of, cf, zf, sf, pf := Flag(rflags, OF), Flag(rflags, CF), Flag(rflags, ZF), Flag(rflags, SF), Flag(rflags, PF);
    match cc
    case 0 => of
    case 1 => !of
    case 2 => cf
    case 3 => !cf
    case 4 => zf
    case 5 => !zf
    case 6 => cf || zf
    case 7 => !cf && !zf
    case 8 => sf
    case 9 => !sf
    case 10 => pf
    case 11 => !pf
    case 12 => sf != of
    case 13 => sf == of
    case 14 => zf || sf != of
    case _ => !zf && sf == of
  }

  // ----- what the flag words hold -----

  lemma SetFlagBits(rflags: u64, flag: nat, on: bool)
    requires flag < 64
    ensures forall k: nat :: Flag(SetFlag(rflags, flag, on), k) == if k == flag then on else Flag(rflags, k)
  {
    forall k: nat ensures Flag(SetFlag(rflags, flag, on), k) == if k == flag then on else Flag(rflags, k) {
      BitOfSetBit(rflags, flag, on, k);
    }
  }

  lemma ArithFlagBits(r: u64, carry: bool, aux: bool, result: u64, w: Width, overflow: bool)
    ensures var f := ArithFlags(r, carry, aux, result, w, overflow);
      Flag(f, CF) == carry && Flag(f, PF) == Parity(result) && Flag(f, AF) == aux && Flag(f, ZF) == (result == 0)
      && Flag(f, SF) == Sign(result, w) && Flag(f, OF) == overflow
    ensures forall k: nat :: k !in [CF, PF, AF, ZF, SF, OF] ==>
      Flag(ArithFlags(r, carry, aux, result, w, overflow), k) == Flag(r, k)
  {
    hide Sign, Parity, SetFlag, Flag;
    var r1 := SetFlag(r, CF, carry);
    var r2 := SetFlag(r1, AF, aux);
    var r3 := SetFlag(r2, SF, Sign(result, w));
    var r4 := SetFlag(r3, ZF, result == 0);
    var r5 := SetFlag(r4, PF, Parity(result));
    SetFlagBits(r, CF, carry);
    SetFlagBits(r1, AF, aux);
    SetFlagBits(r2, SF, Sign(result, w));
    SetFlagBits(r3, ZF, result == 0);
    SetFlagBits(r4, PF, Parity(result));
    SetFlagBits(r5, OF, overflow);
  }

  lemma LogicFlagBits(r: u64, value: u64, w: Width)
    ensures var f, result := LogicFlags(r, value, w), Truncate(value, w);
      !Flag(f, CF) && Flag(f, PF) == Parity(result) && Flag(f, ZF) == (result == 0)
      && Flag(f, SF) == Sign(result, w) && !Flag(f, OF)
    ensures forall k: nat :: k !in STATUS ==> Flag(LogicFlags(r, value, w), k) == Flag(r, k)
  {
    hide Sign, Parity, SetFlag, Flag, Truncate;
    var result := Truncate(value, w);
    var r1 := SetFlag(r, CF, false);
    var r2 := SetFlag(r1, OF, false);
    var r3 := SetFlag(r2, SF, Sign(result, w));
    var r4 := SetFlag(r3, ZF, result == 0);
    SetFlagBits(r, CF, false);
    SetFlagBits(r1, OF, false);
    SetFlagBits(r2, SF, Sign(result, w));
    SetFlagBits(r3, ZF, result == 0);
    SetFlagBits(r4, PF, Parity(result));
  }

  // ----- compare, then branch -----

  /** The signed reading of the low bits. */
  function ToSigned(v: u64, w: Width): int {
    if Sign(v, w) then Truncate(v, w) - Modulus(w) else Truncate(v, w)
  }

  predicate InSignedRange(x: int, w: Width) {
    -(Modulus(w) / 2) <= x < Modulus(w) / 2
  }

  /** A w-bit difference wraps once. */
  lemma Difference(x: int, y: int, w: Width)
    requires 0 <= x < Modulus(w) && 0 <= y < Modulus(w)
    ensures Truncate(Wrap(x - y), w) == if x >= y then x - y else x - y + Modulus(w)
  {
    if x < y {
      assert Wrap(x - y) == x - y + TWO_64;
    }
  }

  /** After comparing a with b, the condition codes are the unsigned and signed order relations
      (Intel SDM volume 1, section 3.4.3.1 and appendix B). */
  lemma CompareThenBranch(a: u64, b: u64, w: Width, rflags: u64)
    ensures var f := Sub(a, b, w, false, rflags).rflags;
      && (Condition(2, f) <==> Truncate(a, w) < Truncate(b, w))
      && (Condition(3, f) <==> Truncate(a, w) >= Truncate(b, w))
      && (Condition(4, f) <==> Truncate(a, w) == Truncate(b, w))
      && (Condition(5, f) <==> Truncate(a, w) != Truncate(b, w))
      && (Condition(6, f) <==> Truncate(a, w) <= Truncate(b, w))
      && (Condition(7, f) <==> Truncate(a, w) > Truncate(b, w))
    ensures var f := Sub(a, b, w, false, rflags).rflags;
      && (Condition(12, f) <==> ToSigned(a, w) < ToSigned(b, w))
      && (Condition(13, f) <==> ToSigned(a, w) >= ToSigned(b, w))
      && (Condition(14, f) <==> ToSigned(a, w) <= ToSigned(b, w))
      && (Condition(15, f) <==> ToSigned(a, w) > ToSigned(b, w))
  {
    hide Parity, Flag, ArithFlags, Aux, Wrap, ToSigned, Sign, Truncate, Modulus;
    var x, y := Truncate(a, w), Truncate(b, w);
    var r := Sub(a, b, w, false, rflags);
    Difference(x, y, w);
    assert Wrap(y) == y by {
      WrapOnce(y);
    }
    Subtracted(a, b, w, r.value);
    ArithFlagBits(rflags, x < y, Aux(a, b, r.value), r.value, w,
      Sign(a, w) != Sign(b, w) && Sign(a, w) != Sign(r.value, w));
  }

  /** What sign and overflow of a difference say about the signed operands; h is half of m. */
  lemma SubtractedValues(x: int, y: int, m: int, h: int, d: int)
    requires m == 2 * h && 0 <= x < m && 0 <= y < m && d == if x >= y then x - y else x - y + m
    ensures var overflow := (x >= h) != (y >= h) && (x >= h) != (d >= h);
      var sx, sy := if x >= h then x - m else x, if y >= h then y - m else y;
      (d == 0 <==> sx == sy) && ((d >= h) != overflow <==> sx < sy)
  {
  }

  lemma Subtracted(a: u64, b: u64, w: Width, d: u64)
    requires d == if Truncate(a, w) >= Truncate(b, w) then Truncate(a, w) - Truncate(b, w)
      else Truncate(a, w) - Truncate(b, w) + Modulus(w)
    ensures Truncate(d, w) == d
    ensures var overflow := Sign(a, w) != Sign(b, w) && Sign(a, w) != Sign(d, w);
      && (d == 0 <==> ToSigned(a, w) == ToSigned(b, w))
      && (Sign(d, w) != overflow <==> ToSigned(a, w) < ToSigned(b, w))
  {
    Fits(d, w);
    HalfModulus(w);
    hide Truncate, Modulus;
    SubtractedValues(Truncate(a, w), Truncate(b, w), Modulus(w), Modulus(w) / 2, d);
  }

  lemma HalfModulus(w: Width)
    ensures Modulus(w) == 2 * (Modulus(w) / 2)
  {
  }

  lemma TruncateOnce(v: u64, w: Width)
    requires v < 2 * Modulus(w)
    ensures Truncate(v, w) == if v < Modulus(w) then v else v - Modulus(w)
  {
  }

  lemma Fits(d: nat, w: Width)
    requires d < Modulus(w)
    ensures Truncate(d, w) == d
  {
  }

  // ----- carry chains -----

  /** The carry of an addition is right at every width but 64, where it is right only for sums
      that need none. */
  lemma CarryIsExact(a: u64, b: u64, w: Width, carry: bool, rflags: u64)
    ensures var r, x, y, c := Add(a, b, w, carry, rflags), Truncate(a, w), Truncate(b, w), CarryIn(carry, rflags);
      (r.value + (if Flag(r.rflags, CF) then Modulus(w) else 0) == x + y + c) <==> (w != W64 || x + y + c < TWO_64)
  {
    hide Parity, Flag, ArithFlags, Aux, Wrap, CarryIn, Sign, Truncate;
    var r := Add(a, b, w, carry, rflags);
    var sum := Truncate(a, w) + Truncate(b, w) + CarryIn(carry, rflags);
    WrapOnce(sum);
    TruncateOnce(Wrap(sum), w);
    ArithFlagBits(rflags, Wrap(sum) >= Modulus(w), Aux(a, b, r.value), r.value, w,
      Sign(a, w) == Sign(b, w) && Sign(a, w) != Sign(r.value, w));
  }

  /** The borrow of a subtraction is right at every width, except at 64 when right operand and
      borrow together wrap. */
  lemma BorrowIsExact(a: u64, b: u64, w: Width, borrow: bool, rflags: u64)
    ensures var r, x, y, c := Sub(a, b, w, borrow, rflags), Truncate(a, w), Truncate(b, w), CarryIn(borrow, rflags);
      (r.value - (if Flag(r.rflags, CF) then Modulus(w) else 0) == x - y - c) <==> (w != W64 || y + c < TWO_64)
  {
    hide Parity, Flag, ArithFlags, Aux, Wrap, CarryIn, Sign;
    var r := Sub(a, b, w, borrow, rflags);
    var x, right := Truncate(a, w), Truncate(b, w) + CarryIn(borrow, rflags);
    WrapOnce(right);
    WrapOnce(x - Wrap(right) + TWO_64);
    WrapTwice(x - Wrap(right), TWO_64);
    BorrowValue(x, Wrap(right), w);
    ArithFlagBits(rflags, x < Wrap(right), Aux(a, b, r.value), r.value, w,
      Sign(a, w) != Sign(b, w) && Sign(a, w) != Sign(r.value, w));
  }

  lemma BorrowValue(x: int, right: int, w: Width)
    requires 0 <= x < Modulus(w) && 0 <= right <= Modulus(w) && right < TWO_64
    ensures Truncate(Wrap(x - right), w) == if x >= right then x - right else x - right + Modulus(w)
  {
    var m := Modulus(w);
    if x < right {
      WrapsUp(x - right);
      var k := match w case W8 => 0x100_0000_0000_0000 case W16 => 0x1_0000_0000_0000 case W32 => 0x1_0000_0000 case W64 => 1;
      assert k * m == TWO_64;
      QuotientUnique(x - right + TWO_64, m, k - 1, x - right + m);
    } else {
      WrapOnce(x - right);
      Fits(x - right, w);
    }
  }

  lemma WrapsUp(x: int)
    requires -TWO_64 <= x < 0
    ensures Wrap(x) == x + TWO_64
  {
  }

  /** INC or DEC of some operand between two limbs: all flags but CF change. */
  datatype Counter = Inc(value: u64) | Dec(value: u64)

  function CountResult(op: Counter, w: Width, rflags: u64): Flagged {
    var r := match op case Inc(v) => Add(v, 1, w, false, rflags) case Dec(v) => Sub(v, 1, w, false, rflags);
    Flagged(r.value, SetFlag(r.rflags, CF, Flag(rflags, CF)))
  }

  function CountFlags(ops: seq<Counter>, w: Width, rflags: u64): u64 {
    if |ops| == 0 then rflags else CountFlags(ops[1..], w, CountResult(ops[0], w, rflags).rflags)
  }

  lemma {:induction false} CountKeepsCarry(ops: seq<Counter>, w: Width, rflags: u64)
    ensures Flag(CountFlags(ops, w, rflags), CF) == Flag(rflags, CF)
  {
    if |ops| > 0 {
      var r := match ops[0] case Inc(v) => Add(v, 1, w, false, rflags) case Dec(v) => Sub(v, 1, w, false, rflags);
      SetFlagBits(r.rflags, CF, Flag(rflags, CF));
      CountKeepsCarry(ops[1..], w, CountResult(ops[0], w, rflags).rflags);
    }
  }

  function Times(x: nat, y: nat): nat { x * y }

  /** The number a list of w-bit limbs stands for, least significant limb first. */
  function Value(limbs: seq<u64>, w: Width): nat {
    if |limbs| == 0 then 0 else Truncate(limbs[0], w) + Times(Modulus(w), Value(limbs[1..], w))
  }

  function Power(w: Width, n: nat): nat {
    if n == 0 then 1 else Times(Modulus(w), Power(w, n - 1))
  }

  datatype Chain = Chain(limbs: seq<u64>, rflags: u64)

  /** ADD (or ADC) of the first limbs, then ADC of the others; counters may run in between. */
  function AddChain(xs: seq<u64>, ys: seq<u64>, between: seq<seq<Counter>>, w: Width, carry: bool, rflags: u64): Chain
    requires |xs| == |ys| == |between|
  {
    if |xs| == 0 then Chain([], rflags) else
    var r := Add(xs[0], ys[0], w, carry, rflags);
    var rest := AddChain(xs[1..], ys[1..], between[1..], w, true, CountFlags(between[0], w, r.rflags));
    Chain([r.value] + rest.limbs, rest.rflags)
  }

  function SubChain(xs: seq<u64>, ys: seq<u64>, between: seq<seq<Counter>>, w: Width, borrow: bool, rflags: u64): Chain
    requires |xs| == |ys| == |between|
  {
    if |xs| == 0 then Chain([], rflags) else
    var r := Sub(xs[0], ys[0], w, borrow, rflags);
    var rest := SubChain(xs[1..], ys[1..], between[1..], w, true, CountFlags(between[0], w, r.rflags));
    Chain([r.value] + rest.limbs, rest.rflags)
  }

  /** One limb on top of a chain of additions; c is the carry between them. */
  lemma AddStep(m: nat, v: nat, c: nat, rest: nat, last: nat, p: nat, x: nat, xs: nat, y: nat, ys: nat, k: nat)
    requires v + c * m == x + y + k && rest + last * p == xs + ys + c
    ensures v + Times(m, rest) + last * Times(m, p) == x + Times(m, xs) + y + Times(m, ys) + k
  {
    assert m * (rest + last * p) == m * rest + last * (m * p);
    assert m * (xs + ys + c) == m * xs + m * ys + c * m;
  }

  /** One limb on top of a chain of subtractions; c is the borrow between them. */
  lemma SubStep(m: nat, v: nat, c: nat, rest: nat, last: nat, p: nat, x: nat, xs: nat, y: nat, ys: nat, k: nat)
    requires v - c * m == x - y - k && rest - last * p == xs - ys - c
    ensures v + Times(m, rest) - last * Times(m, p) == x + Times(m, xs) - y - Times(m, ys) - k
  {
    assert m * (rest - last * p) == m * rest - last * (m * p);
    assert m * (xs - ys - c) == m * xs - m * ys - c * m;
  }

  /** ADD then repeated ADC computes the exact multi-limb sum, and the last CF is its carry. */
  lemma {:induction false} AddChainIsExact(xs: seq<u64>, ys: seq<u64>, between: seq<seq<Counter>>, w: Width, carry: bool, rflags: u64)
    requires |xs| == |ys| == |between| && |xs| > 0 && w != W64
    ensures var r := AddChain(xs, ys, between, w, carry, rflags);
      |r.limbs| == |xs| &&
      Value(r.limbs, w) + CarryIn(true, r.rflags) * Power(w, |xs|) == Value(xs, w) + Value(ys, w) + CarryIn(carry, rflags)
  {
    hide Add, Modulus, Flag, Truncate, CountFlags, Times, CarryIn;
    var r := Add(xs[0], ys[0], w, carry, rflags);
    var flags := CountFlags(between[0], w, r.rflags);
    var rest := AddChain(xs[1..], ys[1..], between[1..], w, true, flags);
    var c := CarryIn(true, flags);
    AddLimb(xs[0], ys[0], between[0], w, carry, rflags);
    assert AddChain(xs, ys, between, w, carry, rflags) == Chain([r.value] + rest.limbs, rest.rflags);
    assert ([r.value] + rest.limbs)[1..] == rest.limbs;
    if |xs| > 1 {
      AddChainIsExact(xs[1..], ys[1..], between[1..], w, true, flags);
    }
    AddStep(Modulus(w), r.value, c, Value(rest.limbs, w), CarryIn(true, rest.rflags), Power(w, |xs| - 1),
      Truncate(xs[0], w), Value(xs[1..], w), Truncate(ys[0], w), Value(ys[1..], w), CarryIn(carry, rflags));
  }

  lemma AddLimb(x: u64, y: u64, between: seq<Counter>, w: Width, carry: bool, rflags: u64)
    requires w != W64
    ensures var r := Add(x, y, w, carry, rflags);
      Truncate(r.value, w) == r.value &&
      r.value + CarryIn(true, CountFlags(between, w, r.rflags)) * Modulus(w)
        == Truncate(x, w) + Truncate(y, w) + CarryIn(carry, rflags)
  {
    hide Add, Modulus, Flag, Truncate, CountFlags;
    CarryIsExact(x, y, w, carry, rflags);
    CountKeepsCarry(between, w, Add(x, y, w, carry, rflags).rflags);
    AddIsShort(x, y, w, carry, rflags);
  }

  lemma AddIsShort(a: u64, b: u64, w: Width, carry: bool, rflags: u64)
    ensures Truncate(Add(a, b, w, carry, rflags).value, w) == Add(a, b, w, carry, rflags).value
    ensures Truncate(Sub(a, b, w, carry, rflags).value, w) == Sub(a, b, w, carry, rflags).value
  {
    hide ArithFlags, Aux, Sign, Wrap, Truncate, Modulus;
    Fits(Add(a, b, w, carry, rflags).value, w);
    Fits(Sub(a, b, w, carry, rflags).value, w);
  }

  /** SUB then repeated SBB computes the exact multi-limb difference, and the last CF is its borrow. */
  lemma {:induction false} SubChainIsExact(xs: seq<u64>, ys: seq<u64>, between: seq<seq<Counter>>, w: Width, borrow: bool, rflags: u64)
    requires |xs| == |ys| == |between| && |xs| > 0 && w != W64
    ensures var r := SubChain(xs, ys, between, w, borrow, rflags);
      |r.limbs| == |xs| &&
      Value(r.limbs, w) - CarryIn(true, r.rflags) * Power(w, |xs|) == Value(xs, w) - Value(ys, w) - CarryIn(borrow, rflags)
  {
    hide Sub, Modulus, Flag, Truncate, CountFlags, Times, CarryIn;
    var r := Sub(xs[0], ys[0], w, borrow, rflags);
    var flags := CountFlags(between[0], w, r.rflags);
    var rest := SubChain(xs[1..], ys[1..], between[1..], w, true, flags);
    var c := CarryIn(true, flags);
    SubLimb(xs[0], ys[0], between[0], w, borrow, rflags);
    assert SubChain(xs, ys, between, w, borrow, rflags) == Chain([r.value] + rest.limbs, rest.rflags);
    assert ([r.value] + rest.limbs)[1..] == rest.limbs;
    if |xs| > 1 {
      SubChainIsExact(xs[1..], ys[1..], between[1..], w, true, flags);
    }
    SubStep(Modulus(w), r.value, c, Value(rest.limbs, w), CarryIn(true, rest.rflags), Power(w, |xs| - 1),
      Truncate(xs[0], w), Value(xs[1..], w), Truncate(ys[0], w), Value(ys[1..], w), CarryIn(borrow, rflags));
  }

  lemma SubLimb(x: u64, y: u64, between: seq<Counter>, w: Width, borrow: bool, rflags: u64)
    requires w != W64
    ensures var r := Sub(x, y, w, borrow, rflags);
      Truncate(r.value, w) == r.value &&
      r.value - CarryIn(true, CountFlags(between, w, r.rflags)) * Modulus(w)
        == Truncate(x, w) - Truncate(y, w) - CarryIn(borrow, rflags)
  {
    hide Sub, Modulus, Flag, Truncate, CountFlags;
    BorrowIsExact(x, y, w, borrow, rflags);
    CountKeepsCarry(between, w, Sub(x, y, w, borrow, rflags).rflags);
    AddIsShort(x, y, w, borrow, rflags);
  }
}
