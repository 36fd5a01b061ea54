/** What shifts, byte swaps and extensions compute, as arithmetic on the operand. */
module DataOps {
  import opened Words
  import opened Registers
  import opened Alu
  import opened Cpu
  import opened MulDiv

  // ----- shifts -----

  lemma {:induction false} ShiftedLeftIsProduct(v: nat, count: nat)
    ensures ShiftedLeft(v, count) == v * Pow2(count)
    decreases count
  {
    if count > 0 {
      ShiftedLeftIsProduct(2 * v, count - 1);
      assert 2 * v * Pow2(count - 1) == v * (2 * Pow2(count - 1));
    }
  }

  lemma {:induction false} ShiftedRightIsQuotient(v: nat, count: nat)
    ensures ShiftedRight(v, count) == v / Pow2(count)
    decreases count
  {
    if count > 0 {
      ShiftedRightIsQuotient(v / 2, count - 1);
      HalfThenRest(v, Pow2(count - 1));
    }
  }

  lemma HalfThenRest(v: nat, p: nat)
    requires p > 0
    ensures v / 2 / p == v / (2 * p)
  {
    var q, r := v / 2 / p, v / 2 % p;
    assert v / 2 == q * p + r;
    assert v == q * (2 * p) + (2 * r + v % 2) by {
      assert q * (2 * p) == 2 * (q * p);
    }
    QuotientUnique(v, 2 * p, q, 2 * r + v % 2);
  }

  /** SHL multiplies by 2^count modulo the width. */
  lemma ShlMultiplies(v: u64, w: Width, count: nat)
    ensures ShiftedBy(Shl, v, w, count) == v * Pow2(count) % Modulus(w)
  {
    hide Wrap, Truncate, Modulus, Low64, Pow2;
    ShiftedLeftIsProduct(v, count);
    ProductPositive(v, Pow2(count));
    WrapIsModulo(v * Pow2(count));
    LowTruncated(v * Pow2(count), w);
    LowIsModulo(v * Pow2(count));
  }

  lemma ProductPositive(a: nat, b: nat)
    ensures a * b >= 0
  {
  }

  /** SHR divides by 2^count. */
  lemma ShrDivides(v: u64, w: Width, count: nat)
    requires v < Modulus(w)
    ensures ShiftedBy(Shr, v, w, count) == v / Pow2(count)
  {
    hide Truncate, Modulus, Pow2;
    ShiftedRightIsQuotient(v, count);
    QuotientSmaller(v, Pow2(count));
    Fits(v / Pow2(count), w);
  }

  lemma QuotientSmaller(v: nat, p: nat)
    requires p > 0
    ensures 0 <= v / p <= v
  {
    assert v / p * p <= v;
    TimesMono(1, p, v / p);
  }

  /** Adding a multiple of the divisor adds to the quotient. */
  lemma QuotientOfSum(x: int, k: int, p: int)
    requires p > 0
    ensures (k * p + x) / p == k + x / p
  {
    assert x == x / p * p + x % p;
    assert k * p + x / p * p == (k + x / p) * p;
    QuotientUnique(k * p + x, p, k + x / p, x % p);
  }

  /** A number in signed range stays there when divided. */
  lemma SignedQuotientRange(x: int, h: int, p: int)
    requires -h <= x < 0 && p > 0
    ensures -h <= x / p < 0
  {
    var q := x / p;
    assert x == q * p + x % p;
    assert (-h - 1) * p == -((h + 1) * p) && p * (h + 1) == (h + 1) * p;
    if q >= 0 {
      TimesMono(0, q, p);
    } else if q < -h {
      TimesMono(q, -h - 1, p);
      TimesMono(1, p, h + 1);
    }
  }

  /** SAR shifts the sign-extended word logically, so it divides the signed operand (rounding down)
      exactly when the operand is not negative or the zeros shifted in stay above the word: at
      width 64, only for a zero count. */
  lemma SarDividesUnlessTooFar(v: u64, w: Width, count: nat)
    requires v < Modulus(w) && count < 64
    ensures ToSigned(ShiftedBy(Sar, v, w, count), w) == ToSigned(v, w) / Pow2(count)
      <==> !Sign(v, w) || Bits(w) + count <= 64
  {
    hide Truncate, Modulus, Pow2, ToSigned, SignExtend, Sign, Bits;
    var x, p := ToSigned(v, w), Pow2(count);
    ShiftedRightIsQuotient(SignExtend(v, w), count);
    Extended(v, w);
    if !Sign(v, w) {
      QuotientSmaller(v, p);
      SmallIsPositive(v / p, v, w);
    } else {
      SplitTop(count);
      assert SignExtend(v, w) == Pow2(64 - count) * p + x;
      QuotientOfSum(x, Pow2(64 - count), p);
      SignedQuotientRange(x, Modulus(w) / 2, p);
      if Bits(w) + count <= 64 {
        HighBitsVanish(x / p, 64 - count, w);
      } else {
        FarShift(x / p, 64 - count, w);
      }
    }
  }

  lemma SplitTop(count: nat)
    requires count <= 64
    ensures Pow2(64 - count) * Pow2(count) == TWO_64
  {
    hide Pow2;
    Pow2Of64();
    Pow2Adds(64 - count, count);
  }

  lemma Extended(v: u64, w: Width)
    requires v < Modulus(w)
    ensures SignExtend(v, w) == if Sign(v, w) then TWO_64 + ToSigned(v, w) else v
    ensures Sign(v, w) ==> -(Modulus(w) / 2) <= ToSigned(v, w) < 0
    ensures !Sign(v, w) ==> ToSigned(v, w) == v < Modulus(w) / 2
  {
    hide Truncate;
    Fits(v, w);
    HalfModulus(w);
  }

  lemma SmallIsPositive(q: nat, v: u64, w: Width)
    requires q <= v < Modulus(w) / 2
    ensures Truncate(q, w) == q && ToSigned(q, w) == q
  {
    hide Truncate;
    Fits(q, w);
    Fits(Truncate(q, w), w);
  }

  lemma ModulusIsPower(w: Width)
    ensures Modulus(w) == Pow2(Bits(w))
  {
    Pow2Of16();
    match w {
      case W8 =>
      case W16 =>
      case W32 =>
        hide Pow2;
        Pow2Adds(16, 16);
      case W64 =>
        hide Pow2;
        Pow2Of64();
    }
  }

  /** Bits at and above the width do not show in the word. */
  lemma HighBitsVanish(q: int, j: nat, w: Width)
    requires j >= Bits(w) && -(Modulus(w) / 2) <= q < 0 && Pow2(j) + q >= 0
    ensures ToSigned(Truncate(Pow2(j) + q, w), w) == q
  {
    hide Pow2, Bits, ToSigned;
    var m := Modulus(w);
    ModulusIsPower(w);
    Pow2Adds(j - Bits(w), Bits(w));
    var k := Pow2(j - Bits(w));
    HalfModulus(w);
    assert Pow2(j) + q == (k - 1) * m + (m + q) by {
      assert (k - 1) * m == k * m - m;
    }
    QuotientUnique(Pow2(j) + q, m, k - 1, m + q);
    NegativeWord(q, w);
  }

  lemma NegativeWord(q: int, w: Width)
    requires -(Modulus(w) / 2) <= q < 0
    ensures 0 <= Modulus(w) + q < TWO_64 && ToSigned(Modulus(w) + q, w) == q
  {
    hide Truncate;
    HalfModulus(w);
    Fits(Modulus(w) + q, w);
  }

  /** With zeros in the sign bit the word is positive, which the true quotient is not. */
  lemma FarShift(q: int, j: nat, w: Width)
    requires j < Bits(w) && q < 0 && Pow2(j) + q >= 0
    ensures ToSigned(Truncate(Pow2(j) + q, w), w) != q
  {
    hide Pow2, Truncate, ToSigned;
    ModulusIsPower(w);
    Pow2Grows(j, Bits(w) - 1);
    TwicePower(Bits(w) - 1);
    HalfModulus(w);
    SmallIsPositive(Pow2(j) + q, Pow2(j) + q, w);
  }

  lemma {:induction false} Pow2Grows(j: nat, k: nat)
    requires j <= k
    ensures Pow2(j) <= Pow2(k)
  {
    if j < k {
      Pow2Grows(j, k - 1);
    }
  }

  lemma TwicePower(k: nat)
    ensures Pow2(k + 1) == 2 * Pow2(k)
  {
  }

  // ----- byte swap -----

  /** BSWAP reverses the bytes of the word. */
  lemma SwapReverses(v: u64, w: Width, k: nat)
    requires k < Size(w)
    ensures ToBytes(Swapped(v, w), Size(w))[k] == ToBytes(v, Size(w))[Size(w) - 1 - k]
  {
    hide ToBytes, FromBytes;
    BytesOfValue(Reversed(ToBytes(v, Size(w))));
  }

  /** BSWAP twice gives the operand back. */
  lemma SwapTwice(v: u64, w: Width)
    requires v < Modulus(w)
    ensures Swapped(Swapped(v, w), w) == v
  {
    hide ToBytes, FromBytes, Modulus;
    var bs := ToBytes(v, Size(w));
    BytesOfValue(Reversed(bs));
    assert Reversed(Reversed(bs)) == bs;
    PowerOfSize(w);
    ValueOfBytes(v, Size(w));
  }

  // ----- extension -----

  /** Sign extension keeps the signed value at every wider width. */
  lemma ExtensionKeepsValue(v: u64, from: Width, to: Width)
    requires v < Modulus(from) && Bits(from) <= Bits(to)
    ensures ToSigned(Truncate(SignExtend(v, from), to), to) == ToSigned(v, from)
  {
    hide ToSigned, Truncate, SignExtend, Modulus, Low64, Sign;
    var x := ToSigned(v, from);
    Extended(v, from);
    RangeGrows(x, from, to);
    LowOfSigned(x);
    LowTruncated(x, to);
    SignedResidueBack(x, to);
  }

  lemma RangeGrows(x: int, from: Width, to: Width)
    requires InSignedRange(x, from) && Bits(from) <= Bits(to)
    ensures InSignedRange(x, to) && -TWO_64 <= x < TWO_64
  {
  }

  lemma LowOfSigned(x: int)
    requires -TWO_64 <= x < TWO_64
    ensures Low64(x) == if x < 0 then TWO_64 + x else x
  {
  }
}
