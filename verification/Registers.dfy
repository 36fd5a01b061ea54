/** Register files: 16 words of 64 bits with 8-, 16-, 32- and 64-bit views. Values and shadows
    follow the same aliasing rules, so one pair of functions serves both. */
module Registers {
  import opened Words

  datatype Width = W8 | W16 | W32 | W64

  function Bits(w: Width): nat {
    match w case W8 => 8 case W16 => 16 case W32 => 32 case W64 => 64
  }

  function Size(w: Width): nat {
    match w case W8 => 1 case W16 => 2 case W32 => 4 case W64 => 8
  }

  /** 2^Bits(w); `mask_for_width(w)` is one less. */
  function Modulus(w: Width): (m: int)
    ensures 0x100 <= m <= TWO_64
  {
    match w case W8 => 0x100 case W16 => 0x1_0000 case W32 => 0x1_0000_0000 case W64 => TWO_64
  }

  /** `value & mask_for_width(w)` */
  function Truncate(v: nat, w: Width): (r: u64)
    ensures r < Modulus(w)
  {
    v % Modulus(w)
  }

  /** `sign_extend(value, w)`: the 64-bit pattern of the signed w-bit value. */
  function SignExtend(v: u64, w: Width): u64 {
    var t := Truncate(v, w);
    if t >= Modulus(w) / 2 then t + TWO_64 - Modulus(w) else t
  }

  type Reg = r: int | 0 <= r < 16

  type File = f: seq<u64> | |f| == 16 witness seq(16, _ => 0)

  /** Without a REX prefix, byte registers 4 to 7 are ah, ch, dh and bh. */
  predicate HighByte(r: Reg, w: Width, rex: bool) {
    w == W8 && !rex && 4 <= r <= 7
  }

  /** `read_gpr` and `gpr_shadow` */
  function Extract(f: File, r: Reg, w: Width, rex: bool): (v: u64)
    ensures v < Modulus(w)
  {
    if HighByte(r, w, rex) then f[r - 4] / 256 % 256 else Truncate(f[r], w)
  }

  /** `write_gpr` and `set_gpr_shadow`: narrow writes keep the rest of the register, 32-bit
      writes clear its upper half. */
  function Insert(f: File, r: Reg, w: Width, rex: bool, v: u64): File
    requires v < Modulus(w)
  {
    if HighByte(r, w, rex) then f[r - 4 := f[r - 4] - f[r - 4] / 256 % 256 * 256 + v * 256]
    else if w == W8 then f[r := f[r] - f[r] % 256 + v]
    else if w == W16 then f[r := f[r] - f[r] % 0x1_0000 + v]
    else f[r := v]
  }

  lemma KeepHigh(x: nat, m: nat, v: nat)
    requires v < m
    ensures (x - x % m + v) % m == v
  {
    QuotientUnique(x - x % m + v, m, x / m, v);
  }

  lemma KeepAround(x: nat, v: nat)
    requires v < 256
    ensures x - x / 256 % 256 * 256 + v * 256 >= 0
    ensures (x - x / 256 % 256 * 256 + v * 256) / 256 % 256 == v
  {
    var q, low := x / 256 / 256, x % 256;
    assert x - x / 256 % 256 * 256 + v * 256 == 256 * (256 * q + v) + low;
  }

  /** A view reads back what was written to it. */
  lemma InsertThenExtract(f: File, r: Reg, w: Width, rex: bool, v: u64)
    requires v < Modulus(w)
    ensures Extract(Insert(f, r, w, rex, v), r, w, rex) == v
    ensures forall i: Reg :: i != Home(r, w, rex) ==> Insert(f, r, w, rex, v)[i] == f[i]
  {
    if HighByte(r, w, rex) {
      KeepAround(f[r - 4], v);
    } else {
      InsertLowThenExtract(f, r, w, rex, v);
    }
  }

  lemma InsertLowThenExtract(f: File, r: Reg, w: Width, rex: bool, v: u64)
    requires v < Modulus(w) && !HighByte(r, w, rex)
    ensures Extract(Insert(f, r, w, rex, v), r, w, rex) == v
    ensures forall i: Reg :: i != r ==> Insert(f, r, w, rex, v)[i] == f[i]
  {
    hide HighByte;
    match w {
      case W8 => KeepHigh(f[r], Modulus(W8), v);
      case W16 => KeepHigh(f[r], Modulus(W16), v);
      case _ => SmallModulo(v, Modulus(w));
    }
  }

  lemma SmallModulo(x: nat, m: nat)
    requires x < m
    ensures x % m == x
  {
  }

  // ----- the byte lanes of a register -----

  function Lane(v: u64, k: nat): u8
    requires k < 8
  {
    ToBytes(v, 8)[k]
  }

  /** The register an access of this kind falls in, and its first byte. */
  function Home(r: Reg, w: Width, rex: bool): Reg {
    if HighByte(r, w, rex) then r - 4 else r
  }

  function First(r: Reg, w: Width, rex: bool): nat {
    if HighByte(r, w, rex) then 1 else 0
  }

  lemma TruncateBytes(v: u64, w: Width)
    ensures Truncate(v, w) == FromBytes(ToBytes(v, 8)[..Size(w)])
  {
    hide ToBytes, FromBytes;
    var n := Size(w);
    assert Pow256(n) == Modulus(w) by {
      assert Pow256(1) == 256 && Pow256(2) == 256 * Pow256(1) && Pow256(3) == 256 * Pow256(2) && Pow256(4) == 256 * Pow256(3);
      assert Pow256(5) == 256 * Pow256(4) && Pow256(6) == 256 * Pow256(5) && Pow256(7) == 256 * Pow256(6) && Pow256(8) == 256 * Pow256(7);
    }
    BytesPrefix(v, 8, n);
    BytesModulo(v, n);
    ValueOfBytes(v % Pow256(n), n);
  }

  /** A read returns exactly the bytes of the view, little-endian. */
  lemma ExtractLanes(f: File, r: Reg, w: Width, rex: bool)
    ensures var k := First(r, w, rex);
      k + Size(w) <= 8 && Extract(f, r, w, rex) == FromBytes(ToBytes(f[Home(r, w, rex)], 8)[k..k + Size(w)])
  {
    if HighByte(r, w, rex) {
      var v := f[r - 4];
      assert ToBytes(v, 8) == [v % 256] + ToBytes(v / 256, 7);
      assert ToBytes(v / 256, 7) == [v / 256 % 256] + ToBytes(v / 256 / 256, 6);
      assert ToBytes(v, 8)[1..2] == [v / 256 % 256];
      assert FromBytes([v / 256 % 256]) == v / 256 % 256;
    } else {
      TruncateBytes(f[r], w);
      assert ToBytes(f[r], 8)[0..Size(w)] == ToBytes(f[r], 8)[..Size(w)];
    }
  }

  /** The bytes of a register after a write: the view is replaced, a 32-bit write also clears
      the upper half, and every other byte of every register is kept. */
  function LaneAfter(f: File, r: Reg, w: Width, rex: bool, v: u64, i: Reg, k: nat): u8
    requires k < 8
  {
    var at := First(r, w, rex);
    if i != Home(r, w, rex) then Lane(f[i], k)
    else if at <= k < at + Size(w) then ToBytes(v, 8)[k - at]
    else if w == W32 then 0
    else Lane(f[i], k)
  }

  lemma InsertLanes(f: File, r: Reg, w: Width, rex: bool, v: u64, i: Reg, k: nat)
    requires v < Modulus(w) && k < 8
    ensures Lane(Insert(f, r, w, rex, v)[i], k) == LaneAfter(f, r, w, rex, v, i, k)
  {
    hide Lane;
    if i != Home(r, w, rex) {
      OtherLanes(f, r, w, rex, v, i);
    } else if HighByte(r, w, rex) {
      InsertHigh(f[i], v, k);
      LaneIs(v, 0);
    } else if w == W8 {
      InsertLow8(f[i], v, k);
      LaneIs(v, 0);
    } else if w == W16 {
      InsertLow16(f[i], v, k);
    } else {
      WholeLanes(f, r, w, rex, v, k);
    }
  }

  lemma LaneIs(v: u64, k: nat)
    requires k < 8
    ensures Lane(v, k) == ToBytes(v, 8)[k]
  {
  }

  lemma OtherLanes(f: File, r: Reg, w: Width, rex: bool, v: u64, i: Reg)
    requires v < Modulus(w) && i != Home(r, w, rex)
    ensures Insert(f, r, w, rex, v)[i] == f[i]
  {
  }

  lemma WholeLanes(f: File, r: Reg, w: Width, rex: bool, v: u64, k: nat)
    requires v < Modulus(w) && k < 8 && (w == W32 || w == W64)
    ensures Lane(Insert(f, r, w, rex, v)[r], k) == LaneAfter(f, r, w, rex, v, r, k)
  {
    if w == W32 && k >= 4 {
      HighHalfZero(v, k);
    }
  }

  lemma FirstLanes(v: u64)
    ensures ToBytes(v, 8) == [v % 256, v / 256 % 256] + ToBytes(v / 256 / 256, 6)
  {
    assert ToBytes(v, 8) == [v % 256] + ToBytes(v / 256, 7);
    assert ToBytes(v / 256, 7) == [v / 256 % 256] + ToBytes(v / 256 / 256, 6);
  }

  lemma Digit(q: nat, d: nat)
    requires d < 256
    ensures (256 * q + d) % 256 == d && (256 * q + d) / 256 == q
  {
  }

  /** The two low bytes and the rest of a word, after putting them together. */
  lemma Assembled(rest: nat, high: nat, low: nat)
    requires high < 256 && low < 256 && 256 * (256 * rest + high) + low < TWO_64
    ensures ToBytes(256 * (256 * rest + high) + low, 8) == [low, high] + ToBytes(rest, 6)
  {
    Digit(rest, high);
    Digit(256 * rest + high, low);
    FirstLanes(256 * (256 * rest + high) + low);
  }

  lemma InsertLow8(t: u64, v: u64, k: nat)
    requires v < 256 && k < 8
    ensures t - t % 256 + v < TWO_64
    ensures Lane(t - t % 256 + v, k) == if k == 0 then ToBytes(v, 8)[0] else Lane(t, k)
  {
    hide FromBytes, ToBytes;
    var high, rest := t / 256 % 256, t / 256 / 256;
    assert t - t % 256 + v == 256 * (256 * rest + high) + v;
    Assembled(rest, high, v);
    FirstLanes(t);
    FirstLanes(v);
  }

  lemma InsertHigh(t: u64, v: u64, k: nat)
    requires v < 256 && k < 8
    ensures 0 <= t - t / 256 % 256 * 256 + v * 256 < TWO_64
    ensures Lane(t - t / 256 % 256 * 256 + v * 256, k) == if k == 1 then ToBytes(v, 8)[0] else Lane(t, k)
  {
    hide FromBytes, ToBytes;
    var low, rest := t % 256, t / 256 / 256;
    assert t - t / 256 % 256 * 256 + v * 256 == 256 * (256 * rest + v) + low;
    Assembled(rest, v, low);
    FirstLanes(t);
    FirstLanes(v);
  }

  lemma InsertLow16(t: u64, v: u64, k: nat)
    requires v < 0x1_0000 && k < 8
    ensures t - t % 0x1_0000 + v < TWO_64
    ensures Lane(t - t % 0x1_0000 + v, k) == if k < 2 then ToBytes(v, 8)[k] else Lane(t, k)
  {
    hide FromBytes, ToBytes;
    var rest := t / 256 / 256;
    assert t - t % 0x1_0000 == 256 * (256 * rest);
    assert v == 256 * (v / 256) + v % 256 && v / 256 % 256 == v / 256;
    Assembled(rest, v / 256, v % 256);
    FirstLanes(t);
    FirstLanes(v);
  }

  lemma HighHalfZero(v: u64, k: nat)
    requires v < 0x1_0000_0000 && 4 <= k < 8
    ensures Lane(v, k) == 0
  {
    hide FromBytes;
    var h := v / 256 / 256;
    FirstLanes(v);
    assert ToBytes(h, 6) == [h % 256, h / 256 % 256] + ToBytes(h / 256 / 256, 4);
    assert h / 256 / 256 == 0;
    ZeroWordBytes(4);
  }

  lemma {:induction false} ZeroWordBytes(n: nat)
    ensures forall k :: 0 <= k < n ==> ToBytes(0, n)[k] == 0
  {
    if n > 0 {
      ZeroWordBytes(n - 1);
    }
  }
}
