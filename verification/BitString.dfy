/** BT, BTS, BTR and BTC with a register bit offset: in memory the operand is a bit string that
    reaches any distance to either side of its address. */
module BitString {
  import opened Words
  import opened FlatMemory
  import opened Registers
  import opened Alu
  import opened Cpu
  import opened MulDiv
  import opened DataOps

  datatype BitOp = Bt | Bts | Btr | Btc

  function NewBit(op: BitOp, bit: bool): bool {
    match op case Bt => bit case Bts => true case Btr => false case Btc => !bit
  }

  /** The word with bit k changed as the operation says. */
  function Changed(op: BitOp, v: u64, k: nat): u64
    requires k < 64
  {
    SetFlag(v, k, NewBit(op, Flag(v, k)))
  }

  datatype Element = Element(offset: int, bit: int)

  /** Which element of w bits holds the bit, by C division and a correction for negative remainders. */
  function Locate(o: int, w: Width): Element {
    var e, k := Quotient(o, Bits(w)), o - Quotient(o, Bits(w)) * Bits(w);
    if k < 0 then Element(e - 1, k + Bits(w)) else Element(e, k)
  }

  lemma LocateIsFloor(o: int, w: Width)
    ensures Locate(o, w) == Element(o / Bits(w), o % Bits(w)) && 0 <= Locate(o, w).bit < Bits(w)
  {
    hide Bits, Quotient;
    SomeBits(w);
    FloorFromTruncation(o, Bits(w));
  }

  lemma SomeBits(w: Width)
    ensures Bits(w) > 0 && Bits(w) == 8 * (Bits(w) / 8)
  {
  }

  lemma FloorFromTruncation(o: int, n: int)
    requires n > 0
    ensures var q := Quotient(o, n);
      var k := o - q * n;
      if k < 0 then q - 1 == o / n && k + n == o % n else q == o / n && k == o % n
  {
    if o < 0 {
      var m, r := (-o) / n, (-o) % n;
      assert -o == m * n + r;
      Negated(m, n);
      if r == 0 {
        QuotientUnique(o, n, -m, 0);
      } else {
        QuotientUnique(o, n, -m - 1, n - r);
      }
    }
  }

  lemma Negated(m: int, n: int)
    ensures (-m) * n == -(m * n) && (-m - 1) * n == -(m * n) - n
  {
  }

  /** CF takes the bit; the flags take the taint of the instruction. */
  function WithBit(s: State, bit: bool): State {
    WithFlags(s, SetFlag(s.rflags, CF, bit))
  }

  function ElementAddress(ea: u64, o: int, w: Width): u64 {
    Wrap(ea + Locate(o, w).offset * (Bits(w) / 8))
  }

  /** The part after the element is known: plain reads and writes, which ignore and clear shadows. */
  function BitInMemory(s: State, op: BitOp, w: Width, a: u64, k: nat): Exec<State>
    requires k < 64
  {
    match Load(s.mem, a, Size(w))
    case Err(e) => Faulted(e, s.reports)
    case Ok(bs) =>
      WordFits(Values(bs), w);
      var v: u64 := FromBytes(Values(bs));
      var s1 := WithBit(s, Flag(v, k));
      if op == Bt || Changed(op, v, k) == v then Done(s1) else
      var stored := Store(s1.mem, a, Tainted(ToBytes(Changed(op, v, k), Size(w)), false));
      if stored.error.Some? then Faulted(stored.error.value, s1.reports) else Done(s1.(mem := stored.mem))
  }

  function BitInRegister(s: State, op: BitOp, w: Width, rex: bool, r: Reg, k: nat): Exec<State>
    requires k < 64
  {
    var (s1, v) := ReadGpr(s, r, w, rex);
    var s2 := WithBit(s1, Flag(v, k));
    if op == Bt || Changed(op, v, k) == v then Done(s2) else Done(WriteGpr(s2, r, w, rex, Changed(op, v, k)))
  }

  /** `execute_0f` for A3, AB, B3 and BB */
  function ExecuteBitOp(s: State, op: BitOp, w: Width, rex: bool, rm: Place, r: Reg): Exec<State> {
    var (s1, raw) := ReadGpr(s, r, w, rex);
    match rm
    case InRegister(base) => BitInRegister(s1, op, w, rex, base, raw % Bits(w))
    case InMemory(ea) =>
      var o := SignedOperand(raw, w);
      LocateIsFloor(o, w);
      BitInMemory(s1, op, w, ElementAddress(ea, o, w), Locate(o, w).bit)
  }

  // ----- bits of little-endian words -----

  lemma {:induction false} BitOfSum(a: nat, r: nat, j: nat, k: nat)
    requires a < Pow2(j)
    ensures a + Pow2(j) * r >= 0
    ensures Bit(a + Pow2(j) * r, k) == if k < j then Bit(a, k) else Bit(r, k - j)
  {
    if j > 0 {
      var p := Pow2(j - 1);
      HalfOfSum(a, p, r);
      BitOfSum(a / 2, r, j - 1, if k > 0 then k - 1 else 0);
    }
  }

  lemma HalfOfSum(a: nat, p: nat, r: nat)
    ensures 0 <= a + 2 * p * r && (a + 2 * p * r) / 2 == a / 2 + p * r && (a + 2 * p * r) % 2 == a % 2
  {
    var x := p * r;
    assert 2 * p * r == 2 * x;
  }

  lemma {:induction false} SetBitOfSum(a: nat, r: nat, j: nat, k: nat, on: bool)
    requires a < Pow2(j)
    ensures a + Pow2(j) * r >= 0
    ensures SetBit(a + Pow2(j) * r, k, on) == if k < j then SetBit(a, k, on) + Pow2(j) * r else a + Pow2(j) * SetBit(r, k - j, on)
  {
    hide SetBit;
    if j > 0 {
      var p := Pow2(j - 1);
      HalfOfSum(a, p, r);
      SetBitStep(a, k, on);
      SetBitStep(a + 2 * p * r, k, on);
      if k > 0 {
        SetBitOfSum(a / 2, r, j - 1, k - 1, on);
        Doubled(p, if k < j then r else SetBit(r, k - j, on));
      }
    }
  }

  lemma SetBitStep(v: nat, k: nat, on: bool)
    ensures SetBit(v, k, on) == if k == 0 then v - v % 2 + (if on then 1 else 0) else SetBit(v / 2, k - 1, on) * 2 + v % 2
  {
  }

  lemma Doubled(p: nat, y: nat)
    ensures 2 * p * y == 2 * (p * y)
  {
  }

  lemma EightBits()
    ensures Pow2(8) == 256
  {
    Pow2Adds(4, 4);
  }

  /** Bit k of a word is bit k mod 8 of byte k / 8. */
  lemma {:induction false} BitOfBytes(bs: seq<u8>, k: nat)
    requires k < 8 * |bs|
    ensures Bit(FromBytes(bs), k) == Bit(bs[k / 8], k % 8)
  {
    EightBits();
    BitOfSum(bs[0], FromBytes(bs[1..]), 8, k);
    if k >= 8 {
      BitOfBytes(bs[1..], k - 8);
    }
  }

  /** Changing bit k of a word changes bit k mod 8 of byte k / 8, and no other byte. */
  lemma {:induction false} SetBitOfBytes(bs: seq<u8>, k: nat, on: bool)
    requires k < 8 * |bs|
    ensures SetBit(bs[k / 8], k % 8, on) < 256
    ensures ToBytes(SetBit(FromBytes(bs), k, on), |bs|) == bs[k / 8 := SetBit(bs[k / 8], k % 8, on)]
  {
    hide SetBit, Pow2, Pow256;
    EightBits();
    var first, rest: nat := bs[0], FromBytes(bs[1..]);
    SetBitOfSum(first, rest, 8, k, on);
    if k < 8 {
      SetBitBound(first, k, on, 8);
      Digits(SetBit(first, k, on), rest);
      BytesOfValue(bs[1..]);
    } else {
      SetBitOfBytes(bs[1..], k - 8, on);
      Digits(first, SetBit(rest, k - 8, on));
    }
  }

  lemma Digits(d: nat, q: nat)
    requires d < 256
    ensures (d + 256 * q) % 256 == d && (d + 256 * q) / 256 == q
  {
  }

  // ----- one bit of memory -----

  function ByteWith(v: u8, k: nat, on: bool): u8
    requires k < 8
  {
    EightBits();
    SetBitBound(v, k, on, 8);
    SetBit(v, k, on)
  }

  /** What becomes of the cell at x when bit k of byte b changes and [lo, hi) is written back. */
  function CellAfter(c: Cell, x: int, lo: int, hi: int, b: int, k: nat, on: bool): Cell
    requires k < 8
  {
    c.(value := if x == b then ByteWith(c.value, k, on) else c.value, initialized := c.initialized || lo <= x < hi)
  }

  /** m' is m with that one bit set to on; the whole element counts as initialized afterwards. */
  predicate OneBitChanged(m: Memory, m': Memory, lo: int, hi: int, b: int, k: nat, on: bool)
    requires k < 8
  {
    m'.Keys == m.Keys && forall x :: x in m ==> m'[x] == CellAfter(m[x], x, lo, hi, b, k, on)
  }

  lemma {:induction false} SetSameBit(v: nat, k: nat)
    ensures SetBit(v, k, Bit(v, k)) == v
  {
    if k > 0 {
      SetSameBit(v / 2, k - 1);
    }
  }

  lemma ChangedDiffers(op: BitOp, v: u64, k: nat)
    requires k < 64
    ensures Changed(op, v, k) == v <==> NewBit(op, Bit(v, k)) == Bit(v, k)
  {
    hide SetBit, Bit;
    SetSameBit(v, k);
    BitOfSetBit(v, k, NewBit(op, Bit(v, k)), k);
  }

  /** The values of the |bs| cells from a on. */
  predicate BytesAt(m: Memory, a: int, bs: seq<u8>) {
    forall j :: 0 <= j < |bs| ==> ByteIs(m, a + j, bs[j])
  }

  predicate ByteIs(m: Memory, a: int, v: u8) {
    a in m && m[a].value == v
  }

  lemma LoadedBytes(m: Memory, a: u64, n: nat)
    requires a + n <= TWO_64 && Accessible(m, a, n, Read)
    ensures Load(m, a, n).Ok? && BytesAt(m, a, Values(Load(m, a, n).value))
  {
    hide Load, Accessible;
    LoadIsPointwise(m, a, n);
    var bs := Values(Load(m, a, n).value);
    forall j | 0 <= j < |bs| ensures ByteIs(m, a + j, bs[j]) {
      assert At(a, j) == a + j;
    }
  }

  lemma StoredBack(m: Memory, a: u64, bs: seq<u8>, k: nat, on: bool)
    requires a + |bs| <= TWO_64 && Accessible(m, a, |bs|, Write) && k < 8 * |bs|
    requires BytesAt(m, a, bs)
    ensures var r := Store(m, a, Tainted(bs[k / 8 := ByteWith(bs[k / 8], k % 8, on)], false));
      r.error.None? && OneBitChanged(m, r.mem, a, a + |bs|, a + k / 8, k % 8, on)
  {
    hide Store, ByteWith;
    var changed := bs[k / 8 := ByteWith(bs[k / 8], k % 8, on)];
    StoreIsPointwise(m, a, Tainted(changed, false));
    var m' := Store(m, a, Tainted(changed, false)).mem;
    forall x | x in m ensures m'[x] == CellAfter(m[x], x, a, a + |bs|, a + k / 8, k % 8, on) {
      if a <= x < a + |bs| {
        assert At(a, x - a) == x && ByteIs(m, a + (x - a), bs[x - a]);
      } else {
        forall i | 0 <= i < |bs| ensures x != At(a, i) {}
      }
    }
  }

  /** The element is readable, and writable unless the bit is only tested. */
  predicate ElementOpen(m: Memory, op: BitOp, a: int, w: Width) {
    0 <= a && a + Size(w) <= TWO_64 && Accessible(m, a, Size(w), Read) && (op == Bt || Accessible(m, a, Size(w), Write))
  }

  /** CF took bit k of byte b; that bit changed as the operation says, and nothing else did. */
  ghost predicate OneBitDone(s: State, r: Exec<State>, op: BitOp, lo: int, hi: int, b: int, k: nat)
    requires k < 8
  {
    b in s.mem && r.Done? &&
    var bit := Bit(s.mem[b].value, k);
    var on := Outcome(op, bit);
    && SetsCarry(s, r.value.(mem := s.mem), bit)
    && if on == bit then r.value.mem == s.mem else OneBitChanged(s.mem, r.value.mem, lo, hi, b, k, on)
  }

  /** BTS sets the bit, BTR clears it, BTC flips it and BT leaves it. */
  predicate Outcome(op: BitOp, bit: bool) {
    (op == Bts) || (op == Btc && !bit) || (op == Bt && bit)
  }

  /** CF and the taint of the flags change, and nothing else. */
  ghost predicate SetsCarry(s: State, s': State, bit: bool) {
    && s' == s.(rflags := s'.rflags, flagsTainted := s.taint)
    && forall j: nat :: Flag(s'.rflags, j) == if j == CF then bit else Flag(s.rflags, j)
  }

  lemma WithBitSets(s: State, bit: bool)
    ensures SetsCarry(s, WithBit(s, bit), bit)
  {
    hide Flag, SetFlag;
    SetFlagBits(s.rflags, CF, bit);
  }

  /** The bit read and changed, once the element is known. */
  lemma BitInMemoryIsExact(s: State, op: BitOp, w: Width, a: u64, k: nat)
    requires k < Bits(w) && ElementOpen(s.mem, op, a, w)
    ensures OneBitDone(s, BitInMemory(s, op, w, a, k), op, a, a + Size(w), a + k / 8, k % 8)
  {
    hide Load, Store, Accessible, OneBitChanged, Bit, SetBit, ToBytes, FromBytes, ByteWith, Values;
    LoadedBytes(s.mem, a, Size(w));
    var bs := Values(Load(s.mem, a, Size(w)).value);
    WordFits(bs, w);
    var v: u64 := FromBytes(bs);
    assert ByteIs(s.mem, a + k / 8, bs[k / 8]);
    BitOfBytes(bs, k);
    ChangedDiffers(op, v, k);
    var on := NewBit(op, Bit(v, k));
    SetBitOfBytes(bs, k, on);
    ByteWithIs(bs[k / 8], k % 8, on);
    WithBitSets(s, Bit(v, k));
    if op != Bt {
      StoredBack(s.mem, a, bs, k, on);
    }
  }

  lemma ByteWithIs(v: u8, k: nat, on: bool)
    requires k < 8
    ensures ByteWith(v, k, on) == SetBit(v, k, on)
  {
  }

  /** The element and the bit in it are the byte and the bit floor division gives. */
  lemma SameBitPlace(ea: u64, o: int, w: Width)
    ensures var e := Locate(o, w);
      0 <= e.bit < Bits(w) && ea + e.offset * (Bits(w) / 8) + e.bit / 8 == ea + o / 8 && e.bit % 8 == o % 8
  {
    hide Bits, Locate;
    LocateIsFloor(o, w);
    SomeBits(w);
    EightsOf(o, o / Bits(w), Bits(w) / 8, o % Bits(w));
  }

  lemma EightsOf(o: int, e: int, c: int, k: nat)
    requires o == e * (8 * c) + k
    ensures o / 8 == e * c + k / 8 && o % 8 == k % 8
  {
    assert e * (8 * c) == e * c * 8;
    QuotientUnique(o, 8, e * c + k / 8, k % 8);
  }

  /** Where the element with the bit starts. */
  function ElementStart(ea: u64, o: int, w: Width): int {
    ea + o / Bits(w) * (Bits(w) / 8)
  }

  /** With an offset of either sign, CF takes bit (offset mod 8) of byte address + floor(offset / 8),
      and the writing forms change that bit and no other bit of memory. */
  lemma BitStringIsExact(s: State, op: BitOp, w: Width, rex: bool, ea: u64, r: Reg)
    requires var o := SignedOperand(Extract(s.gpr, r, w, rex), w); ElementOpen(s.mem, op, ElementStart(ea, o, w), w)
    ensures var o := SignedOperand(Extract(s.gpr, r, w, rex), w);
      var a := ElementStart(ea, o, w);
      OneBitDone(ReadGpr(s, r, w, rex).0, ExecuteBitOp(s, op, w, rex, InMemory(ea), r), op, a, a + Size(w), ea + o / 8, o % 8)
  {
    hide ElementOpen, OneBitDone, BitInMemory, SignedOperand, Extract, Locate, Wrap, Bits;
    var o := SignedOperand(Extract(s.gpr, r, w, rex), w);
    LocateIsFloor(o, w);
    SameBitPlace(ea, o, w);
    var a := ElementStart(ea, o, w);
    OpenStart(s.mem, op, a, w);
    PlainAddress(a);
    BitInMemoryIsExact(ReadGpr(s, r, w, rex).0, op, w, a, Locate(o, w).bit);
  }

  /** The low bits of v' are those of v with bit k as the operation leaves it. */
  predicate BitDone(op: BitOp, v: nat, v': nat, w: Width, k: nat) {
    forall j: nat :: j < Bits(w) ==> Bit(v', j) == if j == k then Outcome(op, Bit(v, k)) else Bit(v, j)
  }

  lemma ChangedBits(op: BitOp, v: u64, w: Width, k: nat)
    requires v < Modulus(w) && k < Bits(w)
    ensures k < 64 && Changed(op, v, k) < Modulus(w) && BitDone(op, v, Changed(op, v, k), w, k)
    ensures op == Bt ==> BitDone(op, v, v, w, k)
  {
    hide SetBit, Pow2, Bit;
    AtMost64(w);
    ModulusIsPower(w);
    SetBitBound(v, k, NewBit(op, Bit(v, k)), Bits(w));
    forall j: nat | j < Bits(w) ensures Bit(Changed(op, v, k), j) == if j == k then Outcome(op, Bit(v, k)) else Bit(v, j) {
      BitOfSetBit(v, k, NewBit(op, Bit(v, k)), j);
    }
  }

  lemma AtMost64(w: Width)
    ensures 0 < Bits(w) <= 64
  {
  }

  lemma BitInRegisterIsExact(s: State, op: BitOp, w: Width, rex: bool, base: Reg, k: nat)
    requires k < Bits(w)
    ensures k < 64 && BitInRegister(s, op, w, rex, base, k).Done?
    ensures var s', v := BitInRegister(s, op, w, rex, base, k).value, Extract(s.gpr, base, w, rex);
      && SetsCarry(s.(taint := s.taint || Extract(s.shadow, base, w, rex) != 0), s'.(gpr := s.gpr, shadow := s.shadow), Bit(v, k))
      && BitDone(op, v, Extract(s'.gpr, base, w, rex), w, k)
      && (forall i: Reg :: i != Home(base, w, rex) ==> s'.gpr[i] == s.gpr[i])
  {
    hide Extract, Insert, Bit, Changed, Bits, Home, Modulus, BitDone, SetsCarry, WithBit;
    var (s1, v) := ReadGpr(s, base, w, rex);
    AtMost64(w);
    ChangedBits(op, v, w, k);
    WithBitSets(s1, Bit(v, k));
    CarryFrame(s1, WithBit(s1, Bit(v, k)), Bit(v, k));
    Fits(Changed(op, v, k), w);
    InsertThenExtract(s.gpr, base, w, rex, Changed(op, v, k));
  }

  lemma CarryFrame(s: State, s': State, bit: bool)
    requires SetsCarry(s, s', bit)
    ensures s'.gpr == s.gpr && s'.shadow == s.shadow
    ensures forall gpr: File, shadow: File :: SetsCarry(s, s'.(gpr := gpr, shadow := shadow).(gpr := s.gpr, shadow := s.shadow), bit)
  {
    hide Flag;
    forall gpr: File, shadow: File ensures s'.(gpr := gpr, shadow := shadow).(gpr := s.gpr, shadow := s.shadow) == s' {}
  }

  /** In a register the offset counts modulo the width: CF takes that bit, and the writing forms change it
      and no other bit of the view. */
  lemma RegisterBitIsExact(s: State, op: BitOp, w: Width, rex: bool, base: Reg, r: Reg)
    ensures ExecuteBitOp(s, op, w, rex, InRegister(base), r).Done?
    ensures var s', v := ExecuteBitOp(s, op, w, rex, InRegister(base), r).value, Extract(s.gpr, base, w, rex);
      var k := Extract(s.gpr, r, w, rex) % Bits(w);
      var undefined := s.taint || Extract(s.shadow, r, w, rex) != 0 || Extract(s.shadow, base, w, rex) != 0;
      && SetsCarry(s.(taint := undefined), s'.(gpr := s.gpr, shadow := s.shadow), Bit(v, k))
      && BitDone(op, v, Extract(s'.gpr, base, w, rex), w, k)
      && (forall i: Reg :: i != Home(base, w, rex) ==> s'.gpr[i] == s.gpr[i])
  {
    hide Extract, BitInRegister, Bit, Home, BitDone, SetsCarry;
    AtMost64(w);
    BitInRegisterIsExact(ReadGpr(s, r, w, rex).0, op, w, rex, base, Extract(s.gpr, r, w, rex) % Bits(w));
  }

  lemma OpenStart(m: Memory, op: BitOp, a: int, w: Width)
    requires ElementOpen(m, op, a, w)
    ensures 0 <= a < TWO_64
  {
  }

  lemma PlainAddress(a: int)
    requires 0 <= a < TWO_64
    ensures Wrap(a) == a
  {
  }
}
