/** Machine words: 64-bit wrap-around, page alignment, little-endian bytes and single bits.

    The C++ integer types are modelled as ranges of `int`, and every place where the source
    relies on wrap-around says so with `Wrap`. */
module Words {

  const TWO_64: int := 0x1_0000_0000_0000_0000
  const PAGE_SIZE: int := 4096

  type u8 = x: int | 0 <= x < 256
  type u64 = x: int | 0 <= x < TWO_64

  datatype Option<+T> = None | Some(value: T)

  function Min(a: int, b: int): int {
    if a <= b then a else b
  }

  function Max(a: int, b: int): int {
    if a >= b then a else b
  }

  /** The 64-bit value of an integer. Stated without `%` to keep proofs linear; see
      `WrapIsModulo`. */
  function Wrap(x: int): u64
    decreases if x < 0 then TWO_64 - x else x
  {
    if x < 0 then Wrap(x + TWO_64) else if x < TWO_64 then x else Wrap(x - TWO_64)
  }

  lemma {:induction false} WrapIsModulo(x: int)
    ensures Wrap(x) == x % TWO_64
    decreases if x < 0 then TWO_64 - x else x
  {
    if x < 0 {
      WrapIsModulo(x + TWO_64);
    } else if x >= TWO_64 {
      WrapIsModulo(x - TWO_64);
    }
  }

  lemma WrapOnce(x: int)
    requires 0 <= x < 2 * TWO_64
    ensures Wrap(x) == if x < TWO_64 then x else x - TWO_64
  {
  }

  lemma WrapTwice(x: int, y: int)
    ensures Wrap(Wrap(x) + y) == Wrap(x + y)
  {
    WrapIsModulo(x);
    WrapIsModulo(Wrap(x) + y);
    WrapIsModulo(x + y);
  }

  /** A non-negative multiple of the page size; see `AlignedIsModulo`. */
  predicate Aligned(x: int)
    decreases if x < 0 then 0 else x
  {
    x == 0 || (x >= PAGE_SIZE && Aligned(x - PAGE_SIZE))
  }

  lemma {:induction false} AlignedIsModulo(x: int)
    requires x >= 0
    ensures Aligned(x) <==> x % PAGE_SIZE == 0
    decreases x
  {
    if x >= PAGE_SIZE {
      AlignedIsModulo(x - PAGE_SIZE);
    }
  }

  lemma AlignedSum(x: int, y: int)
    requires Aligned(x) && Aligned(y)
    ensures x >= 0 && y >= 0 && Aligned(x + y)
    ensures x >= y ==> Aligned(x - y)
  {
    AlignedIsModulo(x);
    AlignedIsModulo(y);
    AlignedIsModulo(x + y);
    if x >= y {
      AlignedIsModulo(x - y);
    }
  }

  /** `value & ~(page_size - 1)`, the last page boundary at or below the value. */
  function PageAlignDown(value: u64): (r: u64)
    ensures Aligned(r) && r <= value < r + PAGE_SIZE
  {
    if value < PAGE_SIZE then 0 else PageAlignDown(value - PAGE_SIZE) + PAGE_SIZE
  }

  /** `(value + page_size - 1) & ~(page_size - 1)`; the sum wraps for the last page. */
  function PageAlignUp(value: u64): (r: u64)
    ensures Aligned(r)
    ensures value <= TWO_64 - PAGE_SIZE ==> value <= r < value + PAGE_SIZE
    ensures value > TWO_64 - PAGE_SIZE ==> r == 0
  {
    WrapOnce(value + PAGE_SIZE - 1);
    PageAlignDown(Wrap(value + PAGE_SIZE - 1))
  }

  lemma {:induction false} AlignedToWords(x: int)
    requires Aligned(x)
    ensures x >= 0 && x % 8 == 0
    decreases x
  {
    if x != 0 {
      AlignedToWords(x - PAGE_SIZE);
    }
  }

  /** `value & ~0xf` */
  function AlignDown16(x: u64): (r: u64)
    ensures r % 16 == 0 && r <= x < r + 16
  {
    x - x % 16
  }

  /** Rounding leaves an aligned value alone. */
  lemma RoundAligned(value: u64)
    requires Aligned(value)
    ensures PageAlignDown(value) == value == PageAlignUp(value)
  {
    hide Aligned, PageAlignDown, PageAlignUp;
    AlignedBelowTop(value);
    AlignedApart(PageAlignDown(value), value);
    AlignedApart(value, PageAlignUp(value));
  }

  lemma AlignedApart(x: int, y: int)
    requires Aligned(x) && Aligned(y) && x <= y
    ensures x == y || x + PAGE_SIZE <= y
  {
    AlignedIsModulo(x);
    AlignedIsModulo(y);
  }

  lemma AlignedBelowTop(x: int)
    requires Aligned(x) && x < TWO_64
    ensures x <= TWO_64 - PAGE_SIZE
  {
    AlignedIsModulo(x);
  }

  // ----- powers of two -----

  function Pow2(n: nat): (r: int)
    ensures r >= 1
  {
    if n == 0 then 1 else 2 * Pow2(n - 1)
  }

  lemma {:induction false} Pow2Adds(m: nat, n: nat)
    ensures Pow2(m + n) == Pow2(m) * Pow2(n)
  {
    if m > 0 {
      Pow2Adds(m - 1, n);
      assert Pow2(m + n) == 2 * (Pow2(m - 1) * Pow2(n)) == (2 * Pow2(m - 1)) * Pow2(n);
    }
  }

  lemma Pow2Of16()
    ensures Pow2(16) == 0x1_0000
  {
    Pow2Adds(8, 8);
    assert Pow2(8) == 256;
  }

  lemma Pow2Of64()
    ensures Pow2(64) == TWO_64
  {
    hide Pow2;
    Pow2Of16();
    Pow2Adds(16, 16);
    Pow2Adds(32, 32);
  }

  /** 2^(8n), the number of values of an n-byte word. */
  function Pow256(n: nat): (r: int)
    ensures r >= 1
  {
    if n == 0 then 1 else 256 * Pow256(n - 1)
  }

  // ----- little-endian bytes -----

  /** The n low bytes of v, least significant first. */
  function ToBytes(v: nat, n: nat): (bs: seq<u8>)
    ensures |bs| == n
  {
    if n == 0 then [] else [v % 256] + ToBytes(v / 256, n - 1)
  }

  function FromBytes(bs: seq<u8>): (v: nat)
    ensures v < Pow256(|bs|)
  {
    if |bs| == 0 then 0 else bs[0] + 256 * FromBytes(bs[1..])
  }

  lemma {:induction false} BytesOfValue(bs: seq<u8>)
    ensures ToBytes(FromBytes(bs), |bs|) == bs
  {
    if |bs| > 0 {
      var rest := FromBytes(bs[1..]);
      assert (bs[0] + 256 * rest) % 256 == bs[0] && (bs[0] + 256 * rest) / 256 == rest;
      BytesOfValue(bs[1..]);
    }
  }

  lemma {:induction false} ValueOfBytes(v: nat, n: nat)
    requires v < Pow256(n)
    ensures FromBytes(ToBytes(v, n)) == v
  {
    if n > 0 {
      ValueOfBytes(v / 256, n - 1);
    }
  }

  lemma {:induction false} BytesPrefix(v: nat, n: nat, k: nat)
    requires k <= n
    ensures ToBytes(v, n)[..k] == ToBytes(v, k)
  {
    if k > 0 {
      BytesPrefix(v / 256, n - 1, k - 1);
    }
  }

  lemma {:induction false} BytesModulo(v: nat, n: nat)
    ensures ToBytes(v % Pow256(n), n) == ToBytes(v, n)
  {
    if n > 0 {
      var p := Pow256(n - 1);
      var q, r := v / Pow256(n), v % Pow256(n);
      assert v == q * (256 * p) + r == 256 * (q * p) + r by {
        assert q * (256 * p) == 256 * (q * p);
      }
      assert v % 256 == r % 256 && v / 256 == q * p + r / 256;
      QuotientUnique(v / 256, p, q, r / 256);
      BytesModulo(v / 256, n - 1);
    }
  }

  lemma QuotientUnique(x: int, m: int, q: int, r: int)
    requires m > 0 && 0 <= r < m && x == q * m + r
    ensures x / m == q && x % m == r
  {
    var d := x / m - q;
    assert d * m == r - x % m by {
      assert (x / m) * m == x - x % m;
      assert d * m == (x / m) * m - q * m;
    }
    assert d >= 1 ==> d * m >= m;
    assert d <= -1 ==> d * m <= -m;
  }

  lemma Successor(x: int, m: int)
    requires m >= 2
    ensures (x + 1) % m == if x % m == m - 1 then 0 else x % m + 1
  {
    if x % m == m - 1 {
      QuotientUnique(x + 1, m, x / m + 1, 0);
    } else {
      QuotientUnique(x + 1, m, x / m, x % m + 1);
    }
  }

  // ----- single bits -----

  predicate Bit(v: nat, k: nat) {
    if k == 0 then v % 2 == 1 else Bit(v / 2, k - 1)
  }

  function SetBit(v: nat, k: nat, on: bool): nat {
    if k == 0 then v - v % 2 + (if on then 1 else 0)
    else SetBit(v / 2, k - 1, on) * 2 + v % 2
  }

  lemma {:induction false} BitOfSetBit(v: nat, k: nat, on: bool, j: nat)
    ensures Bit(SetBit(v, k, on), j) == if j == k then on else Bit(v, j)
  {
    if k > 0 && j > 0 {
      BitOfSetBit(v / 2, k - 1, on, j - 1);
    }
  }

  lemma {:induction false} SetBitBound(v: nat, k: nat, on: bool, n: nat)
    requires v < Pow2(n) && k < n
    ensures SetBit(v, k, on) < Pow2(n)
  {
    if k > 0 {
      SetBitBound(v / 2, k - 1, on, n - 1);
    }
  }

  /** Two words below 2^n with the same n bits are the same word. */
  lemma {:induction false} SameBits(v: nat, w: nat, n: nat)
    requires v < Pow2(n) && w < Pow2(n)
    requires forall k: nat :: k < n ==> Bit(v, k) == Bit(w, k)
    ensures v == w
  {
    if n > 0 {
      assert Bit(v, 0) == Bit(w, 0);
      forall k: nat | k < n - 1 ensures Bit(v / 2, k) == Bit(w / 2, k) {
        assert Bit(v, k + 1) == Bit(w, k + 1);
      }
      SameBits(v / 2, w / 2, n - 1);
    }
  }

  /** A bitwise operator on n-bit words, one bit at a time. */
  function Bitwise(op: (bool, bool) -> bool, v: nat, w: nat, n: nat): (r: nat)
    ensures r < Pow2(n)
  {
    if n == 0 then 0
    else (if op(v % 2 == 1, w % 2 == 1) then 1 else 0) + 2 * Bitwise(op, v / 2, w / 2, n - 1)
  }

  lemma {:induction false} BitOfBitwise(op: (bool, bool) -> bool, v: nat, w: nat, n: nat, k: nat)
    requires k < n
    ensures Bit(Bitwise(op, v, w, n), k) == op(Bit(v, k), Bit(w, k))
  {
    var first, rest := op(v % 2 == 1, w % 2 == 1), Bitwise(op, v / 2, w / 2, n - 1);
    var r := (if first then 1 else 0) + 2 * rest;
    assert r % 2 == (if first then 1 else 0) && r / 2 == rest;
    if k > 0 {
      BitOfBitwise(op, v / 2, w / 2, n - 1, k - 1);
      assert Bit(r, k) == Bit(rest, k - 1);
    }
  }

  /** `~v` on n-bit words. */
  lemma {:induction false} BitOfComplement(v: nat, n: nat, k: nat)
    requires v < Pow2(n) && k < n
    ensures Bit(Pow2(n) - 1 - v, k) == !Bit(v, k)
  {
    var c := Pow2(n) - 1 - v;
    assert c % 2 == 1 - v % 2 && c / 2 == Pow2(n - 1) - 1 - v / 2;
    if k > 0 {
      BitOfComplement(v / 2, n - 1, k - 1);
    }
  }
}
