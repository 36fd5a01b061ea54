/** 64-bit words in guest memory: what `read64` and `write64` do, one word or many. */
module GuestWords {
  import opened Words
  import opened FlatMemory

  function WordBytes(v: u64): (bs: seq<ShadowByte>)
    ensures |bs| == 8
  {
    Tainted(ToBytes(v, 8), false)
  }

  lemma EightBytes(vs: seq<u8>)
    requires |vs| == 8
    ensures FromBytes(vs) < TWO_64
  {
    assert Pow256(1) == 256 && Pow256(2) == 256 * Pow256(1) && Pow256(3) == 256 * Pow256(2) && Pow256(4) == 256 * Pow256(3);
    assert Pow256(5) == 256 * Pow256(4) && Pow256(6) == 256 * Pow256(5) && Pow256(7) == 256 * Pow256(6) && Pow256(8) == 256 * Pow256(7);
  }

  lemma WordOfBytes(v: u64)
    ensures FromBytes(ToBytes(v, 8)) == v
  {
    EightBytes([0, 0, 0, 0, 0, 0, 0, 0]);
    assert Pow256(1) == 256 && Pow256(2) == 256 * Pow256(1) && Pow256(3) == 256 * Pow256(2) && Pow256(4) == 256 * Pow256(3);
    assert Pow256(5) == 256 * Pow256(4) && Pow256(6) == 256 * Pow256(5) && Pow256(7) == 256 * Pow256(6) && Pow256(8) == 256 * Pow256(7);
    ValueOfBytes(v, 8);
  }

  /** `read64` */
  function LoadWord(m: Memory, a: u64): Result<u64> {
    var bs :- Load(m, a, 8);
    EightBytes(Values(bs));
    Ok(FromBytes(Values(bs)))
  }

  function LoadWords(m: Memory, a: u64, n: nat): (r: Result<seq<u64>>)
    ensures r.Ok? ==> |r.value| == n
    decreases n
  {
    if n == 0 then Ok([]) else
    var w :- LoadWord(m, a);
    var rest :- LoadWords(m, At(a, 8), n - 1);
    Ok([w] + rest)
  }

  /** `write64`, word after word */
  function StoreWords(m: Memory, a: u64, ws: seq<u64>): Stored
    decreases |ws|
  {
    if |ws| == 0 then Stored(m, None) else
    var first := Store(m, a, WordBytes(ws[0]));
    if first.error.Some? then first else StoreWords(first.mem, At(a, 8), ws[1..])
  }

  /** The words can be read back from memory at this address. */
  predicate HoldsWords(m: Memory, a: u64, ws: seq<u64>) {
    LoadWords(m, a, |ws|) == Ok(ws)
  }

  /** m and m' agree, and are readable alike, on [lo, hi). */
  predicate SameCells(m: Memory, m': Memory, lo: int, hi: int) {
    forall a :: lo <= a < hi ==> (a in m <==> a in m') && (a in m ==> m[a] == m'[a])
  }

  lemma LoadWordElsewhere(m: Memory, m': Memory, a: u64)
    requires a + 8 <= TWO_64 && SameCells(m, m', a, a + 8)
    ensures LoadWord(m, a) == LoadWord(m', a)
  {
    forall i | 0 <= i < 8 ensures At(a, i) == a + i {}
    LoadElsewhere(m, m', a, 8);
  }

  lemma {:induction false} LoadWordsElsewhere(m: Memory, m': Memory, a: u64, n: nat)
    requires a + 8 * n < TWO_64 && SameCells(m, m', a, a + 8 * n)
    ensures LoadWords(m, a, n) == LoadWords(m', a, n)
    decreases n
  {
    if n > 0 {
      assert At(a, 8) == a + 8;
      LoadWordElsewhere(m, m', a);
      LoadWordsElsewhere(m, m', a + 8, n - 1);
    }
  }

  lemma OverwrittenElsewhere(m: Memory, a: u64, bs: seq<ShadowByte>, m': Memory)
    requires a + |bs| <= TWO_64 && Overwritten(m, a, bs, m')
    ensures SameCells(m, m', 0, a) && SameCells(m, m', a + |bs|, TWO_64)
  {
    forall x | 0 <= x < a || a + |bs| <= x < TWO_64 ensures x in m ==> m'[x] == m[x] {
      forall i | 0 <= i < |bs| ensures x != At(a, i) {}
    }
  }

  lemma OverwrittenShape(m: Memory, a: u64, bs: seq<ShadowByte>, m': Memory)
    requires a + |bs| <= TWO_64 && Overwritten(m, a, bs, m')
    ensures SameShape(m, m')
  {
    forall x | x in m ensures m'[x] == WithByte(m[x], ShadowByte(m'[x].value, m'[x].initialized)) {
      if a <= x < a + |bs| {
        assert At(a, x - a) == x;
      } else {
        forall i | 0 <= i < |bs| ensures x != At(a, i) {}
      }
    }
  }

  /** Storing a word makes it readable, if the bytes may be read at all, and touches nothing else. */
  lemma StoredWord(m: Memory, a: u64, v: u64)
    requires a + 8 < TWO_64 && Store(m, a, WordBytes(v)).error.None?
    ensures var m' := Store(m, a, WordBytes(v)).mem;
      SameShape(m, m') && SameCells(m, m', 0, a) && SameCells(m, m', a + 8, TWO_64)
    ensures Readable(m, a, a + 8) ==> LoadWord(Store(m, a, WordBytes(v)).mem, a) == Ok(v)
  {
    hide Store, Load, Overwritten, Accessible, SameShape, SameCells, Readable, FromBytes, ToBytes;
    var bs := WordBytes(v);
    StoreIsPointwise(m, a, bs);
    OverwrittenElsewhere(m, a, bs, Store(m, a, bs).mem);
    OverwrittenShape(m, a, bs, Store(m, a, bs).mem);
    if Readable(m, a, a + 8) {
      ReadableIsAccessible(m, a, 8);
      ShadowRoundTrip(m, a, bs);
      WordOfBytes(v);
    }
  }

  lemma ReadableIsAccessible(m: Memory, a: u64, n: nat)
    requires a + n <= TWO_64 && Readable(m, a, a + n)
    ensures Accessible(m, a, n, Read)
  {
    forall i | 0 <= i < n ensures Allowed(m, At(a, i), Read) {
      assert At(a, i) == a + i;
      assert Read in m[a + i].prot;
    }
  }

  /** The same addresses with the same protections and names. */
  predicate SameShape(m: Memory, m': Memory) {
    m'.Keys == m.Keys &&
    forall a :: a in m ==> m'[a] == WithByte(m[a], ShadowByte(m'[a].value, m'[a].initialized))
  }

  predicate Readable(m: Memory, lo: int, hi: int) {
    forall a :: lo <= a < hi ==> a in m && Read in m[a].prot
  }

  /** Words stored below 2^64 are all readable afterwards, and nothing else is touched. */
  lemma {:induction false} StoredWords(m: Memory, a: u64, ws: seq<u64>)
    requires a + 8 * |ws| < TWO_64 && StoreWords(m, a, ws).error.None?
    ensures var m' := StoreWords(m, a, ws).mem;
      SameShape(m, m') && SameCells(m, m', 0, a) && SameCells(m, m', a + 8 * |ws|, TWO_64)
    ensures Readable(m, a, a + 8 * |ws|) ==> HoldsWords(StoreWords(m, a, ws).mem, a, ws)
    decreases |ws|
  {
    hide Store, LoadWord, SameShape, SameCells, Readable, WordBytes;
    if |ws| == 0 {
      Untouched(m, a);
    } else {
      var m1 := Store(m, a, WordBytes(ws[0])).mem;
      assert At(a, 8) == a + 8;
      StoredWord(m, a, ws[0]);
      StoredWords(m1, a + 8, ws[1..]);
      var m' := StoreWords(m, a, ws).mem;
      Chained(m, m1, m', a, a + 8, a + 8 * |ws|);
      if Readable(m, a, a + 8 * |ws|) {
        ReadableStays(m, m1, a, a + 8, a + 8 * |ws|);
        NarrowCells(m1, m', 0, a + 8, a, a + 8);
        LoadWordElsewhere(m1, m', a);
        assert [ws[0]] + ws[1..] == ws;
      }
    }
  }

  /** Words in memory, one by one. */
  lemma {:induction false} HeldWord(m: Memory, a: u64, ws: seq<u64>, i: nat)
    requires HoldsWords(m, a, ws) && i < |ws| && a + 8 * |ws| <= TWO_64
    ensures LoadWord(m, a + 8 * i) == Ok(ws[i])
    decreases i
  {
    hide LoadWord;
    var rest := LoadWords(m, At(a, 8), |ws| - 1);
    assert [LoadWord(m, a).value] + rest.value == ws;
    if i > 0 {
      assert At(a, 8) == a + 8;
      assert rest.value == ws[1..];
      HeldWord(m, a + 8, ws[1..], i - 1);
    }
  }

  predicate Defined(m: Memory, lo: int, hi: int) {
    forall a :: lo <= a < hi ==> a in m && m[a].initialized
  }

  /** `write64` defines every byte it writes. */
  lemma {:induction false} StoredWordsDefined(m: Memory, a: u64, ws: seq<u64>)
    requires a + 8 * |ws| < TWO_64 && StoreWords(m, a, ws).error.None?
    ensures Defined(StoreWords(m, a, ws).mem, a, a + 8 * |ws|)
    decreases |ws|
  {
    hide Store, SameShape, SameCells, Readable, WordBytes, ToBytes;
    if |ws| > 0 {
      var m1, m' := Store(m, a, WordBytes(ws[0])).mem, StoreWords(m, a, ws).mem;
      assert At(a, 8) == a + 8;
      WordDefined(m, a, ws[0]);
      StoredWords(m1, a + 8, ws[1..]);
      StoredWordsDefined(m1, a + 8, ws[1..]);
      DefinedOn(m1, m', a, a + 8, a + 8 * |ws|);
    }
  }

  lemma WordDefined(m: Memory, a: u64, v: u64)
    requires a + 8 < TWO_64 && Store(m, a, WordBytes(v)).error.None?
    ensures Defined(Store(m, a, WordBytes(v)).mem, a, a + 8)
  {
    hide Store, ToBytes, Accessible;
    StoreIsPointwise(m, a, WordBytes(v));
    var m' := Store(m, a, WordBytes(v)).mem;
    forall x | a <= x < a + 8 ensures x in m' && m'[x].initialized {
      assert At(a, x - a) == x;
    }
  }

  lemma DefinedOn(m1: Memory, m': Memory, a: int, b: int, c: int)
    requires 0 <= a <= b && Defined(m1, a, b) && SameCells(m1, m', 0, b) && Defined(m', b, c)
    ensures Defined(m', a, c)
  {
  }

  lemma AccessInParts(m: Memory, a: u64, k: nat, n: nat, access: Access)
    ensures Accessible(m, a, k + n, access) <==> Accessible(m, a, k, access) && Accessible(m, At(a, k), n, access)
  {
    hide Wrap;
    forall i: nat | i < n ensures At(At(a, k), i) == At(a, k + i) {
      WrapTwice(a + k, i);
    }
    if Accessible(m, a, k, access) && Accessible(m, At(a, k), n, access) {
      forall i | 0 <= i < k + n ensures Allowed(m, At(a, i), access) {
        if i >= k {
          assert At(At(a, k), i - k) == At(a, i);
        }
      }
    }
    if Accessible(m, a, k + n, access) {
      forall i: nat | i < n ensures Allowed(m, At(At(a, k), i), access) {
        assert Allowed(m, At(a, k + i), access);
      }
    }
  }

  /** Words can be stored exactly if all their bytes may be written. */
  lemma {:induction false} StoreWordsSucceeds(m: Memory, a: u64, ws: seq<u64>)
    requires 8 * |ws| <= TWO_64
    ensures StoreWords(m, a, ws).error.None? <==> Accessible(m, a, 8 * |ws|, Write)
    decreases |ws|
  {
    hide Store, WordBytes, Accessible, Overwritten, Wrap;
    if |ws| == 0 {
      NoBytes(m, a, Write);
    } else {
      AccessInParts(m, a, 8, 8 * (|ws| - 1), Write);
      StoreIsPointwise(m, a, WordBytes(ws[0]));
      var first := Store(m, a, WordBytes(ws[0]));
      if first.error.None? {
        StoreWordsSucceeds(first.mem, At(a, 8), ws[1..]);
        AccessStays(m, a, WordBytes(ws[0]), first.mem, At(a, 8), 8 * (|ws| - 1), Write);
      }
    }
  }

  lemma NoBytes(m: Memory, a: u64, access: Access)
    ensures Accessible(m, a, 0, access)
  {
  }

  lemma AccessStays(m: Memory, a: u64, bs: seq<ShadowByte>, m': Memory, b: u64, n: nat, access: Access)
    requires Overwritten(m, a, bs, m')
    ensures Accessible(m', b, n, access) == Accessible(m, b, n, access)
  {
    forall x: u64 ensures Allowed(m', x, access) == Allowed(m, x, access) {
      if x in m {
        if i :| 0 <= i < |bs| && x == At(a, i) {
        }
      }
    }
  }

  /** Words can be loaded exactly if all their bytes may be read. */
  lemma {:induction false} LoadWordsSucceeds(m: Memory, a: u64, n: nat)
    ensures LoadWords(m, a, n).Ok? <==> Accessible(m, a, 8 * n, Read)
    decreases n
  {
    hide Load, Accessible, Wrap;
    if n == 0 {
      NoBytes(m, a, Read);
    } else {
      AccessInParts(m, a, 8, 8 * (n - 1), Read);
      LoadIsPointwise(m, a, 8);
      LoadWordsSucceeds(m, At(a, 8), n - 1);
    }
  }

  lemma Untouched(m: Memory, a: int)
    ensures SameShape(m, m) && SameCells(m, m, 0, a) && SameCells(m, m, a, TWO_64)
  {
  }

  lemma NarrowCells(m: Memory, m': Memory, lo: int, hi: int, lo': int, hi': int)
    requires SameCells(m, m', lo, hi) && lo <= lo' && hi' <= hi
    ensures SameCells(m, m', lo', hi')
  {
  }

  /** A change to [a, b), then one to [b, c). */
  lemma Chained(m: Memory, m1: Memory, m2: Memory, a: int, b: int, c: int)
    requires a <= b <= c && SameShape(m, m1) && SameShape(m1, m2)
    requires SameCells(m, m1, 0, a) && SameCells(m, m1, b, TWO_64) && SameCells(m1, m2, 0, b) && SameCells(m1, m2, c, TWO_64)
    ensures SameShape(m, m2) && SameCells(m, m2, 0, a) && SameCells(m, m2, c, TWO_64)
  {
    forall x | x in m ensures m2[x] == WithByte(m[x], ShadowByte(m2[x].value, m2[x].initialized)) {}
  }

  lemma ReadableStays(m: Memory, m1: Memory, a: int, b: int, c: int)
    requires SameShape(m, m1) && Readable(m, a, c) && a <= b <= c
    ensures Readable(m1, b, c) && Readable(m, a, b)
  {
    forall x | b <= x < c ensures x in m1 && Read in m1[x].prot {
      assert x in m && Read in m[x].prot;
    }
  }
}
