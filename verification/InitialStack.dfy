/** The initial process stack: strings first, then the word vector a C library walks
    (section 3.4.1 of the System V AMD64 ABI). */
module InitialStack {
  import opened Words
  import opened FlatMemory
  import opened GuestWords

  datatype Stack = Stack(mem: Memory, top: u64)

  function Clear(bs: seq<u8>): (cells: seq<ShadowByte>)
    ensures |cells| == |bs|
  {
    Tainted(bs, false)
  }

  /** `push_bytes` */
  function PushBytes(s: Stack, bs: seq<u8>): Result<Stack> {
    var top := Wrap(s.top - |bs|);
    var stored := Store(s.mem, top, Clear(bs));
    if stored.error.Some? then Err(stored.error.value) else Ok(Stack(stored.mem, top))
  }

  /** `push_string` adds the terminating zero. */
  function PushString(s: Stack, text: seq<u8>): Result<Stack> {
    PushBytes(s, text + [0])
  }

  datatype Pushed = Pushed(stack: Stack, addresses: seq<u64>)

  /** The strings from last to first; their addresses in the original order. */
  function PushStrings(s: Stack, texts: seq<seq<u8>>): (r: Result<Pushed>)
    ensures r.Ok? ==> |r.value.addresses| == |texts|
    decreases |texts|
  {
    if |texts| == 0 then Ok(Pushed(s, [])) else
    var s1 :- PushString(s, texts[|texts| - 1]);
    var rest :- PushStrings(s1, texts[..|texts| - 1]);
    Ok(Pushed(rest.stack, rest.addresses + [s1.top]))
  }

  /** `push64` */
  function PushWord(s: Stack, w: u64): Result<Stack> {
    PushBytes(s, ToBytes(w, 8))
  }

  /** The words from last to first. */
  function PushWords(s: Stack, ws: seq<u64>): Result<Stack>
    decreases |ws|
  {
    if |ws| == 0 then Ok(s) else
    var s1 :- PushWord(s, ws[|ws| - 1]);
    PushWords(s1, ws[..|ws| - 1])
  }

  /** What the stack takes from the loaded program and the host; `start` is the first rip. */
  datatype Program = Program(
    start: u64, phdr: u64, phent: u64, phnum: u64, base: u64, entry: u64,
    uid: u64, euid: u64, gid: u64, egid: u64, clockTicks: u64)

  datatype Aux = Aux(key: u64, value: u64)

  /** The auxiliary vector without its AT_NULL end. */
  function AuxiliaryVector(p: Program, platform: u64, random: u64, execfn: u64): (pairs: seq<Aux>)
    ensures |pairs| == 18 && forall i :: 0 <= i < |pairs| ==> pairs[i].key != 0
  {
    [Aux(3, p.phdr), Aux(4, p.phent), Aux(5, p.phnum), Aux(6, PAGE_SIZE), Aux(7, p.base), Aux(8, 0), Aux(9, p.entry),
     Aux(11, p.uid), Aux(12, p.euid), Aux(13, p.gid), Aux(14, p.egid), Aux(15, platform), Aux(16, 0),
     Aux(17, p.clockTicks), Aux(23, 0), Aux(25, random), Aux(26, 0), Aux(31, execfn)]
  }

  // keys of the auxiliary vector (section 3.4.3 of the System V AMD64 ABI, and Linux)
  const AT_PHDR := 3
  const AT_PHENT := 4
  const AT_PHNUM := 5
  const AT_PAGESZ := 6
  const AT_BASE := 7
  const AT_FLAGS := 8
  const AT_ENTRY := 9
  const AT_UID := 11
  const AT_EUID := 12
  const AT_GID := 13
  const AT_EGID := 14
  const AT_PLATFORM := 15
  const AT_HWCAP := 16
  const AT_CLKTCK := 17
  const AT_SECURE := 23
  const AT_RANDOM := 25
  const AT_HWCAP2 := 26
  const AT_EXECFN := 31

  /** The value under a key, which occurs once. */
  ghost predicate Has(pairs: seq<Aux>, key: u64, value: u64) {
    && (exists i :: 0 <= i < |pairs| && pairs[i] == Aux(key, value))
    && (forall i :: 0 <= i < |pairs| && pairs[i].key == key ==> pairs[i].value == value)
  }

  /** What the C library learns from the vector: the program, the ids of the process, and where the
      platform name, the random bytes and the path of the program lie. */
  ghost predicate Describes(pairs: seq<Aux>, p: Program, platform: u64, random: u64, execfn: u64) {
    && Has(pairs, AT_PHDR, p.phdr) && Has(pairs, AT_PHENT, p.phent) && Has(pairs, AT_PHNUM, p.phnum)
    && Has(pairs, AT_PAGESZ, 4096) && Has(pairs, AT_BASE, p.base) && Has(pairs, AT_ENTRY, p.entry)
    && Has(pairs, AT_UID, p.uid) && Has(pairs, AT_EUID, p.euid) && Has(pairs, AT_GID, p.gid) && Has(pairs, AT_EGID, p.egid)
    && Has(pairs, AT_CLKTCK, p.clockTicks) && Has(pairs, AT_SECURE, 0)
    && Has(pairs, AT_FLAGS, 0) && Has(pairs, AT_HWCAP, 0) && Has(pairs, AT_HWCAP2, 0)
    && Has(pairs, AT_PLATFORM, platform) && Has(pairs, AT_RANDOM, random) && Has(pairs, AT_EXECFN, execfn)
  }

  lemma VectorDescribes(p: Program, platform: u64, random: u64, execfn: u64)
    ensures Describes(AuxiliaryVector(p, platform, random, execfn), p, platform, random, execfn)
  {
    hide Has;
    var pairs := AuxiliaryVector(p, platform, random, execfn);
    KeysDiffer(p, platform, random, execfn);
    forall i | 0 <= i < |pairs| ensures Has(pairs, pairs[i].key, pairs[i].value) {
      HasItsOwn(pairs, i);
    }
    VectorAt(p, platform, random, execfn);
  }

  lemma HasItsOwn(pairs: seq<Aux>, i: nat)
    requires i < |pairs| && forall j :: 0 <= j < |pairs| && j != i ==> pairs[j].key != pairs[i].key
    ensures Has(pairs, pairs[i].key, pairs[i].value)
  {
    assert pairs[i] == Aux(pairs[i].key, pairs[i].value);
  }

  lemma KeysDiffer(p: Program, platform: u64, random: u64, execfn: u64)
    ensures var pairs := AuxiliaryVector(p, platform, random, execfn);
      forall i, j :: 0 <= i < j < |pairs| ==> pairs[i].key < pairs[j].key
  {
  }

  lemma VectorAt(p: Program, platform: u64, random: u64, execfn: u64)
    ensures var v := AuxiliaryVector(p, platform, random, execfn);
      && v[0] == Aux(AT_PHDR, p.phdr) && v[1] == Aux(AT_PHENT, p.phent) && v[2] == Aux(AT_PHNUM, p.phnum)
      && v[3] == Aux(AT_PAGESZ, 4096) && v[4] == Aux(AT_BASE, p.base) && v[5] == Aux(AT_FLAGS, 0) && v[6] == Aux(AT_ENTRY, p.entry)
      && v[7] == Aux(AT_UID, p.uid) && v[8] == Aux(AT_EUID, p.euid) && v[9] == Aux(AT_GID, p.gid) && v[10] == Aux(AT_EGID, p.egid)
      && v[11] == Aux(AT_PLATFORM, platform) && v[12] == Aux(AT_HWCAP, 0) && v[13] == Aux(AT_CLKTCK, p.clockTicks)
      && v[14] == Aux(AT_SECURE, 0) && v[15] == Aux(AT_RANDOM, random) && v[16] == Aux(AT_HWCAP2, 0) && v[17] == Aux(AT_EXECFN, execfn)
  {
  }

  /** The pairs as words, ended by AT_NULL. */
  function AuxWords(pairs: seq<Aux>): (ws: seq<u64>)
    ensures |ws| == 2 * |pairs| + 2
  {
    if |pairs| == 0 then [0, 0] else [pairs[0].key, pairs[0].value] + AuxWords(pairs[1..])
  }

  const PLATFORM: seq<u8> := [0x78, 0x38, 0x36, 0x5f, 0x36, 0x34]

  /** argc, the argument pointers, NULL, the environment pointers, NULL, the auxiliary vector. */
  function StackWords(argv: seq<u64>, envp: seq<u64>, aux: seq<u64>): (ws: seq<u64>)
    requires |argv| < TWO_64
    ensures |ws| == |argv| + |envp| + |aux| + 3
  {
    [|argv|] + argv + [0] + envp + [0] + aux
  }

  /** Where the strings ended up. */
  datatype Layout = Layout(argv: seq<u64>, envp: seq<u64>, platform: u64, random: u64, execfn: u64)

  datatype Area = Area(stack: Stack, layout: Layout)

  /** The strings and random bytes of `setup_stack`, before the alignment. */
  function PushStringArea(s: Stack, args: seq<seq<u8>>, env: seq<seq<u8>>, path: seq<u8>, random: seq<u8>): (r: Result<Area>)
    ensures r.Ok? ==> |r.value.layout.argv| == |args|
  {
    var a :- PushStrings(s, args);
    var e :- PushStrings(a.stack, env);
    var x :- PushString(e.stack, path);
    var p :- PushString(x, PLATFORM);
    var r :- PushBytes(p, random);
    Ok(Area(r, Layout(a.addresses, e.addresses, p.top, r.top, x.top)))
  }

  function LayoutAux(l: Layout, program: Program): (pairs: seq<Aux>)
    ensures |pairs| == 18
  {
    AuxiliaryVector(program, l.platform, l.random, l.execfn)
  }

  function LayoutWords(l: Layout, program: Program): seq<u64>
    requires |l.argv| < TWO_64
  {
    StackWords(l.argv, l.envp, AuxWords(LayoutAux(l, program)))
  }

  /** `setup_stack` */
  function SetupStack(s: Stack, args: seq<seq<u8>>, env: seq<seq<u8>>, path: seq<u8>, random: seq<u8>, program: Program): Result<Stack>
    requires |args| < TWO_64
  {
    var a :- PushStringArea(s, args, env, path, random);
    PushWords(a.stack.(top := AlignDown16(a.stack.top)), LayoutWords(a.layout, program))
  }

  // ----- what pushing does -----

  predicate Writable(m: Memory, lo: int, hi: int) {
    forall a :: lo <= a < hi ==> a in m && Write in m[a].prot && Read in m[a].prot
  }

  predicate Holds(m: Memory, a: int, bs: seq<u8>) {
    forall i :: a <= i < a + |bs| ==> i in m && Read in m[i].prot && m[i].value == bs[i - a]
  }

  /** s' came from s by pushing: it is lower, and nothing changed but the bytes in between. */
  predicate Later(s: Stack, s': Stack) {
    s'.top <= s.top && SameShape(s.mem, s'.mem)
    && SameCells(s.mem, s'.mem, s.top, TWO_64) && SameCells(s.mem, s'.mem, 0, s'.top)
  }

  lemma LaterTransitive(s: Stack, s': Stack, s'': Stack)
    requires Later(s, s') && Later(s', s'')
    ensures Later(s, s'')
  {
    forall a | a in s.mem ensures s''.mem[a] == WithByte(s.mem[a], ShadowByte(s''.mem[a].value, s''.mem[a].initialized)) {}
  }

  lemma HoldsLater(s: Stack, s': Stack, a: int, bs: seq<u8>)
    requires Later(s, s') && s.top <= a && a + |bs| <= TWO_64 && Holds(s.mem, a, bs)
    ensures Holds(s'.mem, a, bs)
  {
  }

  /** Storing bytes in writable memory below 2^64 makes them readable there and touches nothing else. */
  lemma StoredBytes(m: Memory, a: u64, bs: seq<u8>)
    requires a + |bs| <= TWO_64 && Writable(m, a, a + |bs|)
    ensures var r := Store(m, a, Clear(bs));
      r.error.None? && SameShape(m, r.mem) && Holds(r.mem, a, bs)
      && SameCells(m, r.mem, 0, a) && SameCells(m, r.mem, a + |bs|, TWO_64)
  {
    hide Store, Overwritten, SameShape, SameCells, Holds, Writable;
    var cells := Clear(bs);
    StoreSpreads(m, a, bs);
    var m' := Store(m, a, cells).mem;
    OverwrittenElsewhere(m, a, cells, m');
    OverwrittenShape(m, a, cells, m');
    OverwrittenHolds(m, a, bs, m');
  }

  lemma OverwrittenHolds(m: Memory, a: u64, bs: seq<u8>, m': Memory)
    requires a + |bs| <= TWO_64 && Writable(m, a, a + |bs|) && Overwritten(m, a, Clear(bs), m')
    ensures Holds(m', a, bs)
  {
    forall i | a <= i < a + |bs| ensures i in m' && Read in m'[i].prot && m'[i].value == bs[i - a] {
      assert Read in m[i].prot;
      assert At(a, i - a) == i;
    }
  }

  lemma StoreSpreads(m: Memory, a: u64, bs: seq<u8>)
    requires a + |bs| <= TWO_64 && Writable(m, a, a + |bs|)
    ensures var r := Store(m, a, Clear(bs)); r.error.None? && Overwritten(m, a, Clear(bs), r.mem)
  {
    hide Store, Overwritten;
    forall i | 0 <= i < |bs| ensures Allowed(m, At(a, i), Write) {
      assert At(a, i) == a + i;
      assert Write in m[a + i].prot;
    }
    StoreIsPointwise(m, a, Clear(bs));
  }

  lemma PushBytesHolds(s: Stack, bs: seq<u8>, lo: int)
    requires lo >= 0 && lo + |bs| <= s.top && Writable(s.mem, lo, s.top)
    ensures var r := PushBytes(s, bs);
      r.Ok? && Later(s, r.value) && r.value.top == s.top - |bs| && Holds(r.value.mem, r.value.top, bs)
      && Writable(r.value.mem, lo, r.value.top)
  {
    hide Store, Clear, SameShape, SameCells, Holds, Writable;
    var top: int := s.top - |bs|;
    assert Wrap(s.top - |bs|) == top;
    NarrowWritable(s.mem, lo, s.top, top, s.top);
    StoredBytes(s.mem, top, bs);
    var m := Store(s.mem, top, Clear(bs)).mem;
    WritableShape(s.mem, m, lo, s.top);
    NarrowWritable(m, lo, s.top, lo, top);
  }

  lemma NarrowWritable(m: Memory, lo: int, hi: int, lo': int, hi': int)
    requires Writable(m, lo, hi) && lo <= lo' && hi' <= hi
    ensures Writable(m, lo', hi')
  {
  }

  lemma WritableShape(m: Memory, m': Memory, lo: int, hi: int)
    requires SameShape(m, m') && Writable(m, lo, hi)
    ensures Writable(m', lo, hi)
  {
  }

  function TextSize(texts: seq<seq<u8>>): nat
    decreases |texts|
  {
    if |texts| == 0 then 0 else |texts[|texts| - 1]| + 1 + TextSize(texts[..|texts| - 1])
  }

  /** Every address points at its string, at or above the new top. */
  predicate PointAt(s: Stack, addresses: seq<u64>, texts: seq<seq<u8>>) {
    |addresses| == |texts| && forall i :: 0 <= i < |texts| ==>
      s.top <= addresses[i] && addresses[i] + |texts[i]| + 1 <= TWO_64 && Holds(s.mem, addresses[i], texts[i] + [0])
  }

  lemma PointAtLater(s: Stack, s': Stack, addresses: seq<u64>, texts: seq<seq<u8>>)
    requires Later(s, s') && PointAt(s, addresses, texts)
    ensures PointAt(s', addresses, texts)
  {
    forall i | 0 <= i < |texts| ensures Holds(s'.mem, addresses[i], texts[i] + [0]) {
      HoldsLater(s, s', addresses[i], texts[i] + [0]);
    }
  }

  lemma {:induction false} PushStringsPoint(s: Stack, texts: seq<seq<u8>>, lo: int)
    requires lo >= 0 && lo + TextSize(texts) <= s.top && Writable(s.mem, lo, s.top)
    ensures var r := PushStrings(s, texts);
      r.Ok? && Later(s, r.value.stack) && r.value.stack.top == s.top - TextSize(texts)
      && PointAt(r.value.stack, r.value.addresses, texts) && Writable(r.value.stack.mem, lo, r.value.stack.top)
    decreases |texts|
  {
    hide Holds, Writable, SameShape, SameCells, PushBytes;
    if |texts| == 0 {
      LaterSelf(s);
    } else {
      var init, last := texts[..|texts| - 1], texts[|texts| - 1];
      PushBytesHolds(s, last + [0], lo);
      var s1 := PushString(s, last).value;
      PushStringsPoint(s1, init, lo);
      var s2 := PushStrings(s1, init).value.stack;
      LaterTransitive(s, s1, s2);
      HoldsLater(s1, s2, s1.top, last + [0]);
    }
  }

  lemma LaterSelf(s: Stack)
    ensures Later(s, s)
  {
  }

  // ----- the word vector -----

  /** Words pushed from last to first lie in order from the new top, readable. */
  lemma {:induction false} PushWordsHolds(s: Stack, ws: seq<u64>, lo: int)
    requires lo >= 0 && lo + 8 * |ws| <= s.top && Writable(s.mem, lo, s.top)
    ensures var r := PushWords(s, ws);
      r.Ok? && Later(s, r.value) && r.value.top == s.top - 8 * |ws| && WordsAt(r.value.mem, r.value.top, ws)
    decreases |ws|
  {
    hide Holds, Writable, SameShape, SameCells, PushBytes, WordAt;
    if |ws| == 0 {
      LaterSelf(s);
    } else {
      var init, last := ws[..|ws| - 1], ws[|ws| - 1];
      PushBytesHolds(s, ToBytes(last, 8), lo);
      var s1 := PushWord(s, last).value;
      PushWordsHolds(s1, init, lo);
      var s2 := PushWords(s1, init).value;
      LaterTransitive(s, s1, s2);
      WordIsHeld(s1.mem, s1.top, last);
      WordLater(s1, s2, s1.top, last);
    }
  }

  /** `read64` at a gives w. */
  predicate WordAt(m: Memory, a: int, w: u64) {
    0 <= a && a + 8 <= TWO_64 && LoadWord(m, a) == Ok(w)
  }

  predicate WordsAt(m: Memory, a: int, ws: seq<u64>) {
    forall i :: 0 <= i < |ws| ==> WordAt(m, a + 8 * i, ws[i])
  }

  lemma WordIsHeld(m: Memory, a: u64, w: u64)
    requires a + 8 <= TWO_64 && Holds(m, a, ToBytes(w, 8))
    ensures WordAt(m, a, w)
  {
    forall i | 0 <= i < 8 ensures At(a, i) == a + i && Allowed(m, At(a, i), Read) {}
    LoadIsPointwise(m, a, 8);
    assert Values(Load(m, a, 8).value) == ToBytes(w, 8);
    WordOfBytes(w);
  }

  lemma WordLater(s: Stack, s': Stack, a: u64, w: u64)
    requires Later(s, s') && s.top <= a && WordAt(s.mem, a, w)
    ensures WordAt(s'.mem, a, w)
  {
    hide LoadWord;
    LoadWordElsewhere(s.mem, s'.mem, a);
  }

  /** A list of words is pushed in two parts, the second one first. */
  lemma {:induction false} PushWordsInParts(s: Stack, xs: seq<u64>, ys: seq<u64>)
    ensures PushWords(s, xs + ys)
      == if PushWords(s, ys).Ok? then PushWords(PushWords(s, ys).value, xs) else PushWords(s, ys)
    decreases |ys|
  {
    hide PushWord;
    if |ys| == 0 {
      assert xs + ys == xs;
    } else {
      var all, last := xs + ys, ys[|ys| - 1];
      assert all[..|all| - 1] == xs + ys[..|ys| - 1] && all[|all| - 1] == last;
      if PushWord(s, last).Ok? {
        PushWordsInParts(PushWord(s, last).value, xs, ys[..|ys| - 1]);
      }
    }
  }

  // ----- walking the stack, as the C library does at start-up -----

  /** `read_c_string` */
  function ReadString(m: Memory, a: u64, limit: nat): Result<seq<u8>>
    decreases limit
  {
    if limit == 0 then Err(UnterminatedString) else
    var b :- LoadByte(m, a);
    if b.value == 0 then Ok([]) else
    var rest :- ReadString(m, At(a, 1), limit - 1);
    Ok([b.value] + rest)
  }

  function ReadStrings(m: Memory, pointers: seq<u64>, limit: nat): Result<seq<seq<u8>>>
    decreases |pointers|
  {
    if |pointers| == 0 then Ok([]) else
    var text :- ReadString(m, pointers[0], limit);
    var rest :- ReadStrings(m, pointers[1..], limit);
    Ok([text] + rest)
  }

  /** The words up to, and without, the first zero. */
  function WordsUntilNull(m: Memory, a: u64): Result<seq<u64>>
    decreases TWO_64 - a
  {
    if a + 8 >= TWO_64 then Err(BadStackLayout) else
    var w :- LoadWord(m, a);
    if w == 0 then Ok([]) else
    var rest :- WordsUntilNull(m, a + 8);
    Ok([w] + rest)
  }

  /** The key and value pairs up to, and without, the first zero key. */
  function PairsUntilNull(m: Memory, a: u64): Result<seq<Aux>>
    decreases TWO_64 - a
  {
    if a + 16 >= TWO_64 then Err(BadStackLayout) else
    var key :- LoadWord(m, a);
    if key == 0 then Ok([]) else
    var value :- LoadWord(m, a + 8);
    var rest :- PairsUntilNull(m, a + 16);
    Ok([Aux(key, value)] + rest)
  }

  datatype Walked = Walked(argc: int, args: seq<seq<u8>>, env: seq<seq<u8>>, aux: seq<Aux>)

  /** What a program finds by walking up from its initial stack pointer. */
  function Walk(m: Memory, top: u64, limit: nat): Result<Walked> {
    var argc :- LoadWord(m, top);
    var argv :- LoadWords(m, At(top, 8), argc);
    var end :- LoadWord(m, At(top, 8 * argc + 8));
    if end != 0 then Err(BadStackLayout) else
    var envp :- WordsUntilNull(m, At(top, 8 * argc + 16));
    var aux :- PairsUntilNull(m, At(top, 8 * argc + 8 * |envp| + 24));
    var args :- ReadStrings(m, argv, limit);
    var env :- ReadStrings(m, envp, limit);
    Ok(Walked(argc, args, env, aux))
  }

  /** A C string ends at its first zero byte. */
  function UpToNul(text: seq<u8>): (r: seq<u8>)
    ensures r <= text
    ensures (forall i :: 0 <= i < |text| ==> text[i] != 0) ==> r == text
  {
    if |text| == 0 || text[0] == 0 then [] else [text[0]] + UpToNul(text[1..])
  }

  function AllUpToNul(texts: seq<seq<u8>>): (r: seq<seq<u8>>)
    ensures |r| == |texts|
  {
    seq(|texts|, i requires 0 <= i < |texts| => UpToNul(texts[i]))
  }

  lemma {:induction false} HeldString(m: Memory, a: u64, text: seq<u8>, limit: nat)
    requires |text| < limit && a + |text| + 1 <= TWO_64 && Holds(m, a, text + [0])
    ensures ReadString(m, a, limit) == Ok(UpToNul(text))
    decreases |text|
  {
    hide Holds, LoadByte, At;
    HeldByte(m, a, text + [0]);
    if |text| == 0 {
      assert (text + [0])[0] == 0;
    } else {
      WithNul(text);
      if text[0] != 0 {
        NextAddress(a);
        HeldString(m, a + 1, text[1..], limit - 1);
      }
    }
  }

  lemma WithNul(text: seq<u8>)
    requires |text| > 0
    ensures (text + [0])[0] == text[0] && (text + [0])[1..] == text[1..] + [0]
  {
  }

  lemma NextAddress(a: u64)
    requires a + 1 < TWO_64
    ensures At(a, 1) == a + 1
  {
  }

  lemma HeldByte(m: Memory, a: u64, bs: seq<u8>)
    requires |bs| > 0 && a + |bs| <= TWO_64 && Holds(m, a, bs)
    ensures LoadByte(m, a).Ok? && LoadByte(m, a).value.value == bs[0] && Holds(m, a + 1, bs[1..])
  {
    assert a in m && Read in m[a].prot && m[a].value == bs[0];
    forall i | a + 1 <= i < a + |bs| ensures i in m && Read in m[i].prot && m[i].value == bs[1..][i - a - 1] {}
  }

  lemma {:induction false} PointedStrings(s: Stack, addresses: seq<u64>, texts: seq<seq<u8>>, limit: nat)
    requires PointAt(s, addresses, texts) && forall i :: 0 <= i < |texts| ==> |texts[i]| < limit
    ensures ReadStrings(s.mem, addresses, limit) == Ok(AllUpToNul(texts))
    decreases |texts|
  {
    hide Holds, ReadString, UpToNul;
    if |texts| > 0 {
      HeldString(s.mem, addresses[0], texts[0], limit);
      PointedStrings(s, addresses[1..], texts[1..], limit);
      assert AllUpToNul(texts) == [UpToNul(texts[0])] + AllUpToNul(texts[1..]);
    }
  }

  lemma WordsAtSplit(m: Memory, a: int, xs: seq<u64>, ys: seq<u64>)
    requires WordsAt(m, a, xs + ys)
    ensures WordsAt(m, a, xs) && WordsAt(m, a + 8 * |xs|, ys)
  {
    hide WordAt;
    var all := xs + ys;
    forall i | 0 <= i < |xs| ensures WordAt(m, a + 8 * i, xs[i]) {
      assert all[i] == xs[i];
    }
    forall i | 0 <= i < |ys| ensures WordAt(m, a + 8 * |xs| + 8 * i, ys[i]) {
      assert all[|xs| + i] == ys[i];
      assert a + 8 * (|xs| + i) == a + 8 * |xs| + 8 * i;
    }
  }

  lemma {:induction false} WordsAtLoad(m: Memory, a: u64, ws: seq<u64>)
    requires WordsAt(m, a, ws) && a + 8 * |ws| < TWO_64
    ensures LoadWords(m, a, |ws|) == Ok(ws)
    decreases |ws|
  {
    hide LoadWord;
    if |ws| > 0 {
      assert WordAt(m, a + 8 * 0, ws[0]);
      assert At(a, 8) == a + 8;
      assert ws == [ws[0]] + ws[1..];
      WordsAtSplit(m, a, [ws[0]], ws[1..]);
      WordsAtLoad(m, a + 8, ws[1..]);
    }
  }

  lemma {:induction false} WordsAtUntilNull(m: Memory, a: u64, ws: seq<u64>)
    requires WordsAt(m, a, ws + [0]) && a + 8 * |ws| + 8 < TWO_64
    requires forall i :: 0 <= i < |ws| ==> ws[i] != 0
    ensures WordsUntilNull(m, a) == Ok(ws)
    decreases |ws|
  {
    hide LoadWord;
    assert WordAt(m, a + 8 * 0, (ws + [0])[0]);
    if |ws| > 0 {
      assert ws + [0] == [ws[0]] + (ws[1..] + [0]);
      WordsAtSplit(m, a, [ws[0]], ws[1..] + [0]);
      WordsAtUntilNull(m, a + 8, ws[1..]);
      assert ws == [ws[0]] + ws[1..];
    }
  }

  lemma {:induction false} WordsAtPairs(m: Memory, a: u64, pairs: seq<Aux>)
    requires WordsAt(m, a, AuxWords(pairs)) && a + 16 * |pairs| + 16 < TWO_64
    requires forall i :: 0 <= i < |pairs| ==> pairs[i].key != 0
    ensures PairsUntilNull(m, a) == Ok(pairs)
    decreases |pairs|
  {
    hide LoadWord;
    assert WordAt(m, a + 8 * 0, AuxWords(pairs)[0]) && WordAt(m, a + 8 * 1, AuxWords(pairs)[1]);
    if |pairs| > 0 {
      WordsAtSplit(m, a, [pairs[0].key, pairs[0].value], AuxWords(pairs[1..]));
      WordsAtPairs(m, a + 16, pairs[1..]);
      assert pairs == [pairs[0]] + pairs[1..];
    }
  }

  /** The parts of the word vector, found again. */
  lemma WalkWords(m: Memory, top: u64, argv: seq<u64>, envp: seq<u64>, pairs: seq<Aux>)
    requires |argv| < TWO_64 && top + 8 * |StackWords(argv, envp, AuxWords(pairs))| < TWO_64
    requires WordsAt(m, top, StackWords(argv, envp, AuxWords(pairs)))
    requires forall i :: 0 <= i < |envp| ==> envp[i] != 0
    requires forall i :: 0 <= i < |pairs| ==> pairs[i].key != 0
    ensures LoadWord(m, top) == Ok(|argv|) && LoadWords(m, At(top, 8), |argv|) == Ok(argv)
    ensures LoadWord(m, At(top, 8 * |argv| + 8)) == Ok(0)
    ensures WordsUntilNull(m, At(top, 8 * |argv| + 16)) == Ok(envp)
    ensures PairsUntilNull(m, At(top, 8 * |argv| + 8 * |envp| + 24)) == Ok(pairs)
  {
    hide *;
    var n, k := 8 * |argv|, 8 * |envp|;
    VectorParts(m, top, argv, envp, AuxWords(pairs));
    PlainAt(top, 8);
    PlainAt(top, n + 8);
    PlainAt(top, n + 16);
    PlainAt(top, n + k + 24);
    OneWordAt(m, top, |argv|);
    WordsAtLoad(m, top + 8, argv);
    OneWordAt(m, top + n + 8, 0);
    WordsAtUntilNull(m, top + n + 16, envp);
    WordsAtPairs(m, top + n + k + 24, pairs);
  }

  lemma PlainAt(a: u64, i: int)
    requires 0 <= a + i < TWO_64
    ensures At(a, i) == a + i
  {
  }

  /** The parts of the word vector, each at its place. */
  lemma VectorParts(m: Memory, top: u64, argv: seq<u64>, envp: seq<u64>, aux: seq<u64>)
    requires |argv| < TWO_64 && WordsAt(m, top, StackWords(argv, envp, aux))
    ensures var n, k := 8 * |argv|, 8 * |envp|;
      WordsAt(m, top, [|argv|]) && WordsAt(m, top + 8, argv) && WordsAt(m, top + n + 8, [0])
      && WordsAt(m, top + n + 16, envp + [0]) && WordsAt(m, top + n + k + 24, aux)
  {
    hide WordsAt, StackWords;
    StackWordsParts(argv, envp, aux);
    WordsAtSplit(m, top, [|argv|], argv + ([0] + ((envp + [0]) + aux)));
    WordsAtSplit(m, top + 8, argv, [0] + ((envp + [0]) + aux));
    WordsAtSplit(m, top + 8 * |argv| + 8, [0], (envp + [0]) + aux);
    WordsAtSplit(m, top + 8 * |argv| + 16, envp + [0], aux);
  }

  lemma StackWordsParts(argv: seq<u64>, envp: seq<u64>, aux: seq<u64>)
    requires |argv| < TWO_64
    ensures StackWords(argv, envp, aux) == [|argv|] + (argv + ([0] + ((envp + [0]) + aux)))
  {
  }

  lemma OneWordAt(m: Memory, a: u64, w: u64)
    requires WordsAt(m, a, [w])
    ensures LoadWord(m, a) == Ok(w)
  {
    hide LoadWord;
    assert WordAt(m, a + 8 * 0, [w][0]);
  }

  // ----- the whole initial stack -----

  function StringAreaSize(args: seq<seq<u8>>, env: seq<seq<u8>>, path: seq<u8>, random: seq<u8>): nat {
    TextSize(args) + TextSize(env) + |path| + 1 + |PLATFORM| + 1 + |random|
  }

  /** What the string area leaves behind, as long as the stack only grows from there. */
  predicate AreaLaid(s: Stack, l: Layout, args: seq<seq<u8>>, env: seq<seq<u8>>, path: seq<u8>, random: seq<u8>) {
    && PointAt(s, l.argv, args) && PointAt(s, l.envp, env) && PointAt(s, [l.execfn], [path])
    && PointAt(s, [l.platform], [PLATFORM]) && s.top <= l.random && l.random + |random| <= TWO_64
    && Holds(s.mem, l.random, random)
  }

  lemma AreaLater(s: Stack, s': Stack, l: Layout, args: seq<seq<u8>>, env: seq<seq<u8>>, path: seq<u8>, random: seq<u8>)
    requires Later(s, s') && AreaLaid(s, l, args, env, path, random)
    ensures AreaLaid(s', l, args, env, path, random)
  {
    hide PointAt, Later, Holds;
    PointAtLater(s, s', l.argv, args);
    PointAtLater(s, s', l.envp, env);
    PointAtLater(s, s', [l.execfn], [path]);
    PointAtLater(s, s', [l.platform], [PLATFORM]);
    HoldsLater(s, s', l.random, random);
    LaterTop(s, s');
  }

  lemma LaterTop(s: Stack, s': Stack)
    requires Later(s, s')
    ensures s'.top <= s.top
  {
  }

  lemma OnePoints(s: Stack, a: u64, text: seq<u8>)
    requires s.top <= a && a + |text| + 1 <= TWO_64 && Holds(s.mem, a, text + [0])
    ensures PointAt(s, [a], [text])
  {
    hide Holds;
  }

  lemma StringAreaLaid(s: Stack, args: seq<seq<u8>>, env: seq<seq<u8>>, path: seq<u8>, random: seq<u8>, lo: int)
    requires lo >= 0 && lo + StringAreaSize(args, env, path, random) <= s.top && Writable(s.mem, lo, s.top)
    ensures var r := PushStringArea(s, args, env, path, random);
      r.Ok? && Later(s, r.value.stack) && r.value.stack.top == s.top - StringAreaSize(args, env, path, random)
      && AreaLaid(r.value.stack, r.value.layout, args, env, path, random) && Writable(r.value.stack.mem, lo, r.value.stack.top)
      && |r.value.layout.envp| == |env|
  {
    hide PushStrings, PushBytes, PointAt, Later, Holds, Writable, TextSize;
    PushStringsPoint(s, args, lo);
    var a := PushStrings(s, args).value;
    PushStringsPoint(a.stack, env, lo);
    var e := PushStrings(a.stack, env).value;
    PushBytesHolds(e.stack, path + [0], lo);
    var x := PushString(e.stack, path).value;
    PushBytesHolds(x, PLATFORM + [0], lo);
    var p := PushString(x, PLATFORM).value;
    PushBytesHolds(p, random, lo);
    var r := PushBytes(p, random).value;
    LaterTransitive(x, p, r);
    LaterTransitive(e.stack, x, r);
    LaterTransitive(a.stack, e.stack, r);
    LaterTransitive(s, a.stack, r);
    PointAtLater(a.stack, r, a.addresses, args);
    PointAtLater(e.stack, r, e.addresses, env);
    OnePoints(x, x.top, path);
    PointAtLater(x, r, [x.top], [path]);
    OnePoints(p, p.top, PLATFORM);
    PointAtLater(p, r, [p.top], [PLATFORM]);
  }

  /** The room `setup_stack` needs: the strings, up to 15 bytes to align, and the words. */
  function StackSize(args: seq<seq<u8>>, env: seq<seq<u8>>, path: seq<u8>, random: seq<u8>): nat {
    StringAreaSize(args, env, path, random) + 15 + 8 * (|args| + |env| + 41)
  }

  predicate AllShort(texts: seq<seq<u8>>, limit: nat) {
    forall i :: 0 <= i < |texts| ==> |texts[i]| < limit
  }

  ghost predicate FoundVectors(r: Result<Walked>, l: Layout, args: seq<seq<u8>>, env: seq<seq<u8>>, program: Program) {
    && r.Ok? && r.value.argc == |args| && r.value.args == AllUpToNul(args) && r.value.env == AllUpToNul(env)
    && Describes(r.value.aux, program, l.platform, l.random, l.execfn)
  }

  /** What a program finds on its stack, l naming the addresses of the strings. */
  ghost predicate Found(
      s: Stack, l: Layout, args: seq<seq<u8>>, env: seq<seq<u8>>, path: seq<u8>, random: seq<u8>, program: Program, limit: nat)
  {
    && FoundVectors(Walk(s.mem, s.top, limit), l, args, env, program)
    && ReadString(s.mem, l.execfn, limit) == Ok(UpToNul(path))
    && Holds(s.mem, l.platform, [0x78, 0x38, 0x36, 0x5f, 0x36, 0x34, 0])
    && Holds(s.mem, l.random, random)
  }

  /** If everything fits in writable memory, walking up from the final stack pointer finds the
      argument count, exactly the argument strings and environment strings in order (each up to
      its first zero byte) and the whole auxiliary vector, whose pointers lead to the path, the
      platform name and the random bytes. Nothing changed outside the stack area used. */
  lemma InitialStackRoundTrip(
      s: Stack, args: seq<seq<u8>>, env: seq<seq<u8>>, path: seq<u8>, random: seq<u8>, program: Program, lo: int, limit: nat)
    requires lo >= 1 && lo + StackSize(args, env, path, random) <= s.top && Writable(s.mem, lo, s.top)
    requires AllShort(args, limit) && AllShort(env, limit) && |path| < limit
    ensures var r := SetupStack(s, args, env, path, random, program);
      r.Ok? && Later(s, r.value) && lo <= r.value.top
      && exists l :: Found(r.value, l, args, env, path, random, program, limit)
  {
    hide PushStringArea, PushWords, PointAt, Later, Holds, Writable, WordsAt, AuxWords, StringAreaSize, LoadWord, LoadWords,
      WordsUntilNull, PairsUntilNull, ReadStrings, ReadString, AllUpToNul, AllShort, UpToNul, AuxiliaryVector;
    StringAreaLaid(s, args, env, path, random, lo);
    var a := PushStringArea(s, args, env, path, random).value;
    var l := a.layout;
    var s1 := a.stack.(top := AlignDown16(a.stack.top));
    var ws := LayoutWords(l, program);
    AlignedLater(a.stack);
    LaterTransitive(s, a.stack, s1);
    NarrowWritable(s1.mem, lo, a.stack.top, lo, s1.top);
    PushWordsHolds(s1, ws, lo);
    var r := PushWords(s1, ws).value;
    LaterTransitive(s, s1, r);
    AreaLater(a.stack, s1, l, args, env, path, random);
    AreaLater(s1, r, l, args, env, path, random);
    WalkFinds(r, l, args, env, path, random, program, limit);
  }

  lemma AlignedLater(s: Stack)
    ensures Later(s, s.(top := AlignDown16(s.top)))
  {
  }

  lemma PointersNonzero(s: Stack, addresses: seq<u64>, texts: seq<seq<u8>>)
    requires PointAt(s, addresses, texts) && s.top > 0
    ensures forall i :: 0 <= i < |addresses| ==> addresses[i] != 0
  {
  }

  lemma PlatformName()
    ensures PLATFORM + [0] == [0x78, 0x38, 0x36, 0x5f, 0x36, 0x34, 0]
  {
  }

  /** The stack pointer a program starts with is aligned to 16 bytes, as section 3.4.1 of the System V AMD64
      ABI asks, exactly if the number of arguments and environment strings together is odd: the words are
      pushed after the alignment. */
  lemma StackIsAligned(
      s: Stack, args: seq<seq<u8>>, env: seq<seq<u8>>, path: seq<u8>, random: seq<u8>, program: Program, lo: int)
    requires lo >= 1 && lo + StackSize(args, env, path, random) <= s.top && Writable(s.mem, lo, s.top)
    ensures var r := SetupStack(s, args, env, path, random, program);
      r.Ok? && (r.value.top % 16 == 0 <==> (|args| + |env|) % 2 == 1)
  {
    hide PushStringArea, PushWords, PointAt, Later, Holds, Writable, WordsAt, AuxWords, StringAreaSize, AuxiliaryVector;
    StringAreaLaid(s, args, env, path, random, lo);
    var a := PushStringArea(s, args, env, path, random).value;
    var s1 := a.stack.(top := AlignDown16(a.stack.top));
    NarrowWritable(s1.mem, lo, a.stack.top, lo, s1.top);
    PushWordsHolds(s1, LayoutWords(a.layout, program), lo);
    OddWords(s1.top, |args| + |env|);
  }

  lemma OddWords(top: int, n: nat)
    requires top % 16 == 0
    ensures (top - 8 * (n + 41)) % 16 == 0 <==> n % 2 == 1
  {
  }

  lemma WalkFinds(
      r: Stack, l: Layout, args: seq<seq<u8>>, env: seq<seq<u8>>, path: seq<u8>, random: seq<u8>, program: Program, limit: nat)
    requires r.top > 0 && |l.argv| == |args| < TWO_64 && |l.envp| == |env| && r.top + 8 * |LayoutWords(l, program)| < TWO_64
    requires AreaLaid(r, l, args, env, path, random) && WordsAt(r.mem, r.top, LayoutWords(l, program))
    requires AllShort(args, limit) && AllShort(env, limit) && |path| < limit
    ensures Found(r, l, args, env, path, random, program, limit)
  {
    hide PointAt, Holds, WordsAt, AuxWords, LoadWord, LoadWords, AuxiliaryVector,
      WordsUntilNull, PairsUntilNull, ReadStrings, ReadString, AllUpToNul, UpToNul, Describes;
    PointersNonzero(r, l.envp, env);
    WalkWords(r.mem, r.top, l.argv, l.envp, LayoutAux(l, program));
    VectorDescribes(program, l.platform, l.random, l.execfn);
    PlatformName();
    PointedStrings(r, l.argv, args, limit);
    PointedStrings(r, l.envp, env, limit);
    PointedOne(r, l.execfn, path);
    PointedOne(r, l.platform, PLATFORM);
    HeldString(r.mem, l.execfn, path, limit);
  }

  lemma PointedOne(s: Stack, a: u64, text: seq<u8>)
    requires PointAt(s, [a], [text])
    ensures Holds(s.mem, a, text + [0]) && a + |text| + 1 <= TWO_64
  {
    hide Holds;
    assert [a][0] == a && [text][0] == text;
  }
}
