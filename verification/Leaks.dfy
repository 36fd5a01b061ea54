/** Which live heap blocks can still be reached: the leak report's search, against the least set
    closed under "pointed into". */
module Leaks {
  import opened Words
  import opened FlatMemory
  import opened GuestWords
  import opened HeapHistory
  import opened Registers

  /** The 64-bit word at an address, whatever its protection. */
  function RawWord(m: Memory, a: int): nat {
    FromBytes(RawBytes(m, a))
  }

  function RawBytes(m: Memory, a: int): (bs: seq<u8>)
    ensures |bs| == 8 && forall i :: 0 <= i < 8 ==> bs[i] == RawByte(m, a + i)
  {
    seq<u8>(8, i => RawByte(m, a + i))
  }

  function RawByte(m: Memory, a: int): u8 {
    if a in m then m[a].value else 0
  }

  /** Every block the value points into is in s. */
  ghost predicate Found(live: Blocks, v: int, s: set<u64>) {
    forall k: u64 :: Inside(live, k, v) ==> k in s
  }

  /** A word of writable memory outside every live block. */
  ghost predicate RootWord(live: Blocks, m: Memory, a: int) {
    a % 8 == 0 && a in m && Write in m[a].prot && forall k: u64 :: !Inside(live, k, a)
  }

  predicate WordOffset(size: int, o: int) {
    0 <= o && o % 8 == 0 && o + 8 <= size
  }

  /** The whole words of a block. */
  ghost predicate WordsFound(live: Blocks, m: Memory, b: u64, upto: int, s: set<u64>) {
    forall o :: WordOffset(upto, o) ==> Found(live, RawWord(m, b + o), s)
  }

  ghost predicate RootsFound(live: Blocks, m: Memory, gpr: File, s: set<u64>) {
    && (forall i :: 0 <= i < 16 ==> Found(live, gpr[i], s))
    && (forall a :: RootWord(live, m, a) ==> Found(live, RawWord(m, a), s))
  }

  /** s holds every live block a register, a root word or a word of a block in s points into. */
  ghost predicate Closed(live: Blocks, m: Memory, gpr: File, s: set<u64>) {
    && RootsFound(live, m, gpr, s)
    && (forall b :: b in s && b in live ==> WordsFound(live, m, b, live[b].size, s))
  }

  /** Every closed set contains s. */
  ghost predicate Minimal(live: Blocks, m: Memory, gpr: File, s: set<u64>) {
    forall c :: Closed(live, m, gpr, c) ==> s <= c
  }

  ghost predicate Least(live: Blocks, m: Memory, gpr: File, s: set<u64>) {
    s <= live.Keys && Closed(live, m, gpr, s) && Minimal(live, m, gpr, s)
  }

  /** There is one least closed set, so the order of the search does not matter. */
  lemma LeastIsUnique(live: Blocks, m: Memory, gpr: File, s: set<u64>, s': set<u64>)
    requires Least(live, m, gpr, s) && Least(live, m, gpr, s')
    ensures s == s'
  {
    hide Closed;
  }

  ghost predicate HeapReadable(live: Blocks, m: Memory) {
    forall b, o :: b in live && WordOffset(live[b].size, o) ==> LoadWord(m, At(b, o)).Ok?
  }

  // ----- the search -----

  datatype Search = Search(reachable: set<u64>, worklist: seq<u64>)

  /** The base of the block a value points into; 0 is none. */
  function Base(live: Blocks, v: u64): u64 {
    var k := Containing(live, v);
    if k.Some? then k.value else 0
  }

  function Consider(live: Blocks, s: Search, v: u64): Search {
    var base := Base(live, v);
    if base != 0 && base !in s.reachable then Search(s.reachable + {base}, s.worklist + [base]) else s
  }

  /** Blocks with somewhere to be found, none missing and none zero. */
  ghost predicate Heap(live: Blocks) {
    Placed(live) && 0 !in live
  }

  /** s' came from s by considering more values: it found more blocks, all of them queued. */
  ghost predicate Further(live: Blocks, s: Search, s': Search) {
    && s.reachable <= s'.reachable && s.worklist <= s'.worklist
    && (s'.reachable == s.reachable ==> s'.worklist == s.worklist)
    && (forall b :: b in s'.reachable && b !in s.reachable ==> b in s'.worklist && b in live)
    && (forall b :: b in s'.worklist && b !in s.worklist ==> b in s'.reachable)
  }

  lemma FurtherTransitive(live: Blocks, s: Search, s': Search, s'': Search)
    requires Further(live, s, s') && Further(live, s', s'')
    ensures Further(live, s, s'')
  {
  }

  lemma BaseIsExact(live: Blocks, v: u64)
    requires Heap(live)
    ensures forall k: u64 :: Inside(live, k, v) <==> k == Base(live, v) && k != 0
  {
    hide Placed;
    ContainingIsExact(live, v);
  }

  /** Considering a value finds exactly the block it points into. */
  lemma ConsiderFinds(live: Blocks, s: Search, v: u64)
    requires Heap(live)
    ensures Further(live, s, Consider(live, s, v)) && Found(live, v, Consider(live, s, v).reachable)
    ensures forall b :: b in Consider(live, s, v).reachable ==> b in s.reachable || Inside(live, b, v)
  {
    hide Heap, Base;
    BaseIsExact(live, v);
    assert Base(live, v) != 0 ==> Inside(live, Base(live, v), v);
  }

  lemma FoundGrows(live: Blocks, v: int, s: set<u64>, s': set<u64>)
    requires Found(live, v, s) && s <= s'
    ensures Found(live, v, s')
  {
  }

  lemma WordsFoundGrow(live: Blocks, m: Memory, b: u64, upto: int, s: set<u64>, s': set<u64>)
    requires WordsFound(live, m, b, upto, s) && s <= s'
    ensures WordsFound(live, m, b, upto, s')
  {
    hide RawWord;
  }

  /** A value every closed set accounts for keeps the search minimal. */
  lemma ConsiderMinimal(live: Blocks, m: Memory, gpr: File, s: Search, v: u64)
    requires Heap(live) && Minimal(live, m, gpr, s.reachable)
    requires forall c :: Closed(live, m, gpr, c) ==> Found(live, v, c)
    ensures Minimal(live, m, gpr, Consider(live, s, v).reachable)
  {
    hide Closed, Consider, Heap;
    ConsiderFinds(live, s, v);
  }

  /** The values closed sets account for: registers, root words, words of blocks found. */
  lemma RegisterJustified(live: Blocks, m: Memory, gpr: File, i: nat)
    requires i < 16
    ensures forall c :: Closed(live, m, gpr, c) ==> Found(live, gpr[i], c)
  {
    hide Found, WordsFound, RootWord;
  }

  lemma RootJustified(live: Blocks, m: Memory, gpr: File, a: int)
    requires RootWord(live, m, a)
    ensures forall c :: Closed(live, m, gpr, c) ==> Found(live, RawWord(m, a), c)
  {
    hide Found, WordsFound, RootWord, RawWord;
  }

  lemma WordJustified(live: Blocks, m: Memory, gpr: File, s: set<u64>, b: u64, o: int)
    requires b in s && b in live && WordOffset(live[b].size, o) && Minimal(live, m, gpr, s)
    ensures forall c :: Closed(live, m, gpr, c) ==> Found(live, RawWord(m, b + o), c)
  {
    hide Found, RootsFound, RawWord;
  }

  /** A word that can be read is the raw word. */
  lemma LoadedIsRaw(m: Memory, a: u64)
    requires a + 8 <= TWO_64 && LoadWord(m, a).Ok?
    ensures LoadWord(m, a).value == RawWord(m, a)
  {
    hide Load, FromBytes;
    forall i | 0 <= i < 8 ensures At(a, i) == a + i {}
    LoadIsPointwise(m, a, 8);
    assert Values(Load(m, a, 8).value) == RawBytes(m, a);
  }

  lemma NothingLive(m: Memory, gpr: File)
    ensures Least(map[], m, gpr, {})
  {
    hide RawWord;
  }

  // ----- the worklist -----

  /** Every block found is queued, or all its words have been followed. */
  ghost predicate Followed(live: Blocks, m: Memory, s: Search) {
    && s.reachable <= live.Keys
    && (forall b :: b in s.worklist ==> b in s.reachable)
    && (forall b :: b in s.reachable ==> b in s.worklist || WordsFound(live, m, b, live[b].size, s.reachable))
  }

  /** Taking a block off the worklist and following all its words. */
  lemma PoppedFollowed(live: Blocks, m: Memory, s: Search, b: u64, rest: seq<u64>, s': Search)
    requires Followed(live, m, s) && s.worklist == rest + [b] && Further(live, Search(s.reachable, rest), s')
    requires b in live && WordsFound(live, m, b, live[b].size, s'.reachable)
    ensures Followed(live, m, s')
  {
    hide WordsFound;
    forall c | c in s'.reachable ensures c in s'.worklist || WordsFound(live, m, c, live[c].size, s'.reachable) {
      if c in s.reachable && c !in rest && c != b {
        assert c !in s.worklist;
        WordsFoundGrow(live, m, c, live[c].size, s.reachable, s'.reachable);
      }
    }
  }

  lemma EmptyWorklist(live: Blocks, m: Memory, gpr: File, s: Search)
    requires Followed(live, m, s) && |s.worklist| == 0
    requires RootsFound(live, m, gpr, s.reachable) && Minimal(live, m, gpr, s.reachable)
    ensures Least(live, m, gpr, s.reachable)
  {
    hide WordsFound, RootsFound;
  }

  // ----- one more value -----

  /** What the search has done since s0: found more blocks, none that some closed set lacks. */
  ghost predicate Scanned(live: Blocks, m: Memory, gpr: File, s0: Search, s: Search) {
    Further(live, s0, s) && Minimal(live, m, gpr, s.reachable)
  }

  lemma ConsiderScanned(live: Blocks, m: Memory, gpr: File, s0: Search, s: Search, v: u64)
    requires Heap(live) && Scanned(live, m, gpr, s0, s)
    requires forall c :: Closed(live, m, gpr, c) ==> Found(live, v, c)
    ensures Scanned(live, m, gpr, s0, Consider(live, s, v)) && Scanned(live, m, gpr, s, Consider(live, s, v))
    ensures Found(live, v, Consider(live, s, v).reachable)
  {
    hide Closed, Consider, Heap, Minimal, Found, Further;
    ConsiderMinimal(live, m, gpr, s, v);
    ConsiderFinds(live, s, v);
    FurtherTransitive(live, s0, s, Consider(live, s, v));
  }

  /** The root words at the offsets below upto of a stretch of memory have been considered. */
  ghost predicate StretchScanned(live: Blocks, m: Memory, base: int, upto: int, s: set<u64>) {
    forall o :: WordOffset(upto, o) && RootWord(live, m, base + o) ==> Found(live, RawWord(m, base + o), s)
  }

  lemma StretchGrows(live: Blocks, m: Memory, base: int, upto: int, s: set<u64>, s': set<u64>)
    requires StretchScanned(live, m, base, upto, s) && s <= s'
    ensures StretchScanned(live, m, base, upto, s')
  {
    hide RawWord, RootWord;
  }

  lemma StretchStep(live: Blocks, m: Memory, base: int, o: nat, s: set<u64>)
    requires StretchScanned(live, m, base, o, s) && o % 8 == 0
    requires RootWord(live, m, base + o) ==> Found(live, RawWord(m, base + o), s)
    ensures StretchScanned(live, m, base, o + 8, s)
  {
    hide RawWord, RootWord, Found;
    var upto := o + 8;
    forall i | WordOffset(upto, i) && RootWord(live, m, base + i) ensures Found(live, RawWord(m, base + i), s) {
      assert i == o || WordOffset(o, i);
    }
  }

  lemma WordsStep(live: Blocks, m: Memory, b: u64, o: nat, s: set<u64>)
    requires WordsFound(live, m, b, o, s) && o % 8 == 0 && Found(live, RawWord(m, b + o), s)
    ensures WordsFound(live, m, b, o + 8, s)
  {
    hide RawWord, Found;
    var upto := o + 8;
    forall i | WordOffset(upto, i) ensures Found(live, RawWord(m, b + i), s) {
      assert i == o || WordOffset(o, i);
    }
  }

  /** No whole word fits after the last one. */
  lemma WordsEnd(live: Blocks, m: Memory, b: u64, o: nat, size: nat, s: set<u64>)
    requires WordsFound(live, m, b, o, s) && o % 8 == 0 && o + 8 > size
    ensures WordsFound(live, m, b, size, s)
  {
    hide RawWord, Found;
    forall i | WordOffset(size, i) ensures Found(live, RawWord(m, b + i), s) {
      assert WordOffset(o, i);
    }
  }

  lemma StretchEnd(live: Blocks, m: Memory, base: int, o: nat, size: nat, s: set<u64>)
    requires StretchScanned(live, m, base, o, s) && o % 8 == 0 && o + 8 > size
    ensures StretchScanned(live, m, base, size, s)
  {
    hide RawWord, RootWord, Found;
    forall i | WordOffset(size, i) && RootWord(live, m, base + i) ensures Found(live, RawWord(m, base + i), s) {
      assert WordOffset(o, i);
    }
  }

  lemma ScannedSelf(live: Blocks, m: Memory, gpr: File, s: Search)
    requires Minimal(live, m, gpr, s.reachable)
    ensures Scanned(live, m, gpr, s, s)
  {
    hide Minimal;
  }

  lemma NothingScanned(live: Blocks, m: Memory, gpr: File)
    ensures Scanned(live, m, gpr, Search({}, []), Search({}, []))
  {
    hide Closed;
  }

  lemma ScannedMinimal(live: Blocks, m: Memory, gpr: File, s0: Search, s: Search)
    requires Scanned(live, m, gpr, s0, s)
    ensures Minimal(live, m, gpr, s.reachable)
  {
    hide Minimal;
  }

  lemma ScannedGrows(live: Blocks, m: Memory, gpr: File, s0: Search, s: Search)
    requires Scanned(live, m, gpr, s0, s)
    ensures s0.reachable <= s.reachable
  {
    hide Minimal;
  }

  lemma ScannedOn(live: Blocks, m: Memory, gpr: File, s: Search, s': Search, s'': Search)
    requires Scanned(live, m, gpr, s, s') && Scanned(live, m, gpr, s', s'')
    ensures Scanned(live, m, gpr, s, s'')
  {
    hide Minimal, Further;
    FurtherTransitive(live, s, s', s'');
  }

  lemma NoWords(live: Blocks, m: Memory, b: u64, s: set<u64>)
    ensures WordsFound(live, m, b, 0, s)
  {
  }

  lemma NoStretch(live: Blocks, m: Memory, base: int, s: set<u64>)
    ensures StretchScanned(live, m, base, 0, s)
  {
  }

  /** A region that is not writable, or too small for a word, has no root words. */
  lemma NoRoots(live: Blocks, m: Memory, base: int, size: int, prot: Prot, s: set<u64>)
    requires Write !in prot || size < 8
    requires forall a :: base <= a < base + size ==> a in m && m[a].prot == prot
    ensures StretchScanned(live, m, base, size, s)
  {
    hide Found, RawWord;
  }

  lemma OutsideIsRoot(live: Blocks, m: Memory, a: int)
    requires a % 8 == 0 && a in m && Write in m[a].prot && forall k: u64 :: !Inside(live, k, a)
    ensures RootWord(live, m, a)
  {
  }

  lemma InsideIsNoRoot(live: Blocks, m: Memory, a: u64)
    requires Heap(live) && Base(live, a) != 0
    ensures !RootWord(live, m, a)
  {
    hide Heap, Base;
    BaseIsExact(live, a);
    assert Inside(live, Base(live, a), a);
  }

  lemma StretchHas(live: Blocks, m: Memory, base: int, size: int, s: set<u64>, a: int)
    requires StretchScanned(live, m, base, size, s) && RootWord(live, m, a)
    requires base <= a < base + size && base % 8 == 0 && size % 8 == 0
    ensures Found(live, RawWord(m, a), s)
  {
    hide Found, RawWord;
    assert WordOffset(size, a - base) && base + (a - base) == a;
  }

  lemma StartFollowed(live: Blocks, m: Memory, gpr: File, s: Search)
    requires Scanned(live, m, gpr, Search({}, []), s)
    ensures Followed(live, m, s) && Minimal(live, m, gpr, s.reachable)
  {
    hide Minimal, WordsFound;
  }

  lemma PoppedIsLive(live: Blocks, m: Memory, s: Search)
    requires Followed(live, m, s) && |s.worklist| > 0
    ensures s.worklist[|s.worklist| - 1] in s.reachable && s.worklist[|s.worklist| - 1] in live
  {
    hide WordsFound;
    assert s.worklist[|s.worklist| - 1] in s.worklist;
  }

  /** One round of the worklist keeps the invariant and makes progress. */
  lemma PoppedStep(live: Blocks, m: Memory, gpr: File, s: Search, b: u64, rest: seq<u64>, s': Search)
    requires Followed(live, m, s) && RootsFound(live, m, gpr, s.reachable)
    requires |s.worklist| > 0 && rest == s.worklist[..|s.worklist| - 1] && b == s.worklist[|s.worklist| - 1]
    requires b in live && Scanned(live, m, gpr, Search(s.reachable, rest), s') && WordsFound(live, m, b, live[b].size, s'.reachable)
    ensures Followed(live, m, s') && RootsFound(live, m, gpr, s'.reachable) && Minimal(live, m, gpr, s'.reachable)
    ensures s'.reachable == s.reachable ==> |s'.worklist| < |s.worklist|
    ensures s'.reachable != s.reachable ==> |live.Keys - s'.reachable| < |live.Keys - s.reachable|
  {
    hide Minimal, WordsFound, RootsFound, Followed;
    assert s.worklist == rest + [b];
    PoppedFollowed(live, m, s, b, rest, s');
    RootsFoundGrow(live, m, gpr, s.reachable, s'.reachable);
    if s'.reachable != s.reachable {
      FollowedLive(live, m, s');
      Shrinks(live.Keys, s.reachable, s'.reachable);
    }
  }

  lemma FollowedLive(live: Blocks, m: Memory, s: Search)
    requires Followed(live, m, s)
    ensures s.reachable <= live.Keys
  {
    hide WordsFound;
  }

  lemma Shrinks(all: set<u64>, s: set<u64>, s': set<u64>)
    requires s < s' <= all
    ensures |all - s'| < |all - s|
  {
    assert all - s' <= all - s;
    var x :| x in s' && x !in s;
    assert x in all - s && x !in all - s';
    SmallerSet(all - s', all - s);
  }

  lemma {:induction false} SmallerSet(a: set<u64>, b: set<u64>)
    requires a < b
    ensures |a| < |b|
  {
    assert b == a + (b - a);
  }

  lemma RootsFoundGrow(live: Blocks, m: Memory, gpr: File, s: set<u64>, s': set<u64>)
    requires RootsFound(live, m, gpr, s) && s <= s'
    ensures RootsFound(live, m, gpr, s')
  {
    hide RootWord, RawWord;
  }
}
