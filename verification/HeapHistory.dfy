/** The heap tracer as a function from state to state, and what its maps mean in terms of nothing
    but the history of calls and writes. */
module HeapHistory {
  import opened Words

  const MAX_TRACKED: int := 0x10_0000
  const REDZONE: int := 16

  /** `AllocationRecord` without its backtrace. An empty `written` map means not tracked. */
  datatype Block = Block(ptr: u64, size: u64, freed: bool, written: seq<bool>)

  type Blocks = map<u64, Block>

  datatype Function = NoFunction | Malloc | Free | Realloc | Calloc

  datatype Finding =
    | DoubleFree(ptr: u64)
    | InvalidFree(ptr: u64)
    | ReallocOfFreed(ptr: u64)
    | ReallocOfUnknown(ptr: u64)
    | WriteAfterFree(address: u64)
    | ReadAfterFree(address: u64)
    | HeapOverflow(address: u64)
    | UninitializedRead(address: u64)

  datatype Tracer = Tracer(
    live: Blocks, freed: Blocks, active: Function, arg0: u64, arg1: u64, pendingFree: u64, findings: seq<Finding>)

  datatype Event =
    | Enter(function_: Function, arg0: u64, arg1: u64)
    | Leave(result: u64)
    | WriteByte(address: u64, byGuest: bool)
    | ReadByte(address: u64, byGuest: bool)

  // ----- lookups -----

  /** `--upper_bound(address)`: the greatest key at or below the address. */
  function Predecessor(m: Blocks, a: int): (r: Option<u64>)
    requires a < TWO_64
    ensures r.Some? ==> r.value in m && r.value <= a
    ensures forall k :: k in m && k <= a ==> r.Some? && k <= r.value
    decreases a + 1
  {
    if a < 0 then None else if a in m then Some(a) else Predecessor(m, a - 1)
  }

  /** `live_allocation_containing` and `freed_allocation_containing` */
  function Containing(m: Blocks, a: u64): (r: Option<u64>)
    ensures r.Some? ==> r.value in m && r.value <= a
  {
    var k := Predecessor(m, a);
    if k.Some? && a < Wrap(k.value + m[k.value].size) then k else None
  }

  /** The blocks end below 2^64, and none starts inside another. */
  ghost predicate Placed(m: Blocks) {
    && (forall k :: k in m ==> k + m[k].size < TWO_64)
    && (forall k, j :: k in m && j in m && k < j ==> k + m[k].size <= j)
  }

  predicate Inside(m: Blocks, k: u64, a: int) {
    k in m && k <= a < k + m[k].size
  }

  lemma NothingBetween(m: Blocks, k: u64, a: u64)
    requires Placed(m) && Inside(m, k, a)
    ensures Predecessor(m, a) == Some(k)
  {
    hide Predecessor, Placed;
    PlacedGap(m, k, Predecessor(m, a).value);
  }

  lemma PlacedGap(m: Blocks, k: u64, j: u64)
    requires Placed(m) && k in m && j in m && k <= j
    ensures k == j || k + m[k].size <= j
  {
  }

  /** The predecessor lookup finds exactly the block that contains the address. */
  lemma ContainingIsExact(m: Blocks, a: u64)
    requires Placed(m)
    ensures forall k: u64 :: Inside(m, k, a) <==> Containing(m, a) == Some(k)
  {
    hide Predecessor;
    forall k: u64 ensures Inside(m, k, a) <==> Containing(m, a) == Some(k) {
      if Inside(m, k, a) {
        NothingBetween(m, k, a);
      }
    }
  }

  // ----- the handlers -----

  function Report(t: Tracer, f: Finding): Tracer {
    t.(findings := t.findings + [f])
  }

  function Bitmap(size: u64, initialized: bool): (w: seq<bool>)
    ensures |w| == if size <= MAX_TRACKED then size else 0
  {
    seq(if size <= MAX_TRACKED then size else 0, _ => initialized)
  }

  /** `record_allocation`, without marking the MMU shadow. */
  function Recorded(t: Tracer, ptr: u64, size: u64, initialized: bool): Tracer {
    t.(live := t.live[ptr := Block(ptr, size, false, Bitmap(size, initialized))], freed := t.freed - {ptr})
  }

  function MovedToFreed(t: Tracer, ptr: u64): Tracer {
    if ptr in t.live then t.(live := t.live - {ptr}, freed := t.freed[ptr := t.live[ptr].(freed := true)]) else t
  }

  /** `mark_byte_initialized` */
  function MarkByte(b: Block, a: u64): Block {
    var offset: int := Wrap(a - b.ptr);
    if offset < |b.written| then b.(written := b.written[offset := true]) else b
  }

  /** n bytes marked, one at a time. */
  function MarkFirst(b: Block, start: u64, n: nat): Block
    decreases n
  {
    if n == 0 then b else MarkByte(MarkFirst(b, start, n - 1), Wrap(start + n - 1))
  }

  function OnFreeEnter(t: Tracer, ptr: u64): Tracer {
    if ptr == 0 then t.(pendingFree := 0)
    else if ptr in t.freed then Report(t, DoubleFree(ptr)).(pendingFree := 0)
    else if ptr !in t.live then Report(t, InvalidFree(ptr)).(pendingFree := 0)
    else t.(pendingFree := ptr)
  }

  function OnEnter(t: Tracer, f: Function, x: u64, y: u64): Tracer {
    var t1 := t.(active := f, arg0 := x, arg1 := y);
    if f == Free then OnFreeEnter(t1, x) else t1
  }

  function OnFreeLeave(t: Tracer): Tracer {
    if t.pendingFree == 0 then t else MovedToFreed(t, t.pendingFree).(pendingFree := 0)
  }

  /** Drops the block a realloc was given, or says what is wrong with it. */
  function ReallocDrop(t: Tracer, ptr: u64): Tracer {
    if ptr in t.live then MovedToFreed(t, ptr)
    else if ptr in t.freed then Report(t, ReallocOfFreed(ptr))
    else Report(t, ReallocOfUnknown(ptr))
  }

  /** Marks the preserved bytes of the block that contains the result. */
  function Preserve(t: Tracer, result: u64, n: nat): Tracer {
    match Containing(t.live, result)
    case None => t
    case Some(k) => t.(live := t.live[k := MarkFirst(t.live[k], result, n)])
  }

  function OnReallocLeave(t: Tracer, result: u64): Tracer {
    if t.arg0 == 0 then (if result != 0 then Recorded(t, result, t.arg1, false) else t)
    else if t.arg1 == 0 then MovedToFreed(t, t.arg0)
    else
      var oldSize: int := if t.arg0 in t.live then t.live[t.arg0].size else 0;
      var t1 := ReallocDrop(t, t.arg0);
      if result != 0 then Preserve(Recorded(t1, result, t.arg1, false), result, Min(oldSize, t.arg1)) else t1
  }

  function OnLeave(t: Tracer, result: u64): Tracer {
    match t.active
    case Malloc => if result != 0 then Recorded(t, result, t.arg0, false) else t
    case Free => OnFreeLeave(t)
    case Realloc => OnReallocLeave(t, result)
    case Calloc => if result != 0 then Recorded(t, result, Wrap(t.arg0 * t.arg1), true) else t
    case NoFunction => t
  }

  predicate NearEnd(b: Block, k: u64, a: u64) {
    Wrap(k + b.size) <= a < Wrap(k + b.size + REDZONE)
  }

  /** Some live block ends at most 16 bytes before the address. */
  ghost predicate JustPast(m: Blocks, a: u64) {
    exists k :: k in m && NearEnd(m[k], k, a)
  }

  function MarkWritten(t: Tracer, a: u64): Tracer {
    match Containing(t.live, a)
    case None => t
    case Some(k) => t.(live := t.live[k := MarkByte(t.live[k], a)])
  }

  /** Only writes by guest code outside the allocator are judged. */
  ghost function JudgeWrite(t: Tracer, a: u64, byGuest: bool): Tracer {
    if t.active != NoFunction || !byGuest then t
    else if Containing(t.freed, a).Some? then Report(t, WriteAfterFree(a))
    else if JustPast(t.live, a) then Report(t, HeapOverflow(a))
    else t
  }

  ghost function OnWrite(t: Tracer, a: u64, byGuest: bool): Tracer {
    JudgeWrite(MarkWritten(t, a), a, byGuest)
  }

  /** A live tracked byte the map does not have as written. */
  predicate Unwritten(m: Blocks, a: u64) {
    match Containing(m, a)
    case None => false
    case Some(k) => var offset: int := Wrap(a - m[k].ptr); offset < |m[k].written| && !m[k].written[offset]
  }

  function OnRead(t: Tracer, a: u64, byGuest: bool): Tracer {
    if t.active != NoFunction || !byGuest then t
    else if Containing(t.freed, a).Some? then Report(t, ReadAfterFree(a))
    else if Unwritten(t.live, a) then Report(t, UninitializedRead(a))
    else t
  }

  ghost function Apply(t: Tracer, e: Event): Tracer {
    match e
    case Enter(f, x, y) => OnEnter(t, f, x, y)
    case Leave(result) => OnLeave(t, result).(active := NoFunction)
    case WriteByte(a, byGuest) => OnWrite(t, a, byGuest)
    case ReadByte(a, byGuest) => OnRead(t, a, byGuest)
  }

  const START: Tracer := Tracer(map[], map[], NoFunction, 0, 0, 0, [])

  ghost function After(h: seq<Event>): Tracer {
    if |h| == 0 then START else Apply(After(h[..|h| - 1]), h[|h| - 1])
  }

  // ----- the same facts from the history alone -----

  datatype Call = Call(function_: Function, arg0: u64, arg1: u64)

  /** The call in progress. */
  function Pending(h: seq<Event>): Option<Call> {
    if |h| == 0 then None else
    match h[|h| - 1]
    case Enter(f, x, y) => Some(Call(f, x, y))
    case Leave(_) => None
    case _ => Pending(h[..|h| - 1])
  }

  /** A block a call returns, and how many of its first bytes already hold data. */
  datatype Fresh = Fresh(ptr: u64, size: u64, filled: int)

  /** The block a returning call adds. */
  function Gained(h: seq<Event>, c: Call, result: u64): Option<Fresh>
    decreases |h|, 1
  {
    if result == 0 then None else
    match c.function_
    case Malloc => Some(Fresh(result, c.arg0, 0))
    case Calloc => Some(Fresh(result, Wrap(c.arg0 * c.arg1), Wrap(c.arg0 * c.arg1)))
    case Realloc =>
      if c.arg0 == 0 then Some(Fresh(result, c.arg1, 0))
      else if c.arg1 == 0 then None
      else
        var size := LiveSize(h, c.arg0);
        Some(Fresh(result, c.arg1, if size.Some? then Min(size.value, c.arg1) else 0))
    case _ => None
  }

  /** The pointer a returning call gives up: free and realloc, also a realloc that fails. */
  function Lost(c: Call): Option<u64> {
    if (c.function_ == Free || c.function_ == Realloc) && c.arg0 != 0 then Some(c.arg0) else None
  }

  /** The size at a pointer after a return that loses one block and gains another. */
  function SizeAfter(before: Option<u64>, lost: Option<u64>, gained: Option<Fresh>, p: u64): Option<u64> {
    if gained.Some? && gained.value.ptr == p then Some(gained.value.size) else if lost == Some(p) then None else before
  }

  /** The size of the freed block at a pointer after the return. */
  function FreedAs(before: Option<u64>, live: Option<u64>, lost: Option<u64>, gained: Option<Fresh>, p: u64): Option<u64> {
    if gained.Some? && gained.value.ptr == p then None else if lost == Some(p) && live.Some? then live else before
  }

  /** Whether a byte counts as written after the return. */
  predicate WrittenBy(before: bool, gained: Option<Fresh>, a: int) {
    if gained.Some? && gained.value.ptr <= a < gained.value.ptr + gained.value.size
    then a < gained.value.ptr + gained.value.filled
    else before
  }

  /** The size of the block at a pointer, if the last call about the pointer made it live. */
  function LiveSize(h: seq<Event>, p: u64): Option<u64>
    decreases |h|, 0
  {
    if |h| == 0 then None else
    var before := h[..|h| - 1];
    if !h[|h| - 1].Leave? || Pending(before).None? then LiveSize(before, p) else
    var c := Pending(before).value;
    SizeAfter(LiveSize(before, p), Lost(c), Gained(before, c, h[|h| - 1].result), p)
  }

  /** The size of the block at a pointer, if the last call about the pointer freed it. */
  function FreedSize(h: seq<Event>, p: u64): Option<u64> {
    if |h| == 0 then None else
    var before := h[..|h| - 1];
    if !h[|h| - 1].Leave? || Pending(before).None? then FreedSize(before, p) else
    var c := Pending(before).value;
    FreedAs(FreedSize(before, p), LiveSize(before, p), Lost(c), Gained(before, c, h[|h| - 1].result), p)
  }

  /** The last call about the pointer freed it. */
  predicate WasFreed(h: seq<Event>, p: u64) {
    FreedSize(h, p).Some?
  }

  /** The byte was written, or handed out filled, since the last block that contains it began. */
  predicate Written(h: seq<Event>, a: int) {
    if |h| == 0 then false else
    var before := h[..|h| - 1];
    match h[|h| - 1]
    case WriteByte(b, _) => a == b || Written(before, a)
    case Leave(result) =>
      if Pending(before).None? then Written(before, a) else
      WrittenBy(Written(before, a), Gained(before, Pending(before).value, result), a)
    case _ => Written(before, a)
  }

  /** The allocator's side: a block it hands out ends below 2^64 and overlaps no block still live. */
  ghost predicate FitsIn(h: seq<Event>, c: Call, f: Fresh) {
    f.ptr + f.size < TWO_64 &&
    forall q: u64 :: LiveSize(h, q).Some? && Lost(c) != Some(q) ==> Clear(f, q, LiveSize(h, q).value)
  }

  predicate Clear(f: Fresh, q: u64, size: u64) {
    q != f.ptr && (q < f.ptr ==> q + size <= f.ptr) && (f.ptr < q ==> f.ptr + f.size <= q)
  }

  /** Calls do not nest; `step` sees to that. */
  ghost predicate Alternates(h: seq<Event>) {
    |h| == 0 || (Alternates(h[..|h| - 1]) && CanFollow(h[..|h| - 1], h[|h| - 1]))
  }

  predicate CanFollow(h: seq<Event>, e: Event) {
    match e
    case Enter(f, _, _) => Pending(h).None? && f != NoFunction
    case Leave(_) => Pending(h).Some?
    case _ => true
  }

  /** The allocator keeps its side at every return. */
  ghost predicate KeepsApart(h: seq<Event>) {
    |h| == 0 || (
      var before := h[..|h| - 1];
      KeepsApart(before)
      && (h[|h| - 1].Leave? && Pending(before).Some? ==> ReturnFits(before, Pending(before).value, h[|h| - 1].result)))
  }

  ghost predicate ReturnFits(h: seq<Event>, c: Call, result: u64) {
    Gained(h, c, result).Some? ==> FitsIn(h, c, Gained(h, c, result).value)
  }

  ghost predicate Fair(h: seq<Event>) {
    Alternates(h) && KeepsApart(h)
  }

  // ----- the maps mean the history -----

  ghost predicate CallMatches(t: Tracer, h: seq<Event>) {
    match Pending(h)
    case None => t.active == NoFunction && t.pendingFree == 0
    case Some(c) =>
      t.active == c.function_ && t.arg0 == c.arg0 && t.arg1 == c.arg1 && c.function_ != NoFunction
      && t.pendingFree == if c.function_ == Free && c.arg0 in t.live then c.arg0 else 0
  }

  predicate Shaped(b: Block, p: u64) {
    b.ptr == p && !b.freed && |b.written| == if b.size <= MAX_TRACKED then b.size else 0
  }

  ghost predicate LiveMatches(live: Blocks, h: seq<Event>) {
    forall p: u64 :: if p in live then LiveSize(h, p) == Some(live[p].size) && Shaped(live[p], p) else LiveSize(h, p).None?
  }

  ghost predicate FreedMatches(freed: Blocks, h: seq<Event>) {
    forall p: u64 :: FreedSize(h, p) == if p in freed then Some(freed[p].size) else None
  }

  ghost predicate EndsBelowTop(m: Blocks) {
    forall k :: k in m ==> k + m[k].size < TWO_64
  }

  ghost predicate WrittenMatches(live: Blocks, h: seq<Event>) {
    forall p: u64, i: int :: p in live && 0 <= i < |live[p].written| ==> (live[p].written[i] <==> Written(h, p + i))
  }

  ghost predicate Matches(t: Tracer, h: seq<Event>) {
    && CallMatches(t, h) && LiveMatches(t.live, h) && FreedMatches(t.freed, h) && WrittenMatches(t.live, h)
    && Placed(t.live) && t.live.Keys !! t.freed.Keys && 0 !in t.live && EndsBelowTop(t.freed)
  }

  // ----- each event keeps the match -----

  ghost predicate SameBlocks(h: seq<Event>, h': seq<Event>) {
    && (forall p: u64 :: LiveSize(h', p) == LiveSize(h, p))
    && (forall p: u64 :: FreedSize(h', p) == FreedSize(h, p))
  }

  /** Only returns change which blocks there are; only returns and writes change their bytes. */
  lemma QuietEvent(h: seq<Event>, e: Event)
    requires !e.Leave?
    ensures SameBlocks(h, h + [e])
    ensures Pending(h + [e]) == if e.Enter? then Some(Call(e.function_, e.arg0, e.arg1)) else Pending(h)
    ensures forall a: int :: Written(h + [e], a) == (Written(h, a) || (e.WriteByte? && e.address == a))
  {
    assert (h + [e])[..|h|] == h;
  }

  lemma EnterMatches(t: Tracer, h: seq<Event>, f: Function, x: u64, y: u64)
    requires Matches(t, h) && Pending(h).None? && f != NoFunction
    ensures Matches(Apply(t, Enter(f, x, y)), h + [Enter(f, x, y)])
  {
    hide LiveSize, FreedSize, Written, Pending, Placed;
    QuietEvent(h, Enter(f, x, y));
  }

  lemma ReadMatches(t: Tracer, h: seq<Event>, a: u64, byGuest: bool)
    requires Matches(t, h)
    ensures Matches(Apply(t, ReadByte(a, byGuest)), h + [ReadByte(a, byGuest)])
  {
    hide LiveSize, FreedSize, Written, Pending, Placed, Containing, Unwritten;
    QuietEvent(h, ReadByte(a, byGuest));
  }

  /** Marking a byte of a well-shaped block sets exactly that bit. */
  lemma MarkByteSets(b: Block, p: u64, a: u64)
    requires Shaped(b, p) && p <= a
    ensures var b' := MarkByte(b, a);
      b' == b.(written := b'.written) && |b'.written| == |b.written|
      && forall i :: 0 <= i < |b.written| ==> b'.written[i] == (b.written[i] || i == a - p)
  {
  }

  lemma WriteKeepsBlocks(live: Blocks, k: u64, a: u64)
    requires Placed(live) && k in live && Shaped(live[k], k) && k <= a
    ensures Placed(live[k := MarkByte(live[k], a)])
  {
    hide MarkByte;
    MarkByteSets(live[k], k, a);
  }

  /** live' is live with the byte at a marked, in the one block that contains it. */
  ghost predicate MarkedAt(live: Blocks, live': Blocks, a: u64) {
    && live'.Keys == live.Keys
    && (forall p :: p in live ==> Shaped(live[p], p) ==> Shaped(live'[p], p) && live'[p].size == live[p].size)
    && (forall p, i :: p in live && Shaped(live[p], p) && 0 <= i < |live[p].written| ==>
        live'[p].written[i] == (live[p].written[i] || p + i == a))
  }

  lemma MarkWrittenMarks(t: Tracer, a: u64)
    requires Placed(t.live) && forall p :: p in t.live ==> Shaped(t.live[p], p)
    ensures MarkedAt(t.live, MarkWritten(t, a).live, a) && Placed(MarkWritten(t, a).live)
    ensures MarkWritten(t, a) == t.(live := MarkWritten(t, a).live)
  {
    hide Containing, MarkByte, Placed;
    ContainingIsExact(t.live, a);
    var k, live' := Containing(t.live, a), MarkWritten(t, a).live;
    if k.Some? {
      assert Inside(t.live, k.value, a);
      WriteKeepsBlocks(t.live, k.value, a);
      MarkByteSets(t.live[k.value], k.value, a);
    }
    forall p, i | p in t.live && Shaped(t.live[p], p) && 0 <= i < |t.live[p].written|
      ensures live'[p].written[i] == (t.live[p].written[i] || p + i == a)
    {
      assert p + i == a ==> Inside(t.live, p, a);
    }
  }

  lemma MarkWrittenMatches(t: Tracer, h: seq<Event>, a: u64, byGuest: bool)
    requires Matches(t, h)
    ensures Matches(MarkWritten(t, a), h + [WriteByte(a, byGuest)])
  {
    hide LiveSize, FreedSize, Written, Pending, Placed, MarkWritten;
    QuietEvent(h, WriteByte(a, byGuest));
    MarkWrittenMarks(t, a);
  }

  lemma ReportKeeps(t: Tracer, h: seq<Event>, f: Finding)
    requires Matches(t, h)
    ensures Matches(Report(t, f), h)
  {
    hide LiveMatches, FreedMatches, WrittenMatches, Placed;
  }

  lemma WriteMatches(t: Tracer, h: seq<Event>, a: u64, byGuest: bool)
    requires Matches(t, h)
    ensures Matches(Apply(t, WriteByte(a, byGuest)), h + [WriteByte(a, byGuest)])
  {
    hide Matches, MarkWritten, Containing, JustPast, Report;
    MarkWrittenMatches(t, h, a, byGuest);
    ReportKeeps(MarkWritten(t, a), h + [WriteByte(a, byGuest)], WriteAfterFree(a));
    ReportKeeps(MarkWritten(t, a), h + [WriteByte(a, byGuest)], HeapOverflow(a));
  }

  // ----- returning calls -----

  function FilledBlock(f: Fresh): Block {
    Block(f.ptr, f.size, false, seq(if f.size <= MAX_TRACKED then f.size else 0, i => i < f.filled))
  }

  function LiveAfter(live: Blocks, lost: Option<u64>, gained: Option<Fresh>): Blocks {
    var kept := if lost.Some? then live - {lost.value} else live;
    if gained.Some? then kept[gained.value.ptr := FilledBlock(gained.value)] else kept
  }

  function FreedAfter(live: Blocks, freed: Blocks, lost: Option<u64>, gained: Option<Fresh>): Blocks {
    var more := if lost.Some? && lost.value in live then freed[lost.value := live[lost.value].(freed := true)] else freed;
    if gained.Some? then more - {gained.value.ptr} else more
  }

  /** What a return does to the maps, whichever handler does it. */
  ghost predicate LeavesAs(t: Tracer, t': Tracer, lost: Option<u64>, gained: Option<Fresh>) {
    t'.live == LiveAfter(t.live, lost, gained) && t'.freed == FreedAfter(t.live, t.freed, lost, gained) && t'.pendingFree == 0
  }

  lemma {:induction false} MarkFirstFills(b: Block, p: u64, n: nat)
    requires Shaped(b, p) && n <= b.size && p + b.size < TWO_64
    ensures var b' := MarkFirst(b, p, n);
      b' == b.(written := b'.written) && |b'.written| == |b.written|
      && forall i :: 0 <= i < |b.written| ==> b'.written[i] == (i < n || b.written[i])
  {
    hide MarkByte;
    if n > 0 {
      MarkFirstFills(b, p, n - 1);
      MarkByteSets(MarkFirst(b, p, n - 1), p, p + n - 1);
    }
  }

  lemma RecordedIsFilled(t: Tracer, f: Fresh, initialized: bool)
    requires f.filled == if initialized then f.size else 0
    ensures Recorded(t, f.ptr, f.size, initialized).live == t.live[f.ptr := FilledBlock(f)]
  {
    assert Bitmap(f.size, initialized) == FilledBlock(f).written;
  }

  /** A freshly recorded block is the one found at its own address, unless it is empty. */
  lemma PreserveFills(t: Tracer, f: Fresh)
    requires f.ptr + f.size < TWO_64 && 0 <= f.filled <= f.size
    ensures Preserve(Recorded(t, f.ptr, f.size, false), f.ptr, f.filled).live == t.live[f.ptr := FilledBlock(f)]
    ensures Preserve(Recorded(t, f.ptr, f.size, false), f.ptr, f.filled)
      == Recorded(t, f.ptr, f.size, false).(live := t.live[f.ptr := FilledBlock(f)])
  {
    hide MarkFirst;
    var t1 := Recorded(t, f.ptr, f.size, false);
    assert Predecessor(t1.live, f.ptr) == Some(f.ptr);
    assert Shaped(t1.live[f.ptr], f.ptr);
    MarkFirstFills(t1.live[f.ptr], f.ptr, f.filled);
    if f.size > 0 {
      assert MarkFirst(t1.live[f.ptr], f.ptr, f.filled).written == FilledBlock(f).written;
    } else {
      assert FilledBlock(f).written == [];
    }
  }

  lemma MallocLeaves(t: Tracer, h: seq<Event>, c: Call, result: u64)
    requires Matches(t, h) && Pending(h) == Some(c) && (c.function_ == Malloc || c.function_ == Calloc)
    ensures LeavesAs(t, OnLeave(t, result), Lost(c), Gained(h, c, result))
  {
    hide LiveMatches, FreedMatches, WrittenMatches, Placed, Wrap, Bitmap, FilledBlock;
    var size := if c.function_ == Malloc then c.arg0 else Wrap(c.arg0 * c.arg1);
    RecordedIsFilled(t, Fresh(result, size, if c.function_ == Malloc then 0 else size), c.function_ == Calloc);
  }

  lemma FreeLeaves(t: Tracer, h: seq<Event>, c: Call, result: u64)
    requires Matches(t, h) && Pending(h) == Some(c) && c.function_ == Free
    ensures LeavesAs(t, OnLeave(t, result), Lost(c), Gained(h, c, result))
  {
    hide LiveMatches, FreedMatches, WrittenMatches, Placed;
    if c.arg0 !in t.live {
      assert t.live - {c.arg0} == t.live;
    }
  }

  lemma ReallocLeaves(t: Tracer, h: seq<Event>, c: Call, result: u64)
    requires Matches(t, h) && Pending(h) == Some(c) && c.function_ == Realloc
    requires var g := Gained(h, c, result); g.Some? ==> g.value.ptr + g.value.size < TWO_64
    ensures LeavesAs(t, OnLeave(t, result), Lost(c), Gained(h, c, result))
  {
    hide FreedMatches, WrittenMatches, Placed, Recorded, Preserve, FilledBlock, LiveSize, FreedSize, Written;
    assert c.arg0 !in t.live ==> t.live - {c.arg0} == t.live;
    var g := Gained(h, c, result);
    if c.arg0 == 0 {
      RecordedFrees(t, result, c.arg1);
      RecordedIsFilled(t, Fresh(result, c.arg1, 0), false);
    } else if c.arg1 != 0 {
      var t1 := ReallocDrop(t, c.arg0);
      if g.Some? {
        RecordedFrees(t1, result, c.arg1);
        PreserveFills(t1, g.value);
      }
    }
  }

  lemma RecordedFrees(t: Tracer, ptr: u64, size: u64)
    ensures var t' := Recorded(t, ptr, size, false); t' == t.(live := t'.live, freed := t.freed - {ptr})
  {
  }

  lemma LeaveEvent(h: seq<Event>, c: Call, result: u64)
    requires Pending(h) == Some(c)
    ensures var h', g := h + [Leave(result)], Gained(h, c, result);
      && Pending(h').None?
      && (forall p: u64 :: LiveSize(h', p) == SizeAfter(LiveSize(h, p), Lost(c), g, p))
      && (forall p: u64 :: FreedSize(h', p) == FreedAs(FreedSize(h, p), LiveSize(h, p), Lost(c), g, p))
      && (forall a: int :: Written(h', a) == WrittenBy(Written(h, a), g, a))
  {
    hide Gained, Lost;
    assert (h + [Leave(result)])[..|h|] == h;
  }

  lemma LiveAfterMatches(live: Blocks, h: seq<Event>, c: Call, result: u64)
    requires LiveMatches(live, h) && Pending(h) == Some(c)
    ensures LiveMatches(LiveAfter(live, Lost(c), Gained(h, c, result)), h + [Leave(result)])
  {
    hide Gained, Lost, LiveSize, FreedSize, Written, Pending;
    LeaveEvent(h, c, result);
  }

  lemma FreedAfterMatches(live: Blocks, freed: Blocks, h: seq<Event>, c: Call, result: u64)
    requires LiveMatches(live, h) && FreedMatches(freed, h) && Pending(h) == Some(c)
    ensures FreedMatches(FreedAfter(live, freed, Lost(c), Gained(h, c, result)), h + [Leave(result)])
  {
    hide Gained, Lost, LiveSize, FreedSize, Written, Pending;
    LeaveEvent(h, c, result);
  }

  lemma PlacedAfter(live: Blocks, h: seq<Event>, c: Call, result: u64)
    requires LiveMatches(live, h) && Placed(live)
    requires Gained(h, c, result).Some? ==> FitsIn(h, c, Gained(h, c, result).value)
    ensures Placed(LiveAfter(live, Lost(c), Gained(h, c, result)))
  {
    hide Gained, Lost, LiveSize;
    var g := Gained(h, c, result);
    if g.Some? {
      forall q: u64 | q in live && Lost(c) != Some(q) ensures Clear(g.value, q, live[q].size) {
        assert LiveSize(h, q) == Some(live[q].size);
      }
      PlacedWith(live, Lost(c), g.value);
    }
  }

  lemma PlacedWith(live: Blocks, lost: Option<u64>, f: Fresh)
    requires Placed(live) && f.ptr + f.size < TWO_64
    requires forall q: u64 :: q in live && lost != Some(q) ==> Clear(f, q, live[q].size)
    ensures Placed(LiveAfter(live, lost, Some(f)))
  {
    var live' := LiveAfter(live, lost, Some(f));
    forall k | k in live' ensures k + live'[k].size < TWO_64 && (k != f.ptr ==> live'[k] == live[k] && Clear(f, k, live[k].size)) {}
  }

  /** Bytes of the blocks that stay are as before; those of the new block as handed out. */
  lemma WrittenAfterMatches(live: Blocks, h: seq<Event>, c: Call, result: u64)
    requires LiveMatches(live, h) && WrittenMatches(live, h) && Placed(live) && Pending(h) == Some(c)
    requires Gained(h, c, result).Some? ==> FitsIn(h, c, Gained(h, c, result).value)
    ensures WrittenMatches(LiveAfter(live, Lost(c), Gained(h, c, result)), h + [Leave(result)])
  {
    hide Gained, Lost, LiveSize, FreedSize, Written, Pending, Placed;
    LeaveEvent(h, c, result);
    var g, live', h' := Gained(h, c, result), LiveAfter(live, Lost(c), Gained(h, c, result)), h + [Leave(result)];
    forall p: u64, i: int | p in live' && 0 <= i < |live'[p].written| ensures live'[p].written[i] <==> Written(h', p + i) {
      if !(g.Some? && g.value.ptr == p) {
        assert live'[p] == live[p] && Lost(c) != Some(p);
        assert LiveSize(h, p) == Some(live[p].size) && Shaped(live[p], p);
        assert g.Some? ==> Clear(g.value, p, live[p].size);
        assert live[p].written[i] <==> Written(h, p + i);
      }
    }
  }

  lemma GainedNonzero(h: seq<Event>, c: Call, result: u64)
    ensures Gained(h, c, result).Some? ==> Gained(h, c, result).value.ptr == result != 0
  {
  }

  lemma KeysAfter(t: Tracer, lost: Option<u64>, gained: Option<Fresh>)
    requires t.live.Keys !! t.freed.Keys && 0 !in t.live && (gained.Some? ==> gained.value.ptr != 0)
    requires Placed(t.live) && EndsBelowTop(t.freed)
    ensures LiveAfter(t.live, lost, gained).Keys !! FreedAfter(t.live, t.freed, lost, gained).Keys
    ensures 0 !in LiveAfter(t.live, lost, gained) && EndsBelowTop(FreedAfter(t.live, t.freed, lost, gained))
  {
  }

  lemma LeaveMatches(t: Tracer, h: seq<Event>, result: u64)
    requires Matches(t, h) && Pending(h).Some?
    requires var g := Gained(h, Pending(h).value, result); g.Some? ==> FitsIn(h, Pending(h).value, g.value)
    ensures Matches(Apply(t, Leave(result)), h + [Leave(result)])
  {
    hide OnLeave, LiveAfter, FreedAfter, LiveMatches, FreedMatches, WrittenMatches, Placed, Gained, Lost, LiveSize;
    var c := Pending(h).value;
    var g := Gained(h, c, result);
    GainedNonzero(h, c, result);
    match c.function_ {
      case Free => FreeLeaves(t, h, c, result);
      case Realloc => ReallocLeaves(t, h, c, result);
      case _ => MallocLeaves(t, h, c, result);
    }
    LiveAfterMatches(t.live, h, c, result);
    FreedAfterMatches(t.live, t.freed, h, c, result);
    PlacedAfter(t.live, h, c, result);
    WrittenAfterMatches(t.live, h, c, result);
    KeysAfter(t, Lost(c), g);
    LeaveEvent(h, c, result);
  }

  // ----- the main results -----

  /** After every fair history the maps mean exactly that history: the live blocks are those whose
      last call made them live, with their sizes; the freed ones those last freed; and a byte of a
      tracked live block is marked exactly if it was written since the block began, came from
      calloc, or lies in the first min(old, new) bytes of a realloc. No key is live and freed. */
  lemma {:induction false} MapsMeanHistory(h: seq<Event>)
    requires Fair(h)
    ensures Matches(After(h), h)
  {
    hide Matches, Apply, FitsIn, Gained, LiveSize, Pending;
    if |h| == 0 {
      StartMatches();
      assert h == [];
    } else {
      var before, e := h[..|h| - 1], h[|h| - 1];
      assert h == before + [e];
      MapsMeanHistory(before);
      match e {
        case Enter(f, x, y) => EnterMatches(After(before), before, f, x, y);
        case Leave(result) => LeaveMatches(After(before), before, result);
        case WriteByte(a, byGuest) => WriteMatches(After(before), before, a, byGuest);
        case ReadByte(a, byGuest) => ReadMatches(After(before), before, a, byGuest);
      }
    }
  }

  lemma StartMatches()
    ensures Matches(START, [])
  {
  }

  // ----- findings -----

  /** The freed block with the greatest pointer at or below the address contains it. */
  ghost predicate InFreed(h: seq<Event>, a: u64) {
    exists p: u64 :: FreedHolds(h, p, a)
  }

  ghost predicate FreedHolds(h: seq<Event>, p: u64, a: u64) {
    && FreedSize(h, p).Some? && p <= a < p + FreedSize(h, p).value
    && forall q: u64 :: p < q <= a ==> FreedSize(h, q).None?
  }

  /** Some live block ends at most 16 bytes before the address, with its red zone below 2^64. */
  ghost predicate InRedzone(h: seq<Event>, a: u64) {
    exists k: u64 :: LiveSize(h, k).Some? && JustAfter(k + LiveSize(h, k).value, a)
  }

  predicate JustAfter(end: int, a: u64) {
    end <= a < end + 16 < TWO_64
  }

  /** The address lies in a live block whose bytes are tracked. */
  ghost predicate InTracked(h: seq<Event>, a: u64) {
    exists p: u64 :: LiveSize(h, p).Some? && p <= a < p + LiveSize(h, p).value && LiveSize(h, p).value <= MAX_TRACKED
  }

  /** A freed pointer, or one that was never handed out, must not be freed. */
  ghost function FreeVerdict(h: seq<Event>, ptr: u64): seq<Finding> {
    if ptr == 0 then [] else if WasFreed(h, ptr) then [DoubleFree(ptr)]
    else if LiveSize(h, ptr).None? then [InvalidFree(ptr)] else []
  }

  ghost function ReallocVerdict(h: seq<Event>, ptr: u64, size: u64): seq<Finding> {
    if ptr == 0 || size == 0 || LiveSize(h, ptr).Some? then []
    else if WasFreed(h, ptr) then [ReallocOfFreed(ptr)] else [ReallocOfUnknown(ptr)]
  }

  /** Writes and reads are judged only by guest code, outside the allocator. */
  ghost function WriteVerdict(h: seq<Event>, a: u64, byGuest: bool): seq<Finding> {
    if Pending(h).Some? || !byGuest then [] else if InFreed(h, a) then [WriteAfterFree(a)]
    else if InRedzone(h, a) then [HeapOverflow(a)] else []
  }

  ghost function ReadVerdict(h: seq<Event>, a: u64, byGuest: bool): seq<Finding> {
    if Pending(h).Some? || !byGuest then [] else if InFreed(h, a) then [ReadAfterFree(a)]
    else if InTracked(h, a) && !Written(h, a) then [UninitializedRead(a)] else []
  }

  /** What there is to say about an event, from what came before it. */
  ghost function Verdict(h: seq<Event>, e: Event): seq<Finding> {
    match e
    case Enter(f, x, _) => if f == Free then FreeVerdict(h, x) else []
    case Leave(_) =>
      var c := Pending(h);
      if c.Some? && c.value.function_ == Realloc then ReallocVerdict(h, c.value.arg0, c.value.arg1) else []
    case WriteByte(a, byGuest) => WriteVerdict(h, a, byGuest)
    case ReadByte(a, byGuest) => ReadVerdict(h, a, byGuest)
  }

  lemma FairPrefix(h: seq<Event>, e: Event)
    requires Fair(h + [e])
    ensures Fair(h)
  {
    assert (h + [e])[..|h|] == h;
  }

  lemma FreedLookup(freed: Blocks, h: seq<Event>, a: u64)
    requires FreedMatches(freed, h) && EndsBelowTop(freed)
    ensures Containing(freed, a).Some? <==> InFreed(h, a)
  {
    hide Predecessor, FreedSize;
    var k := Predecessor(freed, a);
    if Containing(freed, a).Some? {
      assert FreedHolds(h, k.value, a);
    }
    if InFreed(h, a) {
      var p: u64 :| FreedHolds(h, p, a);
      assert p in freed;
      assert k.value in freed && FreedSize(h, k.value).Some?;
    }
  }

  lemma NearEndIs(b: Block, k: u64, a: u64)
    requires k + b.size < TWO_64
    ensures NearEnd(b, k, a) <==> JustAfter(k + b.size, a)
  {
    hide Wrap;
    WrapOnce(k + b.size);
    WrapOnce(k + b.size + REDZONE);
  }

  function SizeIn(live: Blocks, p: u64): Option<u64> {
    if p in live then Some(live[p].size) else None
  }

  lemma RedzoneLookup(live: Blocks, h: seq<Event>, a: u64)
    requires Placed(live) && forall p: u64 :: LiveSize(h, p) == SizeIn(live, p)
    ensures JustPast(live, a) <==> InRedzone(h, a)
  {
    hide LiveSize, NearEnd, JustAfter;
    if InRedzone(h, a) {
      var k: u64 :| LiveSize(h, k).Some? && JustAfter(k + LiveSize(h, k).value, a);
      assert LiveSize(h, k) == SizeIn(live, k);
      NearEndIs(live[k], k, a);
    }
    if JustPast(live, a) {
      var k: u64 :| k in live && NearEnd(live[k], k, a);
      NearEndIs(live[k], k, a);
      assert LiveSize(h, k) == SizeIn(live, k);
    }
  }

  lemma WriteIsJudged(t: Tracer, h: seq<Event>, a: u64, byGuest: bool)
    requires Matches(t, h)
    ensures OnWrite(t, a, byGuest).findings == t.findings + WriteVerdict(h, a, byGuest)
  {
    hide LiveSize, FreedSize, Placed, MarkWritten, Containing, JustPast, InFreed, InRedzone, WrittenMatches, Pending;
    MarkWrittenMarks(t, a);
    FreedLookup(t.freed, h, a);
    var live := MarkWritten(t, a).live;
    forall p: u64 ensures LiveSize(h, p) == SizeIn(live, p) {
      assert p in live <==> p in t.live;
    }
    RedzoneLookup(live, h, a);
    assert t.findings + [] == t.findings;
  }

  lemma ReadIsJudged(t: Tracer, h: seq<Event>, a: u64, byGuest: bool)
    requires Matches(t, h)
    ensures OnRead(t, a, byGuest).findings == t.findings + ReadVerdict(h, a, byGuest)
  {
    hide LiveSize, FreedSize, Placed, Containing, InFreed, Written, Unwritten, InTracked, Pending;
    FreedLookup(t.freed, h, a);
    UnwrittenIsTracked(t, h, a);
    assert t.findings + [] == t.findings;
  }

  lemma UnwrittenIsTracked(t: Tracer, h: seq<Event>, a: u64)
    requires Matches(t, h)
    ensures Unwritten(t.live, a) <==> InTracked(h, a) && !Written(h, a)
  {
    hide FreedSize, LiveSize, Placed, Containing, Written, FreedMatches, Pending;
    ContainingIsExact(t.live, a);
    var k := Containing(t.live, a);
    if k.Some? {
      assert Inside(t.live, k.value, a);
      assert Shaped(t.live[k.value], k.value);
      var offset: int := a - k.value;
      assert offset < |t.live[k.value].written| ==> (t.live[k.value].written[offset] <==> Written(h, k.value + offset));
    }
    assert InTracked(h, a) <==> k.Some? && t.live[k.value].size <= MAX_TRACKED by {
      if InTracked(h, a) {
        var p: u64 :| LiveSize(h, p).Some? && p <= a < p + LiveSize(h, p).value && LiveSize(h, p).value <= MAX_TRACKED;
        assert Inside(t.live, p, a);
      }
    }
  }

  lemma EnterIsJudged(t: Tracer, h: seq<Event>, f: Function, x: u64, y: u64)
    requires Matches(t, h)
    ensures OnEnter(t, f, x, y).findings == t.findings + Verdict(h, Enter(f, x, y))
  {
    hide LiveSize, FreedSize, Placed, WrittenMatches, CallMatches;
    assert t.findings + [] == t.findings;
  }

  lemma LeaveIsJudged(t: Tracer, h: seq<Event>, result: u64)
    requires Matches(t, h) && Pending(h).Some?
    ensures OnLeave(t, result).findings == t.findings + Verdict(h, Leave(result))
  {
    hide LiveSize, FreedSize, Placed, WrittenMatches, MarkFirst, Containing, Bitmap;
    assert t.findings + [] == t.findings;
  }

  /** Every event is reported exactly as the history before it deserves, and nothing else is. */
  lemma EventIsJudged(h: seq<Event>, e: Event)
    requires Fair(h + [e])
    ensures After(h + [e]).findings == After(h).findings + Verdict(h, e)
  {
    hide Matches, Fair, OnEnter, OnLeave, OnWrite, OnRead, Verdict;
    FairPrefix(h, e);
    MapsMeanHistory(h);
    assert (h + [e])[..|h|] == h;
    match e
    case Enter(f, x, y) => EnterIsJudged(After(h), h, f, x, y);
    case Leave(result) =>
      LeavesFollowCalls(h, result);
      LeaveIsJudged(After(h), h, result);
    case WriteByte(a, byGuest) =>
      WriteIsJudged(After(h), h, a, byGuest);
      VerdictOf(h, e);
    case ReadByte(a, byGuest) =>
      ReadIsJudged(After(h), h, a, byGuest);
      VerdictOf(h, e);
  }

  lemma VerdictOf(h: seq<Event>, e: Event)
    ensures e.WriteByte? ==> Verdict(h, e) == WriteVerdict(h, e.address, e.byGuest)
    ensures e.ReadByte? ==> Verdict(h, e) == ReadVerdict(h, e.address, e.byGuest)
  {
    hide WriteVerdict, ReadVerdict;
  }

  lemma LeavesFollowCalls(h: seq<Event>, result: u64)
    requires Fair(h + [Leave(result)])
    ensures Pending(h).Some?
  {
    assert (h + [Leave(result)])[..|h|] == h;
  }

  /** All verdicts on a history, in order. */
  ghost function Verdicts(h: seq<Event>): seq<Finding> {
    if |h| == 0 then [] else Verdicts(h[..|h| - 1]) + Verdict(h[..|h| - 1], h[|h| - 1])
  }

  /** The whole log of findings is what the history deserves. */
  lemma {:induction false} FindingsMeanHistory(h: seq<Event>)
    requires Fair(h)
    ensures After(h).findings == Verdicts(h)
  {
    hide Apply, Fair, Verdict;
    if |h| > 0 {
      var before, e := h[..|h| - 1], h[|h| - 1];
      assert h == before + [e];
      FairPrefix(before, e);
      FindingsMeanHistory(before);
      EventIsJudged(before, e);
    }
  }

  /** A free is judged by the last call about the pointer, and by nothing else: not by the second
      argument register, which `free` does not look at. */
  lemma FreeIsJudgedByHistory(h: seq<Event>, ptr: u64, second: u64)
    requires Fair(h + [Enter(Free, ptr, second)]) && ptr != 0
    ensures var findings := After(h + [Enter(Free, ptr, second)]).findings;
      if WasFreed(h, ptr) then findings == After(h).findings + [DoubleFree(ptr)]
      else if LiveSize(h, ptr).None? then findings == After(h).findings + [InvalidFree(ptr)]
      else findings == After(h).findings
  {
    hide After, Fair, FreedSize, LiveSize;
    EventIsJudged(h, Enter(Free, ptr, second));
  }

  /** A read by guest code of a byte no freed block covers is reported as uninitialized exactly if
      the byte is tracked and the history has not written it. */
  lemma UninitializedReadIsExact(h: seq<Event>, a: u64)
    requires Fair(h) && Pending(h).None? && !InFreed(h, a)
    ensures After(h + [ReadByte(a, true)]).findings
      == After(h).findings + if InTracked(h, a) && !Written(h, a) then [UninitializedRead(a)] else []
  {
    hide After, Fair, InFreed, InTracked, Written;
    AccessIsFair(h, ReadByte(a, true));
    EventIsJudged(h, ReadByte(a, true));
  }

  /** Reads and writes may happen at any time. */
  lemma AccessIsFair(h: seq<Event>, e: Event)
    requires Fair(h) && (e.ReadByte? || e.WriteByte?)
    ensures Fair(h + [e])
  {
    assert (h + [e])[..|h|] == h;
  }

  /** A write by guest code outside the allocator, into a freed block, past a live one, or neither. */
  lemma WriteIsJudgedByHistory(h: seq<Event>, a: u64)
    requires Fair(h) && Pending(h).None?
    ensures After(h + [WriteByte(a, true)]).findings == After(h).findings
      + if InFreed(h, a) then [WriteAfterFree(a)] else if InRedzone(h, a) then [HeapOverflow(a)] else []
  {
    hide After, Fair, InFreed, InRedzone;
    AccessIsFair(h, WriteByte(a, true));
    EventIsJudged(h, WriteByte(a, true));
  }

  /** Two blocks of 24 bytes, as far apart as the C library puts them. */
  const NEIGHBOURS: seq<Event> := [Enter(Malloc, 24, 0), Leave(0x1000), Enter(Malloc, 24, 0), Leave(0x1020)]

  /** A write to a live block can be reported: the first byte of the second block lies in the red zone of the
      first. `WriteIsJudgedByHistory` says exactly when a write is. */
  lemma LiveWriteMisreported()
    ensures Fair(NEIGHBOURS) && Pending(NEIGHBOURS).None? && LiveSize(NEIGHBOURS, 0x1020) == Some(24)
    ensures After(NEIGHBOURS + [WriteByte(0x1020, true)]).findings == After(NEIGHBOURS).findings + [HeapOverflow(0x1020)]
  {
    hide After, Fair, LiveSize, FreedSize, InFreed, InRedzone;
    NeighboursLive();
    WriteIsJudgedByHistory(NEIGHBOURS, 0x1020);
    var k: u64 := 0x1000;
    assert LiveSize(NEIGHBOURS, k).Some? && JustAfter(k + LiveSize(NEIGHBOURS, k).value, 0x1020);
    RedzoneWitness(NEIGHBOURS, k, 0x1020);
    NothingFreed(NEIGHBOURS, 0x1020);
  }

  lemma RedzoneWitness(h: seq<Event>, k: u64, a: u64)
    requires LiveSize(h, k).Some? && JustAfter(k + LiveSize(h, k).value, a)
    ensures InRedzone(h, a)
  {
    hide LiveSize;
  }

  lemma NothingFreed(h: seq<Event>, a: u64)
    requires forall p: u64 :: FreedSize(h, p).None?
    ensures !InFreed(h, a)
  {
    hide FreedSize;
  }

  lemma NeighboursLive()
    ensures Fair(NEIGHBOURS) && Pending(NEIGHBOURS).None?
    ensures forall p: u64 :: LiveSize(NEIGHBOURS, p) == if p == 0x1000 || p == 0x1020 then Some(24) else None
    ensures forall p: u64 :: FreedSize(NEIGHBOURS, p).None?
  {
    hide Fair, LiveSize, FreedSize, Gained, Pending, FitsIn;
    var call := Call(Malloc, 24, 0);
    NothingYet();
    var h1 := [] + [Enter(Malloc, 24, 0)];
    FairCall([], Malloc, 24);
    QuietEvent([], Enter(Malloc, 24, 0));
    MallocGains(h1, 0x1000);
    var h2 := h1 + [Leave(0x1000)];
    FairReturn(h1, call, 0x1000);
    LeaveEvent(h1, call, 0x1000);
    var h3 := h2 + [Enter(Malloc, 24, 0)];
    FairCall(h2, Malloc, 24);
    QuietEvent(h2, Enter(Malloc, 24, 0));
    MallocGains(h3, 0x1020);
    FairReturn(h3, call, 0x1020);
    LeaveEvent(h3, call, 0x1020);
    assert NEIGHBOURS == h3 + [Leave(0x1020)];
  }

  lemma NothingYet()
    ensures Fair([]) && Pending([]).None? && forall p: u64 :: LiveSize([], p).None? && FreedSize([], p).None?
  {
  }

  lemma MallocGains(h: seq<Event>, result: u64)
    requires result != 0
    ensures Gained(h, Call(Malloc, 24, 0), result) == Some(Fresh(result, 24, 0))
  {
  }

  lemma FairCall(h: seq<Event>, f: Function, size: u64)
    requires Fair(h) && Pending(h).None? && f != NoFunction
    ensures Fair(h + [Enter(f, size, 0)])
  {
    assert (h + [Enter(f, size, 0)])[..|h|] == h;
  }

  lemma FairReturn(h: seq<Event>, c: Call, result: u64)
    requires Fair(h) && Pending(h) == Some(c) && Gained(h, c, result) == Some(Fresh(result, 24, 0)) && c.function_ == Malloc
    requires result + 24 < TWO_64
    requires forall q: u64 :: LiveSize(h, q).Some? ==> LiveSize(h, q).value == 24 && q + 32 <= result
    ensures Fair(h + [Leave(result)])
  {
    hide LiveSize, Gained;
    assert (h + [Leave(result)])[..|h|] == h;
    assert FitsIn(h, c, Fresh(result, 24, 0));
  }

  /** The live blocks with their sizes. */
  function Sizes(live: Blocks): map<u64, u64> {
    map k | k in live :: live[k].size
  }

  /** The live blocks after a realloc as the C standard has it (ISO C17, section 7.22.3.5): a null
      result leaves the old block alone, except that size 0 frees it as glibc does; any other result
      replaces it. */
  function StandardRealloc(live: map<u64, u64>, ptr: u64, size: u64, result: u64): map<u64, u64> {
    if result != 0 then (live - {ptr})[result := size]
    else if size == 0 then live - {ptr}
    else live
  }

  /** The block a failed realloc leaves alone, and the empty block a realloc to size 0 may return. */
  predicate ReallocMisjudged(live: Blocks, ptr: u64, size: u64, result: u64) {
    (result == 0 && size != 0 && ptr in live) || (result != 0 && size == 0 && ptr != 0)
  }

  lemma ReallocSizes(live: Blocks, h: seq<Event>, ptr: u64, size: u64, result: u64)
    requires LiveMatches(live, h) && 0 !in live && (result in live ==> result == ptr)
    ensures var c := Call(Realloc, ptr, size);
      var after := LiveAfter(live, Lost(c), Gained(h, c, result));
      Sizes(after) == StandardRealloc(Sizes(live), ptr, size, result) <==> !ReallocMisjudged(live, ptr, size, result)
  {
    hide LiveSize, Shaped;
    var c := Call(Realloc, ptr, size);
    var after := Sizes(LiveAfter(live, Lost(c), Gained(h, c, result)));
    var standard := StandardRealloc(Sizes(live), ptr, size, result);
    if result == 0 && size != 0 && ptr in live {
      assert ptr in standard && ptr !in after;
    } else if result != 0 && size == 0 && ptr != 0 {
      assert result in standard && result !in after;
    } else {
      assert after == standard;
    }
  }

  /** After a realloc the tracer's live map is the one the C standard prescribes, except in two cases:
      a realloc that fails counts as a free, and an empty block returned for size 0 is not recorded. */
  lemma ReallocIsStandardUnlessMisjudged(h: seq<Event>, ptr: u64, size: u64, result: u64)
    requires Fair(h + [Leave(result)]) && Pending(h) == Some(Call(Realloc, ptr, size))
    requires result in After(h).live ==> result == ptr
    ensures var live, t := After(h).live, After(h + [Leave(result)]);
      && (Sizes(t.live) == StandardRealloc(Sizes(live), ptr, size, result) <==> !ReallocMisjudged(live, ptr, size, result))
      && (result == 0 && ptr in live ==> ptr in t.freed && ptr !in t.live)
  {
    hide FreedSize, LiveSize, Placed, WrittenMatches, CallMatches, FreedMatches, LiveMatches, OnLeave, FitsIn, Sizes,
      StandardRealloc, ReallocMisjudged, Gained;
    FairPrefix(h, Leave(result));
    MapsMeanHistory(h);
    assert (h + [Leave(result)])[..|h|] == h;
    var c := Call(Realloc, ptr, size);
    assert ReturnFits(h, c, result);
    FitsBelowTop(h, c, result);
    ReallocLeaves(After(h), h, c, result);
    ReallocSizes(After(h).live, h, ptr, size, result);
    GainedNonzero(h, c, result);
  }

  lemma FitsBelowTop(h: seq<Event>, c: Call, result: u64)
    requires ReturnFits(h, c, result)
    ensures var g := Gained(h, c, result); g.Some? ==> g.value.ptr + g.value.size < TWO_64
  {
    hide Gained;
  }

  /** A realloc that fails is a free to the tracer: the free of the block that the program still owes
      is then reported as a double free. */
  lemma FailedReallocIsAFree(h: seq<Event>, ptr: u64, size: u64, second: u64)
    requires Fair(h) && Pending(h) == Some(Call(Realloc, ptr, size)) && ptr in After(h).live
    ensures var before := After(h + [Leave(0)]);
      ptr in before.freed && ptr !in before.live
      && After(h + [Leave(0)] + [Enter(Free, ptr, second)]).findings == before.findings + [DoubleFree(ptr)]
  {
    hide LiveSize, FreedSize, OnLeave, Matches;
    var h1 := h + [Leave(0)];
    assert h1[..|h|] == h;
    assert (h1 + [Enter(Free, ptr, second)])[..|h1|] == h1;
    MapsMeanHistory(h);
    LiveNonzero(After(h), h);
    ReallocIsStandardUnlessMisjudged(h, ptr, size, 0);
  }

  lemma LiveNonzero(t: Tracer, h: seq<Event>)
    requires Matches(t, h)
    ensures 0 !in t.live
  {
    hide LiveMatches, FreedMatches, WrittenMatches, Placed, CallMatches;
  }

  /** The call the state machine is in is the one the history leaves open. */
  lemma {:induction false} ActiveIsPending(h: seq<Event>)
    requires Alternates(h)
    ensures After(h).active == if Pending(h).Some? then Pending(h).value.function_ else NoFunction
    ensures Pending(h).Some? ==> Pending(h).value.function_ != NoFunction
  {
    hide OnLeave, MarkWritten, OnFreeEnter, Containing, JustPast, Unwritten, Report;
    if |h| > 0 {
      var before, e := h[..|h| - 1], h[|h| - 1];
      ActiveIsPending(before);
      ApplyActive(After(before), e);
    }
  }

  lemma ApplyActive(t: Tracer, e: Event)
    ensures Apply(t, e).active == if e.Enter? then e.function_ else if e.Leave? then NoFunction else t.active
  {
  }
}
