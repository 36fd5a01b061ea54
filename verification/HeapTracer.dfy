/** The heap tracer as the object the emulator drives: `step` watches the allocator being entered
    and left, the MMU observers feed it reads and writes. Its state is always the one `HeapHistory`
    gives for the events so far. */
module HeapTracer {
  import opened Words
  import opened FlatMemory
  import opened GuestWords
  import opened GuestMmu
  import opened GuestCpu
  import opened HeapHistory
  import opened Leaks
  import RegionList
  import Signals

  /** Where the allocator's functions start; 0 is not found. */
  datatype Symbols = Symbols(malloc: u64, free: u64, realloc: u64, calloc: u64)

  /** `detect_allocation_function_entry` */
  function Detected(s: Symbols, a: u64): Function {
    if s.malloc != 0 && a == s.malloc then Malloc
    else if s.free != 0 && a == s.free then Free
    else if s.realloc != 0 && a == s.realloc then Realloc
    else if s.calloc != 0 && a == s.calloc then Calloc
    else NoFunction
  }

  /** Where a function starts, if its symbol was found. */
  function EntryOf(s: Symbols, f: Function): u64 {
    match f
    case Malloc => s.malloc
    case Free => s.free
    case Realloc => s.realloc
    case Calloc => s.calloc
    case NoFunction => 0
  }

  /** No two functions start at the same place. */
  ghost predicate Separate(s: Symbols) {
    forall f, g: Function :: f != g && EntryOf(s, f) != 0 ==> EntryOf(s, f) != EntryOf(s, g)
  }

  /** With separate symbols, each function is detected exactly at its own start. */
  lemma DetectedIsExact(s: Symbols, a: u64, f: Function)
    requires Separate(s)
    ensures f != NoFunction ==> (Detected(s, a) == f <==> a != 0 && a == EntryOf(s, f))
    ensures Detected(s, a) == NoFunction <==> forall g: Function :: a != 0 ==> a != EntryOf(s, g)
  {
    var g := Detected(s, a);
    if g != NoFunction {
      assert a == EntryOf(s, g) && a != 0;
      assert f != g && f != NoFunction ==> EntryOf(s, f) != EntryOf(s, g);
    } else {
      forall g: Function ensures a != 0 ==> a != EntryOf(s, g) {
        match g { case NoFunction => case Malloc => case Free => case Realloc => case Calloc => }
      }
    }
  }

  /** The range whose shadow a returning call clears in the MMU. */
  function NewRange(t: Tracer, result: u64): Option<(u64, u64)> {
    if result == 0 then None else
    match t.active
    case Malloc => Some((result, t.arg0))
    case Calloc => Some((result, Wrap(t.arg0 * t.arg1)))
    case Realloc => if t.arg0 == 0 || t.arg1 != 0 then Some((result, t.arg1)) else None
    case _ => None
  }

  /** The shadow is cleared over exactly the block the call hands out, if it hands one out. */
  lemma NewRangeIsBlock(t: Tracer, h: seq<Event>, c: Call, result: u64)
    requires Pending(h) == Some(c) && t.active == c.function_ && t.arg0 == c.arg0 && t.arg1 == c.arg1
    ensures var g := Gained(h, c, result);
      NewRange(t, result) == if g.Some? then Some((g.value.ptr, g.value.size)) else None
  {
    hide Wrap;
  }

  /** Marking stops silently at the first byte that cannot be read. */
  function ShadowCleared(m: Memory, range: Option<(u64, u64)>): Memory {
    if range.Some? then Marked(m, range.value.0, range.value.1, true).mem else m
  }

  /** Whatever the tracer does, the guest's bytes, protections and mappings stay as they are. */
  lemma {:induction false} MarkingKeepsBytes(m: Memory, a: u64, n: nat, initialized: bool)
    ensures Marked(m, a, n, initialized).mem.Keys == m.Keys
    ensures forall x :: x in m ==> var c := Marked(m, a, n, initialized).mem[x]; c == m[x].(initialized := c.initialized)
    decreases n
  {
    if n > 0 && Allowed(m, a, Read) {
      MarkingKeepsBytes(m[a := m[a].(initialized := initialized)], At(a, 1), n - 1, initialized);
    }
  }

  class MallocTracer {
    const mmu: SoftMmu
    const cpu: SoftCpu64
    const symbols: Symbols
    const internal: u64 -> bool
    var enabled: bool
    var allocations: Blocks
    var freed: Blocks
    var active: Function
    var entryArgs: (u64, u64)
    var pendingFreePtr: u64
    ghost var findings: seq<Finding>
    ghost var history: seq<Event>

    constructor (mmu: SoftMmu, cpu: SoftCpu64, symbols: Symbols, internal: u64 -> bool)
      requires cpu.mmu == mmu && cpu.Valid()
      ensures Valid() && this.mmu == mmu && this.cpu == cpu && history == []
    {
      this.mmu, this.cpu, this.symbols, this.internal, enabled := mmu, cpu, symbols, internal, false;
      allocations, freed, active, entryArgs, pendingFreePtr := map[], map[], NoFunction, (0, 0), 0;
      findings, history := [], [];
    }

    ghost predicate Attached()
      reads this, cpu, mmu, mmu.Repr
    {
      cpu.mmu == mmu && cpu.Valid() && this !in mmu.Repr
    }

    /** The maps are those of the events so far, and calls have not nested. */
    ghost predicate Valid()
      reads this, cpu, mmu, mmu.Repr
    {
      Attached() && View() == After(history) && Alternates(history)
    }

    ghost function View(): Tracer
      reads this
    {
      Tracer(allocations, freed, active, entryArgs.0, entryArgs.1, pendingFreePtr, findings)
    }

    // ----- the maps -----

    method RecordAllocation(ptr: u64, size: u64, initialized: bool)
      requires Attached()
      modifies this`allocations, this`freed, mmu.Repr
      ensures Attached() && mmu.Repr == old(mmu.Repr) && View() == Recorded(old(View()), ptr, size, initialized)
      ensures mmu.Flat() == ShadowCleared(old(mmu.Flat()), Some((ptr, size)))
    {
      hide SoftMmu.Flat, SoftMmu.Valid, Marked;
      allocations := allocations[ptr := Block(ptr, size, false, Bitmap(size, initialized))];
      freed := freed - {ptr};
      var error := mmu.MarkInitialized(ptr, size, true);
    }

    method MoveToFreed(ptr: u64)
      modifies this`allocations, this`freed
      ensures View() == MovedToFreed(old(View()), ptr)
    {
      if ptr in allocations {
        var record := allocations[ptr].(freed := true);
        allocations := allocations - {ptr};
        freed := freed[ptr := record];
      }
    }

    // ----- entering and leaving the allocator -----

    method OnFreeEnter(ptr: u64)
      modifies this`pendingFreePtr, this`findings
      ensures View() == HeapHistory.OnFreeEnter(old(View()), ptr)
    {
      pendingFreePtr := 0;
      if ptr == 0 {
        return;
      }
      if ptr in freed {
        findings := findings + [DoubleFree(ptr)];
        return;
      }
      if ptr !in allocations {
        findings := findings + [InvalidFree(ptr)];
        return;
      }
      pendingFreePtr := ptr;
    }

    method OnFreeLeave()
      modifies this`pendingFreePtr, this`allocations, this`freed
      ensures View() == HeapHistory.OnFreeLeave(old(View()))
    {
      if pendingFreePtr != 0 {
        MoveToFreed(pendingFreePtr);
        pendingFreePtr := 0;
      }
    }

    method OnReallocLeave(result: u64)
      requires Attached() && active == Realloc
      modifies this`allocations, this`freed, this`findings, mmu.Repr
      ensures Attached() && mmu.Repr == old(mmu.Repr) && View() == HeapHistory.OnReallocLeave(old(View()), result)
      ensures mmu.Flat() == ShadowCleared(old(mmu.Flat()), NewRange(old(View()), result))
    {
      hide SoftMmu.Flat, SoftMmu.Valid, Marked, Recorded, Containing, MarkFirst;
      var oldPtr, newSize := entryArgs.0, entryArgs.1;
      if oldPtr == 0 {
        if result != 0 {
          RecordAllocation(result, newSize, false);
        }
        return;
      }
      if newSize == 0 {
        MoveToFreed(oldPtr);
        return;
      }
      var oldSize: int := 0;
      if oldPtr in allocations {
        oldSize := allocations[oldPtr].size;
        MoveToFreed(oldPtr);
      } else if oldPtr in freed {
        findings := findings + [ReallocOfFreed(oldPtr)];
      } else {
        findings := findings + [ReallocOfUnknown(oldPtr)];
      }
      if result != 0 {
        RecordAllocation(result, newSize, false);
        PreserveContents(result, Min(oldSize, newSize));
      }
    }

    /** The grown tail of a realloc stays unwritten; the first n bytes keep their contents. */
    method PreserveContents(result: u64, n: nat)
      modifies this`allocations
      ensures View() == Preserve(old(View()), result, n)
    {
      hide Containing, MarkByte;
      var found := Containing(allocations, result);
      if found.Some? {
        ghost var before := allocations;
        var record := allocations[found.value];
        for i := 0 to n
          invariant record == MarkFirst(before[found.value], result, i)
          invariant allocations == before
        {
          record := MarkByte(record, Wrap(result + i));
        }
        allocations := allocations[found.value := record];
      }
    }

    method OnFunctionEnter(f: Function)
      requires Attached()
      modifies this`active, this`entryArgs, this`pendingFreePtr, this`findings
      ensures View() == OnEnter(old(View()), f, cpu.gpr[Signals.RDI], cpu.gpr[Signals.RSI])
    {
      active, entryArgs := f, (cpu.gpr[Signals.RDI], cpu.gpr[Signals.RSI]);
      if f == Free {
        OnFreeEnter(entryArgs.0);
      }
    }

    method OnFunctionLeave()
      requires Attached()
      modifies this`allocations, this`freed, this`findings, this`pendingFreePtr, mmu.Repr
      ensures Attached() && mmu.Repr == old(mmu.Repr) && View() == OnLeave(old(View()), cpu.gpr[0])
      ensures mmu.Flat() == ShadowCleared(old(mmu.Flat()), NewRange(old(View()), cpu.gpr[0]))
    {
      hide SoftMmu.Flat, SoftMmu.Valid, Marked, Recorded, MovedToFreed, Preserve, Wrap;
      var result := cpu.gpr[0];
      match active {
        case Malloc =>
          if result != 0 {
            RecordAllocation(result, entryArgs.0, false);
          }
        case Free => OnFreeLeave();
        case Realloc => OnReallocLeave(result);
        case Calloc =>
          if result != 0 {
            RecordAllocation(result, Wrap(entryArgs.0 * entryArgs.1), true);
          }
        case NoFunction =>
      }
    }

    /** Whether the return address at the top of the stack is in the allocator or the loader. */
    method CallerIsInternal() returns (r: bool)
      requires Attached()
      ensures Attached() && (r <==> InternalCaller())
    {
      hide SoftMmu.Flat, SoftMmu.Valid, Load;
      var bs := mmu.ReadWithShadow(cpu.gpr[Signals.RSP], 8);
      if bs.Err? {
        return false;
      }
      EightBytes(Values(bs.value));
      return internal(FromBytes(Values(bs.value)));
    }

    ghost predicate InternalCaller()
      requires Attached()
      reads this, cpu, mmu, mmu.Repr
    {
      var word := LoadWord(mmu.Flat(), cpu.gpr[Signals.RSP]);
      word.Ok? && internal(word.value)
    }

    /** What one look at the instruction pointer means: the guest enters an allocator function, the
        call in progress is back in guest code, or nothing. */
    ghost function StepEvent(): Option<Event>
      requires Attached()
      reads this, cpu, mmu, mmu.Repr
    {
      var current := Detected(symbols, cpu.rip);
      if !enabled then None
      else if active == NoFunction then
        if current != NoFunction && !InternalCaller() then Some(Enter(current, cpu.gpr[Signals.RDI], cpu.gpr[Signals.RSI])) else None
      else if !internal(cpu.rip) && current == NoFunction then Some(Leave(cpu.gpr[0]))
      else None
    }

    ghost predicate AtNoEntry()
      reads this, cpu
    {
      forall g :: cpu.rip != 0 ==> cpu.rip != EntryOf(symbols, g)
    }

    /** A call is entered at the start of its function, called from the guest, with RDI and RSI as its
        arguments; it is left at the first instruction of guest code, with RAX as its result. */
    lemma StepEventIsExact(f: Function)
      requires Attached() && Separate(symbols) && enabled && f != NoFunction
      ensures active == NoFunction && cpu.rip == EntryOf(symbols, f) != 0 && !InternalCaller() ==>
        StepEvent() == Some(Enter(f, cpu.gpr[7], cpu.gpr[6]))
      ensures active == NoFunction && (AtNoEntry() || InternalCaller()) ==> StepEvent() == None
      ensures active != NoFunction ==>
        StepEvent() == if !internal(cpu.rip) && AtNoEntry() then Some(Leave(cpu.gpr[0])) else None
    {
      hide SoftMmu.Flat, SoftMmu.Valid, Detected, Separate, EntryOf;
      DetectedIsExact(symbols, cpu.rip, f);
    }

    /** The block a step records, if the call in progress returns one. */
    ghost function StepRange(): Option<(u64, u64)>
      requires Attached()
      reads this, cpu, mmu, mmu.Repr
    {
      if StepEvent().Some? && StepEvent().value.Leave? then NewRange(View(), cpu.gpr[0]) else None
    }

    method BeginCall(f: Function)
      requires Valid() && active == NoFunction && f != NoFunction
      modifies this`active, this`entryArgs, this`pendingFreePtr, this`findings, this`history
      ensures Valid() && history == old(history) + [Enter(f, cpu.gpr[Signals.RDI], cpu.gpr[Signals.RSI])]
    {
      hide SoftMmu.Flat, SoftMmu.Valid, OnEnter, After, Alternates;
      ActiveIsPending(history);
      OnFunctionEnter(f);
      Extended(history, Enter(f, cpu.gpr[Signals.RDI], cpu.gpr[Signals.RSI]));
      history := history + [Enter(f, cpu.gpr[Signals.RDI], cpu.gpr[Signals.RSI])];
    }

    method EndCall()
      requires Valid() && active != NoFunction
      modifies this`active, this`allocations, this`freed, this`findings, this`pendingFreePtr, this`history, mmu.Repr
      ensures Valid() && mmu.Repr == old(mmu.Repr) && history == old(history) + [Leave(cpu.gpr[0])]
      ensures mmu.Flat() == ShadowCleared(old(mmu.Flat()), NewRange(old(View()), cpu.gpr[0]))
    {
      hide SoftMmu.Flat, SoftMmu.Valid, OnLeave, After, Alternates, ShadowCleared, NewRange;
      ActiveIsPending(history);
      OnFunctionLeave();
      active := NoFunction;
      Extended(history, Leave(cpu.gpr[0]));
      history := history + [Leave(cpu.gpr[0])];
    }

    method Step()
      requires Valid()
      modifies this`active, this`entryArgs, this`pendingFreePtr, this`allocations, this`freed, this`findings, this`history, mmu.Repr
      ensures Valid() && mmu.Repr == old(mmu.Repr)
      ensures history == old(history) + if old(StepEvent()).Some? then [old(StepEvent()).value] else []
      ensures mmu.Flat() == ShadowCleared(old(mmu.Flat()), old(StepRange()))
    {
      hide SoftMmu.Flat, SoftMmu.Valid, InternalCaller, Detected, NewRange, Marked, After, Alternates, Apply;
      if !enabled {
        return;
      }
      var current := Detected(symbols, cpu.rip);
      if active == NoFunction {
        if current != NoFunction {
          var caller := CallerIsInternal();
          if !caller {
            BeginCall(current);
          }
        }
        return;
      }
      if !internal(cpu.rip) && current == NoFunction {
        EndCall();
      }
    }

    // ----- reads and writes -----

    method OnMemoryWrite(a: u64)
      requires Valid()
      modifies this`allocations, this`findings, this`history
      ensures Valid()
      ensures history == old(history) + if enabled then [WriteByte(a, !internal(cpu.rip))] else []
    {
      hide SoftMmu.Flat, SoftMmu.Valid, MarkWritten, HeapHistory.JudgeWrite, After, Alternates;
      if !enabled {
        return;
      }
      Extended(history, WriteByte(a, !internal(cpu.rip)));
      history := history + [WriteByte(a, !internal(cpu.rip))];
      MarkLiveByte(a);
      JudgeWrite(a, !internal(cpu.rip));
    }

    method MarkLiveByte(a: u64)
      modifies this`allocations
      ensures View() == MarkWritten(old(View()), a)
    {
      hide Containing, MarkByte;
      var found := Containing(allocations, a);
      if found.Some? {
        allocations := allocations[found.value := MarkByte(allocations[found.value], a)];
      }
    }

    method JudgeWrite(a: u64, byGuest: bool)
      modifies this`findings
      ensures View() == HeapHistory.JudgeWrite(old(View()), a, byGuest)
    {
      hide Containing, JustPast;
      if active != NoFunction || !byGuest {
        return;
      }
      var dead := Containing(freed, a);
      if dead.Some? {
        findings := findings + [WriteAfterFree(a)];
        return;
      }
      var past := FindJustPast(a);
      if past {
        findings := findings + [HeapOverflow(a)];
      }
    }

    /** The scan for a live block that ends just before the address. */
    method FindJustPast(a: u64) returns (past: bool)
      ensures past <==> JustPast(allocations, a)
    {
      hide NearEnd;
      var rest := allocations.Keys;
      while rest != {}
        invariant rest <= allocations.Keys
        invariant forall k :: k in allocations && k !in rest ==> !NearEnd(allocations[k], k, a)
      {
        var k :| k in rest;
        if NearEnd(allocations[k], k, a) {
          return true;
        }
        rest := rest - {k};
      }
      return false;
    }

    method OnMemoryRead(a: u64)
      requires Valid()
      modifies this`findings, this`history
      ensures Valid()
      ensures history == old(history) + if enabled then [ReadByte(a, !internal(cpu.rip))] else []
    {
      hide SoftMmu.Flat, SoftMmu.Valid, Containing, Wrap;
      if !enabled {
        return;
      }
      Extended(history, ReadByte(a, !internal(cpu.rip)));
      history := history + [ReadByte(a, !internal(cpu.rip))];
      if active != NoFunction || internal(cpu.rip) {
        return;
      }
      var dead := Containing(freed, a);
      if dead.Some? {
        findings := findings + [ReadAfterFree(a)];
        return;
      }
      var found := Containing(allocations, a);
      if found.Some? {
        var record := allocations[found.value];
        if |record.written| != 0 {
          var offset: int := Wrap(a - record.ptr);
          if offset < |record.written| && !record.written[offset] {
            findings := findings + [UninitializedRead(a)];
          }
        }
      }
    }

    // ----- the leak report -----

    /** The live blocks a register or writable memory leads to, directly or through other blocks:
        exactly the least closed set. It fails only on a heap word that cannot be read. */
    method ComputeReachableAllocations() returns (r: Result<set<u64>>)
      requires Valid() && Fair(history)
      ensures Valid()
      ensures r.Ok? ==> Least(allocations, mmu.Flat(), cpu.gpr, r.value)
      ensures HeapReadable(allocations, mmu.Flat()) ==> r.Ok?
    {
      hide *;
      HeapIsPlaced();
      ghost var m := mmu.Flat();
      if allocations == map[] {
        NothingLive(m, cpu.gpr);
        return Ok({});
      }
      var s := ConsiderRegisters();
      s := ConsiderRegions(s);
      StartFollowed(allocations, m, cpu.gpr, s);
      while |s.worklist| > 0
        invariant Followed(allocations, m, s) && RootsFound(allocations, m, cpu.gpr, s.reachable)
        invariant Minimal(allocations, m, cpu.gpr, s.reachable)
        decreases |allocations.Keys - s.reachable|, |s.worklist|
      {
        var base, rest := s.worklist[|s.worklist| - 1], s.worklist[..|s.worklist| - 1];
        ghost var before := s;
        PoppedIsLive(allocations, m, s);
        var next := ConsiderBlock(base, Search(s.reachable, rest));
        if next.Err? {
          return Err(next.error);
        }
        s := next.value;
        PoppedStep(allocations, m, cpu.gpr, before, base, rest, s);
      }
      EmptyWorklist(allocations, m, cpu.gpr, s);
      return Ok(s.reachable);
    }

    lemma HeapIsPlaced()
      requires Valid() && Fair(history)
      ensures Attached() && mmu.Valid() && Heap(allocations)
    {
      hide SoftMmu.Valid, SoftMmu.Flat, Placed, LiveMatches, FreedMatches, WrittenMatches;
      MapsMeanHistory(history);
    }

    method ConsiderRegisters() returns (s: Search)
      requires Attached() && Heap(allocations)
      ensures Scanned(allocations, mmu.Flat(), cpu.gpr, Search({}, []), s)
      ensures forall i :: 0 <= i < 16 ==> Found(allocations, cpu.gpr[i], s.reachable)
    {
      hide SoftMmu.Valid, SoftMmu.Flat, Scanned, Found, Closed, Consider, Heap;
      s := Search({}, []);
      NothingScanned(allocations, mmu.Flat(), cpu.gpr);
      for i := 0 to 16
        invariant Scanned(allocations, mmu.Flat(), cpu.gpr, Search({}, []), s)
        invariant forall j :: 0 <= j < i ==> Found(allocations, cpu.gpr[j], s.reachable)
      {
        RegisterJustified(allocations, mmu.Flat(), cpu.gpr, i);
        ConsiderScanned(allocations, mmu.Flat(), cpu.gpr, Search({}, []), s, cpu.gpr[i]);
        ghost var before := s;
        s := Consider(allocations, s, cpu.gpr[i]);
        ScannedGrows(allocations, mmu.Flat(), cpu.gpr, before, s);
        forall j | 0 <= j < i ensures Found(allocations, cpu.gpr[j], s.reachable) {
          FoundGrows(allocations, cpu.gpr[j], before.reachable, s.reachable);
        }
      }
    }

    /** The words of one block, as `read64` gives them. */
    method ConsiderBlock(base: u64, start: Search) returns (r: Result<Search>)
      requires Attached() && Heap(allocations) && base in allocations && base in start.reachable
      requires Minimal(allocations, mmu.Flat(), cpu.gpr, start.reachable)
      ensures r.Ok? ==> Scanned(allocations, mmu.Flat(), cpu.gpr, start, r.value)
      ensures r.Ok? ==> WordsFound(allocations, mmu.Flat(), base, allocations[base].size, r.value.reachable)
      ensures HeapReadable(allocations, mmu.Flat()) ==> r.Ok?
    {
      hide SoftMmu.Valid, SoftMmu.Flat, Scanned, Found, Closed, Consider, Minimal, WordsFound, LoadWord, RawWord;
      var s, size: int, offset: int := start, allocations[base].size, 0;
      ScannedSelf(allocations, mmu.Flat(), cpu.gpr, s);
      NoWords(allocations, mmu.Flat(), base, s.reachable);
      while offset + 8 <= size
        invariant offset >= 0 && offset % 8 == 0
        invariant Scanned(allocations, mmu.Flat(), cpu.gpr, start, s) && base in s.reachable
        invariant WordsFound(allocations, mmu.Flat(), base, offset, s.reachable)
      {
        assert WordOffset(size, offset) && At(base, offset) == base + offset;
        var word := Read64(At(base, offset));
        if word.Err? {
          return Err(word.error);
        }
        LoadedIsRaw(mmu.Flat(), base + offset);
        ScannedMinimal(allocations, mmu.Flat(), cpu.gpr, start, s);
        WordJustified(allocations, mmu.Flat(), cpu.gpr, s.reachable, base, offset);
        ConsiderScanned(allocations, mmu.Flat(), cpu.gpr, start, s, word.value);
        ghost var before := s;
        s := Consider(allocations, s, word.value);
        ScannedGrows(allocations, mmu.Flat(), cpu.gpr, before, s);
        WordsFoundGrow(allocations, mmu.Flat(), base, offset, before.reachable, s.reachable);
        WordsStep(allocations, mmu.Flat(), base, offset, s.reachable);
        offset := offset + 8;
      }
      WordsEnd(allocations, mmu.Flat(), base, offset, size, s.reachable);
      return Ok(s);
    }

    method Read64(a: u64) returns (r: Result<u64>)
      requires Attached()
      ensures r == LoadWord(mmu.Flat(), a)
    {
      hide SoftMmu.Valid, SoftMmu.Flat, Load;
      var bs := mmu.ReadWithShadow(a, 8);
      if bs.Err? {
        return Err(bs.error);
      }
      EightBytes(Values(bs.value));
      return Ok(FromBytes(Values(bs.value)));
    }

    /** The words of all writable regions, read without any protection check. */
    method ConsiderRegions(start: Search) returns (s: Search)
      requires Attached() && Heap(allocations)
      requires Scanned(allocations, mmu.Flat(), cpu.gpr, Search({}, []), start)
      requires forall i :: 0 <= i < 16 ==> Found(allocations, cpu.gpr[i], start.reachable)
      ensures Scanned(allocations, mmu.Flat(), cpu.gpr, Search({}, []), s)
      ensures RootsFound(allocations, mmu.Flat(), cpu.gpr, s.reachable)
    {
      hide SoftMmu.Valid, SoftMmu.Flat, Scanned, Found, Closed, Consider, Heap, StretchScanned, RootWord, RawWord;
      s := start;
      ScannedMinimal(allocations, mmu.Flat(), cpu.gpr, Search({}, []), s);
      ScannedSelf(allocations, mmu.Flat(), cpu.gpr, s);
      for i := 0 to |mmu.regions|
        invariant Scanned(allocations, mmu.Flat(), cpu.gpr, start, s)
        invariant forall j :: 0 <= j < i ==>
          StretchScanned(allocations, mmu.Flat(), mmu.regions[j].base, mmu.regions[j].size, s.reachable)
      {
        ghost var before := s;
        s := ConsiderRegion(i, s, start);
        ScannedGrows(allocations, mmu.Flat(), cpu.gpr, before, s);
        forall j | 0 <= j < i
          ensures StretchScanned(allocations, mmu.Flat(), mmu.regions[j].base, mmu.regions[j].size, s.reachable)
        {
          StretchGrows(allocations, mmu.Flat(), mmu.regions[j].base, mmu.regions[j].size, before.reachable, s.reachable);
        }
      }
      ScannedGrows(allocations, mmu.Flat(), cpu.gpr, start, s);
      forall i | 0 <= i < 16 ensures Found(allocations, cpu.gpr[i], s.reachable) {
        FoundGrows(allocations, cpu.gpr[i], start.reachable, s.reachable);
      }
      AllRegionsScanned(s.reachable);
      ScannedOn(allocations, mmu.Flat(), cpu.gpr, Search({}, []), start, s);
    }

    method ConsiderRegion(i: nat, start: Search, ghost first: Search) returns (s: Search)
      requires Attached() && Heap(allocations) && i < |mmu.regions|
      requires Scanned(allocations, mmu.Flat(), cpu.gpr, first, start)
      ensures Scanned(allocations, mmu.Flat(), cpu.gpr, first, s)
      ensures Scanned(allocations, mmu.Flat(), cpu.gpr, start, s)
      ensures StretchScanned(allocations, mmu.Flat(), mmu.regions[i].base, mmu.regions[i].size, s.reachable)
    {
      hide SoftMmu.Valid, SoftMmu.Flat, Scanned, Found, Closed, Consider, StretchScanned, RootWord, RawWord, Heap, Base;
      var region, offset := mmu.regions[i], 0;
      s := start;
      RegionCells(i);
      ScannedMinimal(allocations, mmu.Flat(), cpu.gpr, first, s);
      ScannedSelf(allocations, mmu.Flat(), cpu.gpr, s);
      if Write !in region.prot || region.size < 8 {
        NoRoots(allocations, mmu.Flat(), region.base, region.size, region.prot, s.reachable);
        return;
      }
      NoStretch(allocations, mmu.Flat(), region.base, s.reachable);
      while offset + 8 <= region.size
        invariant offset >= 0 && offset % 8 == 0
        invariant Scanned(allocations, mmu.Flat(), cpu.gpr, first, s) && Scanned(allocations, mmu.Flat(), cpu.gpr, start, s)
        invariant StretchScanned(allocations, mmu.Flat(), region.base, offset, s.reachable)
      {
        RegionWord(i, offset);
        BaseIsExact(allocations, region.base + offset);
        if Base(allocations, region.base + offset) == 0 {
          var value := FromBytes(region.bytes[offset..offset + 8]);
          EightBytes(region.bytes[offset..offset + 8]);
          OutsideIsRoot(allocations, mmu.Flat(), region.base + offset);
          RootJustified(allocations, mmu.Flat(), cpu.gpr, region.base + offset);
          ConsiderScanned(allocations, mmu.Flat(), cpu.gpr, first, s, value);
          ghost var before := s;
          ConsiderScanned(allocations, mmu.Flat(), cpu.gpr, start, s, value);
          s := Consider(allocations, s, value);
          ScannedGrows(allocations, mmu.Flat(), cpu.gpr, before, s);
          StretchGrows(allocations, mmu.Flat(), region.base, offset, before.reachable, s.reachable);
        } else {
          InsideIsNoRoot(allocations, mmu.Flat(), region.base + offset);
        }
        StretchStep(allocations, mmu.Flat(), region.base, offset, s.reachable);
        offset := offset + 8;
      }
      StretchEnd(allocations, mmu.Flat(), region.base, offset, region.size, s.reachable);
    }

    /** Region i, seen in the flat memory. */
    lemma RegionCells(i: nat)
      requires Attached() && i < |mmu.regions|
      ensures var r := mmu.regions[i]; r.Valid() && r.base % 8 == 0 && r.size % 8 == 0 && r.End() < TWO_64
      ensures var r := mmu.regions[i]; forall a :: r.base <= a < r.End() ==> a in mmu.Flat() && mmu.Flat()[a].prot == r.prot
    {
      hide RegionList.Flatten, Aligned, RegionList.WellFormed, RegionList.Granular;
      RegionShape(i);
      ViewBounds(mmu.regions);
      forall a | mmu.regions[i].base <= a < mmu.regions[i].End() ensures a in mmu.Flat() && mmu.Flat()[a].prot == mmu.regions[i].prot {
        assert Views(mmu.regions)[i] == mmu.regions[i].View();
        RegionList.FlattenCovers(Views(mmu.regions), i, a);
      }
    }

    lemma RegionShape(i: nat)
      requires mmu.Valid() && i < |mmu.regions|
      ensures var r := mmu.regions[i]; r.Valid() && r.base % 8 == 0 && r.size % 8 == 0 && r.End() < TWO_64
    {
      hide RegionList.Flatten, Aligned, Distinct;
      var r := mmu.regions[i];
      assert Views(mmu.regions)[i] == r.View();
      AlignedSum(r.End(), r.base);
      AlignedToWords(r.base);
      AlignedToWords(r.size);
    }

    lemma RegionWord(i: nat, offset: nat)
      requires Attached() && i < |mmu.regions| && mmu.regions[i].Valid() && offset + 8 <= mmu.regions[i].size
      ensures RawWord(mmu.Flat(), mmu.regions[i].base + offset) == FromBytes(mmu.regions[i].bytes[offset..offset + 8])
    {
      hide RegionList.Flatten, FromBytes;
      var r := mmu.regions[i];
      assert Views(mmu.regions)[i] == r.View();
      var raw, bytes := RawBytes(mmu.Flat(), r.base + offset), r.bytes[offset..offset + 8];
      forall j | 0 <= j < 8 ensures raw[j] == bytes[j] {
        RegionList.FlattenCovers(Views(mmu.regions), i, r.base + offset + j);
      }
      assert raw == bytes;
    }

    /** Every root word lies in some region, at a word offset. */
    lemma AllRegionsScanned(s: set<u64>)
      requires Attached()
      requires forall j :: 0 <= j < |mmu.regions| ==>
        StretchScanned(allocations, mmu.Flat(), mmu.regions[j].base, mmu.regions[j].size, s)
      ensures forall a :: RootWord(allocations, mmu.Flat(), a) ==> Found(allocations, RawWord(mmu.Flat(), a), s)
    {
      hide StretchScanned, RawWord, Found;
      forall a | RootWord(allocations, mmu.Flat(), a) ensures Found(allocations, RawWord(mmu.Flat(), a), s) {
        var j := RegionOf(a);
        RegionCells(j);
        StretchHas(allocations, mmu.Flat(), mmu.regions[j].base, mmu.regions[j].size, s, a);
      }
    }

    lemma RegionOf(a: int) returns (j: nat)
      requires Attached() && a in mmu.Flat()
      ensures j < |mmu.regions| && mmu.regions[j].base <= a < mmu.regions[j].End()
    {
      j :| 0 <= j < |Views(mmu.regions)| && Views(mmu.regions)[j].Covers(a);
      ViewBounds(mmu.regions);
    }
  }

  lemma Extended(h: seq<Event>, e: Event)
    ensures After(h + [e]) == Apply(After(h), e)
    ensures Alternates(h + [e]) <==> Alternates(h) && CanFollow(h, e)
  {
    assert (h + [e])[..|h|] == h;
  }
}
