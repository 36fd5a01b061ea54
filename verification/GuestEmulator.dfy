/** The emulator object: signal delivery, the initial stack and the program break, updating the
    CPU and the MMU in place. Every method is proved against the function that specifies it. */
module GuestEmulator {
  import opened Words
  import opened FlatMemory
  import opened GuestWords
  import opened Registers
  import opened Alu
  import opened Signals
  import opened InitialStack
  import opened GuestMmu
  import opened GuestCpu
  import Cpu
  import RegionList

  const STACK_BASE: u64 := 0x7fff_ff00_0000
  const STACK_SIZE: u64 := 0x80_0000

  /** What `set_brk` works on. */
  datatype Break = Break(start: u64, current: u64, regionEnd: u64, mem: Memory)

  /** `set_brk`: the new state, or the mapping error that stops it. */
  function AfterSetBrk(b: Break, requested: u64): Result<Break> {
    if requested == 0 || requested < b.start then Ok(b)
    else if PageAlignUp(requested) <= b.regionEnd || requested <= b.regionEnd then Ok(b.(current := requested))
    else
      var grown := PageAlignUp(requested) - b.regionEnd;
      match MapError(b.mem, b.regionEnd, grown)
      case Some(e) => Err(e)
      case None =>
        Ok(b.(current := requested, regionEnd := PageAlignUp(requested),
              mem := b.mem + ZeroCells(b.regionEnd, grown, {Read, Write}, "[brk]", Simple)))
  }

  /** The break lies within the pages mapped for it, which start and end on page boundaries. */
  predicate BreakCovered(b: Break) {
    && Aligned(b.start) && Aligned(b.regionEnd) && b.start <= b.current <= b.regionEnd
    && AllMapped(b.mem, b.start, b.regionEnd)
  }

  predicate AllMapped(m: Memory, lo: int, hi: int) {
    forall a :: lo <= a < hi ==> a in m
  }

  /** The request is past the pages mapped so far, and rounding it up does not wrap to zero. */
  predicate Grows(b: Break, requested: u64) {
    b.start <= requested <= TWO_64 - PAGE_SIZE && requested > b.regionEnd
  }

  /** The first page boundary at or above x. */
  predicate IsPageEnd(end: int, x: int) {
    end % PAGE_SIZE == 0 && x <= end < x + PAGE_SIZE
  }

  /** A fresh byte of heap: zero, defined, readable and writable. */
  const HEAP_BYTE: Cell := Cell(0, true, {Read, Write}, "[brk]", Simple)

  /** A request keeps the break covered exactly when it is not in the last page, where rounding up
      wraps to zero and no page is mapped. */
  lemma SetBrkCovers(b: Break, requested: u64)
    requires BreakCovered(b) && AfterSetBrk(b, requested).Ok? && b.regionEnd <= TWO_64 - PAGE_SIZE
    ensures BreakCovered(AfterSetBrk(b, requested).value) <==> requested <= TWO_64 - PAGE_SIZE
  {
    hide Aligned, Free;
  }

  /** The break moves to the request, unless it is 0 or below the start; then it stays. */
  lemma SetBrkMoves(b: Break, requested: u64)
    requires AfterSetBrk(b, requested).Ok?
    ensures var b' := AfterSetBrk(b, requested).value;
      b'.start == b.start && b'.current == if requested != 0 && requested >= b.start then requested else b.current
  {
    hide Aligned, Free, ZeroCells;
  }

  /** It fails exactly if it has to grow over something mapped. */
  lemma SetBrkFails(b: Break, requested: u64)
    requires Aligned(b.regionEnd)
    ensures AfterSetBrk(b, requested).Err? <==>
      requested != 0 && Grows(b, requested) && !Free(b.mem, b.regionEnd, PageAlignUp(requested) - b.regionEnd)
    ensures AfterSetBrk(b, requested).Err? ==> AfterSetBrk(b, requested).error == MappingOverlap
  {
    hide Aligned, Free, ZeroCells;
    BeyondEnd(b.regionEnd, requested);
  }

  /** Rounding up cannot stop short of an aligned end the request is past. */
  lemma BeyondEnd(end: u64, requested: u64)
    requires Aligned(end)
    ensures requested <= end ==> PageAlignUp(requested) <= end
    ensures end < requested <= TWO_64 - PAGE_SIZE ==> PageAlignUp(requested) > end
  {
    hide Aligned, PageAlignUp;
    if end < PageAlignUp(requested) {
      AlignedApart(end, PageAlignUp(requested));
    }
  }

  /** Growing touches no mapped cell, and maps exactly the pages from the old end to the end of the page
      of the request; without growth no cell changes. */
  lemma SetBrkConserves(b: Break, requested: u64, a: int)
    requires Aligned(b.regionEnd) && AfterSetBrk(b, requested).Ok?
    ensures var b' := AfterSetBrk(b, requested).value;
      && (a in b.mem ==> a in b'.mem && b'.mem[a] == b.mem[a])
      && (requested == 0 || !Grows(b, requested) ==> b'.mem == b.mem && b'.regionEnd == b.regionEnd)
      && (requested != 0 && Grows(b, requested) ==>
        && IsPageEnd(b'.regionEnd, requested)
        && (a !in b.mem ==> (a in b'.mem <==> b.regionEnd <= a < b'.regionEnd))
        && (b.regionEnd <= a < b'.regionEnd ==> a !in b.mem && a in b'.mem && b'.mem[a] == HEAP_BYTE))
  {
    hide Aligned, PageAlignUp;
    BeyondEnd(b.regionEnd, requested);
    AlignedIsModulo(PageAlignUp(requested));
  }

  class Emulator {
    const mmu: SoftMmu
    const cpu: SoftCpu64
    var pending: u64
    var mask: u64
    var actions: Actions
    var trampoline: u64
    var stackTop: u64
    var brkStart: u64
    var brk: u64
    var brkRegionEnd: u64

    constructor (mmu: SoftMmu, cpu: SoftCpu64, brkStart: u64)
      requires mmu.Valid() && cpu.Valid() && cpu.mmu == mmu
      ensures Valid() && this.mmu == mmu && this.cpu == cpu
      ensures pending == 0 && mask == 0 && brk == brkRegionEnd == this.brkStart == PageAlignUp(brkStart)
    {
      this.mmu, this.cpu, pending, mask, trampoline, stackTop := mmu, cpu, 0, 0, 0, 0;
      actions := seq(64, _ => Action(0, 0, 0, 0));
      this.brkStart, brk, brkRegionEnd := PageAlignUp(brkStart), PageAlignUp(brkStart), PageAlignUp(brkStart);
    }

    ghost predicate Valid()
      reads this, cpu, mmu, mmu.Repr
    {
      cpu.mmu == mmu && cpu.Valid() && this !in mmu.Repr && Aligned(brkRegionEnd)
    }

    /** The state signal delivery is specified on. */
    ghost function View(): Guest
      requires Valid()
      reads this, cpu, mmu, mmu.Repr
    {
      Guest(cpu.View(), pending, mask, actions, trampoline)
    }

    // ----- words in guest memory -----

    method Write64(a: u64, v: u64) returns (error: Option<Error>)
      requires Valid()
      modifies mmu.Repr
      ensures Valid() && mmu.Repr == old(mmu.Repr)
      ensures Stored(mmu.Flat(), error) == Store(old(mmu.Flat()), a, WordBytes(v))
    {
      hide SoftMmu.Flat, SoftMmu.Valid, Store, WordBytes;
      error := mmu.WriteWithShadow(a, WordBytes(v));
    }

    method Read64(a: u64) returns (r: Result<u64>)
      requires Valid()
      ensures Valid() && r == LoadWord(mmu.Flat(), a)
    {
      hide SoftMmu.Flat, SoftMmu.Valid, Load;
      var bs := mmu.ReadWithShadow(a, 8);
      if bs.Err? {
        return Err(bs.error);
      }
      EightBytes(Values(bs.value));
      return Ok(FromBytes(Values(bs.value)));
    }

    method WriteWords(a: u64, ws: seq<u64>) returns (error: Option<Error>)
      requires Valid()
      modifies mmu.Repr
      ensures Valid() && mmu.Repr == old(mmu.Repr)
      ensures Stored(mmu.Flat(), error) == StoreWords(old(mmu.Flat()), a, ws)
    {
      hide SoftMmu.Flat, SoftMmu.Valid, Store, WordBytes;
      AtSteps(a);
      for i := 0 to |ws|
        invariant Valid() && mmu.Repr == old(mmu.Repr)
        invariant StoreWords(old(mmu.Flat()), a, ws) == StoreWords(mmu.Flat(), At(a, 8 * i), ws[i..])
      {
        WrapTwice(a + 8 * i, 8);
        assert At(At(a, 8 * i), 8) == At(a, 8 * (i + 1));
        error := Write64(At(a, 8 * i), ws[i]);
        if error.Some? {
          return;
        }
        assert ws[i..][1..] == ws[i + 1..];
      }
      error := None;
    }

    method ReadWords(a: u64, n: nat) returns (r: Result<seq<u64>>)
      requires Valid()
      ensures Valid() && r == LoadWords(mmu.Flat(), a, n)
    {
      hide SoftMmu.Flat, SoftMmu.Valid, LoadWord;
      var read: seq<u64> := [];
      AtSteps(a);
      AllRead(LoadWords(mmu.Flat(), a, n));
      for i := 0 to n
        invariant |read| == i
        invariant LoadWords(mmu.Flat(), a, n) == AlsoRead(read, LoadWords(mmu.Flat(), At(a, 8 * i), n - i))
      {
        WrapTwice(a + 8 * i, 8);
        assert At(At(a, 8 * i), 8) == At(a, 8 * (i + 1));
        var w := Read64(At(a, 8 * i));
        if w.Err? {
          return Err(w.error);
        }
        AlsoReadStep(read, w.value, LoadWords(mmu.Flat(), At(a, 8 * (i + 1)), n - i - 1));
        read := read + [w.value];
      }
      assert read + [] == read;
      return Ok(read);
    }

    // ----- signals -----

    /** Queues a signal; out of range is EINVAL. */
    method DeliverSignal(signum: int) returns (ok: bool)
      requires Valid()
      modifies this`pending
      ensures Valid() && (ok <==> 1 <= signum < 64)
      ensures View() == if ok then old(View()).(pending := WithSignal(old(pending), signum, true)) else old(View())
      ensures ok ==> forall k: nat :: Flag(pending, k) == (k == signum - 1 || Flag(old(pending), k))
    {
      hide SoftMmu.Flat, SoftMmu.Valid, SetFlag, Flag;
      ok := 1 <= signum < 64;
      if ok {
        SetFlagBits(pending, signum - 1, true);
        pending := WithSignal(pending, signum, true);
      }
    }

    method DispatchPendingSignal() returns (outcome: Dispatched)
      requires Valid()
      modifies this`pending, this`mask, cpu, mmu.Repr
      ensures Valid() && mmu.Repr == old(mmu.Repr)
      ensures (View(), outcome) == Dispatch(old(View()))
    {
      hide SoftMmu.Flat, SoftMmu.Valid, Deliverable, WithSignal, EnterHandler, PushedWords, StoreWords, FrameAddress;
      for signum := 1 to 64
        invariant Valid() && View() == old(View()) && mmu.Repr == old(mmu.Repr)
        invariant FirstDeliverable(pending, mask, 1) == FirstDeliverable(pending, mask, signum)
      {
        if Deliverable(pending, mask, signum) {
          pending := WithSignal(pending, signum, false);
          var action := actions[signum];
          if action.handler == 1 {
            return Ignored;
          }
          if action.handler == 0 {
            return if DefaultIgnored(signum) then Ignored else Terminated(128 + signum);
          }
          outcome := PushFrame(signum);
          return;
        }
      }
      return Idle;
    }

    /** `rt_sigprocmask`: writes the old mask if asked to, then changes the mask if asked to; an
        invalid `how` is EINVAL (false). */
    method SetSignalMask(how: int, setAddress: u64, oldAddress: u64) returns (r: Result<bool>)
      requires Valid()
      modifies this`mask, mmu.Repr
      ensures Valid() && mmu.Repr == old(mmu.Repr)
      ensures var m := old(mmu.Flat());
        var stored := if oldAddress == 0 then Stored(m, None) else Store(m, oldAddress, WordBytes(old(mask)));
        && mmu.Flat() == stored.mem
        && if stored.error.Some? then r == Err(stored.error.value) && mask == old(mask)
          else if setAddress == 0 then r == Ok(true) && mask == old(mask)
          else match LoadWord(stored.mem, setAddress)
            case Err(e) => r == Err(e) && mask == old(mask)
            case Ok(operand) =>
              var changed := ChangedMask(how, old(mask), operand);
              r == Ok(changed.Some?) && mask == if changed.Some? then changed.value else old(mask)
    {
      hide SoftMmu.Flat, SoftMmu.Valid, Store, WordBytes, LoadWord, Or, And, Not, WithSignal, Aligned;
      if oldAddress != 0 {
        var error := Write64(oldAddress, mask);
        if error.Some? {
          return Err(error.value);
        }
      }
      if setAddress == 0 {
        return Ok(true);
      }
      var read := Read64(setAddress);
      if read.Err? {
        return Err(read.error);
      }
      var wanted := WithSignal(WithSignal(read.value, SIGKILL, false), SIGSTOP, false);
      if how == 0 {
        mask := Or(mask, wanted);
      } else if how == 1 {
        mask := And(mask, Not(wanted));
      } else if how == 2 {
        mask := wanted;
      } else {
        return Ok(false);
      }
      return Ok(true);
    }

    /** Builds the frame and enters the handler. */
    method PushFrame(signum: Signal) returns (outcome: Dispatched)
      requires Valid()
      modifies this`mask, cpu, mmu.Repr
      ensures Valid() && mmu.Repr == old(mmu.Repr)
      ensures var g, frame := old(View()), FrameAddress(old(cpu.gpr[RSP]));
        var stored := StoreWords(g.cpu.mem, Wrap(frame - 8), PushedWords(g, signum));
        if stored.error.Some? then View() == g.(cpu := g.cpu.(mem := stored.mem)) && outcome == Aborted(stored.error.value)
        else View() == EnterHandler(g, signum, stored.mem) && outcome == Entered(signum, frame)
    {
      hide SoftMmu.Flat, SoftMmu.Valid, StoreWords, FrameAddress, WithSignal, Or;
      var frame: int := FrameAddress(cpu.gpr[RSP]);
      var handlerRsp := Wrap(frame - 8);
      var restorer := if actions[signum].restorer != 0 then actions[signum].restorer else trampoline;
      var saved := [FRAME_MAGIC, mask, cpu.rip, cpu.rflags] + cpu.gpr + [cpu.fsBase, cpu.gsBase];
      assert [restorer] + saved == PushedWords(View(), signum);
      var error := WriteWords(handlerRsp, [restorer] + saved);
      if error.Some? {
        return Aborted(error.value);
      }
      mask := WithSignal(Or(mask, actions[signum].mask), signum, true);
      SetHandlerContext(signum, handlerRsp);
      return Entered(signum, frame);
    }

    method SetHandlerContext(signum: Signal, handlerRsp: u64)
      requires Valid()
      modifies cpu`gpr, cpu`rip
      ensures Valid() && cpu.rip == actions[signum].handler
      ensures cpu.gpr == old(cpu.gpr)[RDI := signum][RSI := 0][RDX := 0][RSP := handlerRsp]
    {
      hide SoftMmu.Valid;
      cpu.gpr := cpu.gpr[RDI := signum];
      cpu.gpr := cpu.gpr[RSI := 0];
      cpu.gpr := cpu.gpr[RDX := 0];
      cpu.gpr := cpu.gpr[RSP := handlerRsp];
      cpu.rip := actions[signum].handler;
    }

    /** Restores the context of the frame the stack pointer is at; returns its RAX. */
    method HandleSigreturn() returns (rax: Result<u64>)
      requires Valid()
      modifies this`mask, cpu
      ensures Valid()
      ensures Sigreturn(old(View())) == if rax.Ok? then Ok(View()) else Err(rax.error)
      ensures rax.Ok? ==> rax.value == cpu.gpr[0]
    {
      hide SoftMmu.Flat, SoftMmu.Valid, LoadWords, LoadWord;
      var frame := cpu.gpr[RSP];
      var magic := Read64(frame);
      if magic.Err? {
        return Err(magic.error);
      }
      if magic.value != FRAME_MAGIC {
        return Err(BadSignalFrame(frame));
      }
      var words := ReadWords(At(frame, 8), 21);
      if words.Err? {
        return Err(words.error);
      }
      Restore(magic.value, words.value);
      return Ok(cpu.gpr[0]);
    }

    method Restore(ghost magic: u64, words: seq<u64>)
      requires Valid() && |words| == 21
      modifies this`mask, cpu`gpr, cpu`rip, cpu`rflags, cpu`fsBase, cpu`gsBase
      ensures Valid() && View() == RestoreContext(old(View()), ContextFrom([magic] + words))
    {
      hide SoftMmu.Flat, SoftMmu.Valid;
      ghost var all := [magic] + words;
      assert all[4..20] == words[3..19] && all[20] == words[19] && all[21] == words[20];
      mask := words[0];
      cpu.gpr := words[3..19];
      cpu.fsBase, cpu.gsBase := words[19], words[20];
      cpu.rflags, cpu.rip := words[2], words[1];
    }

    // ----- the program break -----

    ghost function BreakView(): Break
      requires Valid()
      reads this, cpu, mmu, mmu.Repr
    {
      Break(brkStart, brk, brkRegionEnd, mmu.Flat())
    }

    method SetBrk(requested: u64) returns (r: Result<u64>)
      requires Valid()
      modifies this`brk, this`brkRegionEnd, mmu`regions, mmu`Repr
      ensures Valid() && fresh(mmu.Repr - old(mmu.Repr))
      ensures AfterSetBrk(old(BreakView()), requested) == if r.Ok? then Ok(BreakView()) else Err(r.error)
      ensures r.Ok? ==> r.value == brk
    {
      hide SoftMmu.Flat, SoftMmu.Valid, Aligned, ZeroCells, PageAlignUp, PageAlignDown, MapError;
      if requested == 0 || requested < brkStart {
        return Ok(brk);
      }
      if requested > brkRegionEnd {
        var newEnd := PageAlignUp(requested);
        if newEnd > brkRegionEnd {
          GrowthIsAligned(brkRegionEnd, newEnd);
          var error := mmu.MapZeroed(brkRegionEnd, newEnd - brkRegionEnd, {Read, Write}, "[brk]", Simple);
          if error.Some? {
            return Err(error.value);
          }
          brkRegionEnd := newEnd;
        }
      }
      brk := requested;
      return Ok(brk);
    }

    // ----- the initial stack -----

    ghost function StackView(): Stack
      requires Valid()
      reads this, cpu, mmu, mmu.Repr
    {
      Stack(mmu.Flat(), stackTop)
    }

    method PushBytes(bs: seq<u8>) returns (error: Option<Error>)
      requires Valid()
      modifies this`stackTop, mmu.Repr
      ensures Valid() && mmu.Repr == old(mmu.Repr)
      ensures InitialStack.PushBytes(old(StackView()), bs) == if error.None? then Ok(StackView()) else Err(error.value)
    {
      hide SoftMmu.Flat, SoftMmu.Valid, Store, Clear;
      stackTop := Wrap(stackTop - |bs|);
      error := mmu.WriteWithShadow(stackTop, Clear(bs));
    }

    method Push64(w: u64) returns (error: Option<Error>)
      requires Valid()
      modifies this`stackTop, mmu.Repr
      ensures Valid() && mmu.Repr == old(mmu.Repr)
      ensures PushWord(old(StackView()), w) == if error.None? then Ok(StackView()) else Err(error.value)
    {
      hide SoftMmu.Flat, SoftMmu.Valid, Store;
      stackTop := Wrap(stackTop - 8);
      error := Write64(stackTop, w);
    }

    /** Pushes the strings from last to first; their addresses come out in the original order. */
    method PushStrings(texts: seq<seq<u8>>) returns (r: Result<seq<u64>>)
      requires Valid()
      modifies this`stackTop, mmu.Repr
      ensures Valid() && mmu.Repr == old(mmu.Repr)
      ensures InitialStack.PushStrings(old(StackView()), texts) == if r.Ok? then Ok(Pushed(StackView(), r.value)) else Err(r.error)
    {
      hide SoftMmu.Flat, SoftMmu.Valid, InitialStack.PushBytes;
      var addresses: seq<u64> := [];
      AllPushed(InitialStack.PushStrings(StackView(), texts));
      assert texts[..|texts|] == texts;
      for n := |texts| downto 0
        invariant Valid() && mmu.Repr == old(mmu.Repr)
        invariant InitialStack.PushStrings(old(StackView()), texts)
          == AlsoPushed(InitialStack.PushStrings(StackView(), texts[..n]), addresses)
      {
        ghost var before := StackView();
        var error := PushBytes(texts[n] + [0]);
        assert texts[..n + 1][..n] == texts[..n] && texts[..n + 1][n] == texts[n];
        if error.Some? {
          return Err(error.value);
        }
        AlsoPushedStep(InitialStack.PushStrings(StackView(), texts[..n]), stackTop, addresses);
        addresses := [stackTop] + addresses;
      }
      assert [] + addresses == addresses;
      return Ok(addresses);
    }

    method PushWords(ws: seq<u64>) returns (error: Option<Error>)
      requires Valid()
      modifies this`stackTop, mmu.Repr
      ensures Valid() && mmu.Repr == old(mmu.Repr)
      ensures InitialStack.PushWords(old(StackView()), ws) == if error.None? then Ok(StackView()) else Err(error.value)
    {
      hide SoftMmu.Flat, SoftMmu.Valid, InitialStack.PushBytes;
      assert ws[..|ws|] == ws;
      for n := |ws| downto 0
        invariant Valid() && mmu.Repr == old(mmu.Repr)
        invariant InitialStack.PushWords(old(StackView()), ws) == InitialStack.PushWords(StackView(), ws[..n])
      {
        assert ws[..n + 1][..n] == ws[..n] && ws[..n + 1][n] == ws[n];
        error := Push64(ws[n]);
        if error.Some? {
          return;
        }
      }
      error := None;
    }

    /** The strings and random bytes of `setup_stack`. */
    method PushStringArea(args: seq<seq<u8>>, env: seq<seq<u8>>, path: seq<u8>, random: seq<u8>) returns (r: Result<Layout>)
      requires Valid()
      modifies this`stackTop, mmu.Repr
      ensures Valid() && mmu.Repr == old(mmu.Repr)
      ensures InitialStack.PushStringArea(old(StackView()), args, env, path, random)
        == if r.Ok? then Ok(Area(StackView(), r.value)) else Err(r.error)
    {
      hide SoftMmu.Flat, SoftMmu.Valid, InitialStack.PushBytes, InitialStack.PushStrings;
      var argv := PushStrings(args);
      if argv.Err? {
        return Err(argv.error);
      }
      var envp := PushStrings(env);
      if envp.Err? {
        return Err(envp.error);
      }
      var error := PushBytes(path + [0]);
      if error.Some? {
        return Err(error.value);
      }
      var execfn := stackTop;
      error := PushBytes(PLATFORM + [0]);
      if error.Some? {
        return Err(error.value);
      }
      var platform := stackTop;
      error := PushBytes(random);
      if error.Some? {
        return Err(error.value);
      }
      return Ok(Layout(argv.value, envp.value, platform, stackTop, execfn));
    }

    /** The auxiliary vector, the environment, the arguments and the count, each ended by zero. */
    method PushVector(argv: seq<u64>, envp: seq<u64>, aux: seq<u64>) returns (error: Option<Error>)
      requires Valid() && |argv| < TWO_64
      modifies this`stackTop, mmu.Repr
      ensures Valid() && mmu.Repr == old(mmu.Repr)
      ensures InitialStack.PushWords(old(StackView()), StackWords(argv, envp, aux))
        == if error.None? then Ok(StackView()) else Err(error.value)
    {
      hide SoftMmu.Flat, SoftMmu.Valid, InitialStack.PushWords, PushWord, StackWords;
      VectorInParts(StackView(), argv, envp, aux);
      error := PushWords(aux);
      if error.Some? {
        return;
      }
      OneWord(StackView(), 0);
      error := Push64(0);
      if error.Some? {
        return;
      }
      error := PushWords(envp);
      if error.Some? {
        return;
      }
      OneWord(StackView(), 0);
      error := Push64(0);
      if error.Some? {
        return;
      }
      error := PushWords(argv);
      if error.Some? {
        return;
      }
      OneWord(StackView(), |argv|);
      error := Push64(|argv|);
    }

    method SetupStack(args: seq<seq<u8>>, env: seq<seq<u8>>, path: seq<u8>, random: seq<u8>, program: InitialStack.Program)
      returns (error: Option<Error>)
      requires Valid() && |args| < TWO_64
      modifies this`stackTop, mmu.Repr
      ensures Valid() && mmu.Repr == old(mmu.Repr)
      ensures InitialStack.SetupStack(old(StackView()), args, env, path, random, program)
        == if error.None? then Ok(StackView()) else Err(error.value)
    {
      hide SoftMmu.Flat, SoftMmu.Valid, InitialStack.PushStringArea, InitialStack.PushWords, AuxWords, LayoutAux, StackWords;
      var l := PushStringArea(args, env, path, random);
      if l.Err? {
        return Some(l.error);
      }
      stackTop := AlignDown16(stackTop);
      error := PushVector(l.value.argv, l.value.envp, AuxWords(LayoutAux(l.value, program)));
    }

    /** The part of `load` that maps and fills the stack and points the CPU at the program: if the
        strings and words fit, the program finds all of them by walking up from RSP. */
    method LoadStack(args: seq<seq<u8>>, env: seq<seq<u8>>, path: seq<u8>, random: seq<u8>, program: InitialStack.Program,
        limit: nat) returns (error: Option<Error>)
      requires Valid() && |args| < TWO_64
      requires AllShort(args, limit) && AllShort(env, limit) && |path| < limit
      modifies this`stackTop, cpu, mmu`regions, mmu`Repr, mmu.Repr
      ensures Valid() && fresh(mmu.Repr - old(mmu.Repr))
      ensures error.None? ==> cpu.rip == program.start && cpu.gpr[RSP] == stackTop
      ensures StackSize(args, env, path, random) <= STACK_SIZE && Free(old(mmu.Flat()), STACK_BASE - STACK_SIZE, STACK_SIZE) ==>
        error.None? && exists l :: Found(StackView(), l, args, env, path, random, program, limit)
      ensures StackSize(args, env, path, random) <= STACK_SIZE && error.None? ==>
        KeepsMapped(old(mmu.Flat()), mmu.Flat())
    {
      hide SoftMmu.Flat, SoftMmu.Valid, InitialStack.SetupStack, Found, AllShort, StackSize, ZeroCells, Free, Later, Writable;
      StackPages();
      MappedBelowTop(mmu);
      error := mmu.MapZeroed(STACK_BASE - STACK_SIZE, STACK_SIZE, {Read, Write}, "[stack]", Simple);
      if error.Some? {
        return;
      }
      stackTop := STACK_BASE;
      ghost var s := StackView();
      if StackSize(args, env, path, random) <= STACK_SIZE {
        StackIsWritable(old(mmu.Flat()));
        InitialStackRoundTrip(s, args, env, path, random, program, STACK_BASE - STACK_SIZE, limit);
      }
      error := SetupStack(args, env, path, random, program);
      if error.Some? {
        return;
      }
      if StackSize(args, env, path, random) <= STACK_SIZE {
        LaterKeepsMapped(old(mmu.Flat()), s, StackView());
      }
      ghost var laid := StackView();
      cpu.rip, cpu.gpr := program.start, cpu.gpr[RSP := stackTop];
      assert StackView() == laid;
    }
  }

  function Then(r: Result<Stack>, ws: seq<u64>): Result<Stack> {
    match r
    case Ok(s) => InitialStack.PushWords(s, ws)
    case Err(e) => Err(e)
  }

  lemma ThenInParts(r: Result<Stack>, xs: seq<u64>, ys: seq<u64>)
    ensures Then(r, xs + ys) == Then(Then(r, ys), xs)
  {
    hide InitialStack.PushWords;
    if r.Ok? {
      PushWordsInParts(r.value, xs, ys);
    }
  }

  /** The pieces of the word vector, pushed from last to first. */
  lemma VectorInParts(s: Stack, argv: seq<u64>, envp: seq<u64>, aux: seq<u64>)
    requires |argv| < TWO_64
    ensures InitialStack.PushWords(s, StackWords(argv, envp, aux)) ==
      Then(Then(Then(Then(Then(InitialStack.PushWords(s, aux), [0]), envp), [0]), argv), [|argv|])
  {
    hide InitialStack.PushWords, Then;
    var r := InitialStack.PushWords(s, aux);
    var w1 := [|argv| as u64];
    PushFirst(s, w1 + argv + [0] + envp + [0], aux);
    ThenInParts(r, w1 + argv + [0] + envp, [0]);
    ThenInParts(Then(r, [0]), w1 + argv + [0], envp);
    ThenInParts(Then(Then(r, [0]), envp), w1 + argv, [0]);
    ThenInParts(Then(Then(Then(r, [0]), envp), [0]), w1, argv);
  }

  lemma PushFirst(s: Stack, xs: seq<u64>, ys: seq<u64>)
    ensures InitialStack.PushWords(s, xs + ys) == Then(InitialStack.PushWords(s, ys), xs)
  {
    hide InitialStack.PushWords;
    PushWordsInParts(s, xs, ys);
  }

  lemma OneWord(s: Stack, w: u64)
    ensures InitialStack.PushWords(s, [w]) == PushWord(s, w)
  {
    hide PushWord;
  }

  lemma StackPages()
    ensures PageAlignDown(STACK_BASE - STACK_SIZE) == STACK_BASE - STACK_SIZE && PageAlignUp(STACK_SIZE) == STACK_SIZE
  {
    hide PageAlignDown, PageAlignUp, Aligned;
    AlignedIsModulo(STACK_BASE - STACK_SIZE);
    AlignedIsModulo(STACK_SIZE);
    RoundAligned(STACK_BASE - STACK_SIZE);
    RoundAligned(STACK_SIZE);
  }

  lemma StackIsWritable(m: Memory)
    ensures var mapped := m + ZeroCells(STACK_BASE - STACK_SIZE, STACK_SIZE, {Read, Write}, "[stack]", Simple);
      Writable(mapped, STACK_BASE - STACK_SIZE, STACK_BASE)
  {
  }

  /** The MMU maps no address in the last page. */
  lemma MappedBelowTop(mmu: SoftMmu)
    requires mmu.Valid()
    ensures TopPageFree(mmu.Flat()) && forall a :: a in mmu.Flat() ==> 0 <= a < TWO_64
  {
    forall a | a in mmu.Flat() ensures 0 <= a < TWO_64 - PAGE_SIZE {
      RegionList.TopPageFree(Views(mmu.regions), a);
    }
  }

  /** Every cell of m is still there, unchanged. */
  predicate KeepsMapped(m: Memory, m': Memory) {
    forall a :: a in m ==> a in m' && m'[a] == m[a]
  }

  /** Pushing inside fresh pages leaves every older cell alone. */
  lemma LaterKeepsMapped(m: Memory, s: Stack, s': Stack)
    requires s.mem == m + ZeroCells(STACK_BASE - STACK_SIZE, STACK_SIZE, {Read, Write}, "[stack]", Simple)
    requires Free(m, STACK_BASE - STACK_SIZE, STACK_SIZE) && s.top == STACK_BASE
    requires Later(s, s') && STACK_BASE - STACK_SIZE <= s'.top
    requires forall a :: a in m ==> 0 <= a < TWO_64
    ensures KeepsMapped(m, s'.mem)
  {
    forall a | a in m ensures a in s'.mem && s'.mem[a] == m[a] {
      assert a in s.mem && s.mem[a] == m[a];
    }
  }

  lemma GrowthIsAligned(start: u64, end: u64)
    requires Aligned(start) && Aligned(end) && start <= end
    ensures PageAlignDown(start) == start && PageAlignUp(end - start) == end - start
  {
    hide *;
    AlignedSum(end, start);
    RoundAligned(start);
    RoundAligned(end - start);
  }

  // ----- what the loops above have done so far -----

  function AlsoRead(read: seq<u64>, r: Result<seq<u64>>): Result<seq<u64>> {
    match r
    case Ok(rest) => Ok(read + rest)
    case Err(e) => Err(e)
  }

  lemma AllRead(r: Result<seq<u64>>)
    ensures AlsoRead([], r) == r
  {
    assert r.Ok? ==> [] + r.value == r.value;
  }

  lemma AlsoReadStep(read: seq<u64>, w: u64, r: Result<seq<u64>>)
    ensures AlsoRead(read + [w], r) == AlsoRead(read, AlsoRead([w], r))
  {
    assert r.Ok? ==> (read + [w]) + r.value == read + ([w] + r.value);
  }

  function AlsoPushed(r: Result<Pushed>, addresses: seq<u64>): Result<Pushed> {
    match r
    case Ok(p) => Ok(Pushed(p.stack, p.addresses + addresses))
    case Err(e) => Err(e)
  }

  lemma AllPushed(r: Result<Pushed>)
    ensures AlsoPushed(r, []) == r
  {
    assert r.Ok? ==> r.value.addresses + [] == r.value.addresses;
  }

  lemma AlsoPushedStep(r: Result<Pushed>, a: u64, addresses: seq<u64>)
    ensures AlsoPushed(r, [a] + addresses) == AlsoPushed(AlsoPushed(r, [a]), addresses)
  {
    assert r.Ok? ==> r.value.addresses + ([a] + addresses) == (r.value.addresses + [a]) + addresses;
  }
}
