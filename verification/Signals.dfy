/** Signal delivery as a protocol: a dispatch pushes a frame into guest memory and enters the
    handler, `sigreturn` reads it back. Shown for whole runs with arbitrary nesting. */
module Signals {
  import opened Words
  import opened FlatMemory
  import opened GuestWords
  import opened Registers
  import opened Alu
  import Cpu

  const FRAME_MAGIC: u64 := 0x4c55_4553_4947_4652
  const FRAME_SIZE := 176
  const RED_ZONE := 128
  const RSP: Reg := 4
  const RDX: Reg := 2
  const RSI: Reg := 6
  const RDI: Reg := 7

  type Signal = s: int | 1 <= s < 64 witness 1

  datatype Action = Action(handler: u64, flags: u64, restorer: u64, mask: u64)

  type Actions = a: seq<Action> | |a| == 64 witness seq(64, _ => Action(0, 0, 0, 0))

  /** The emulator state the signal code works on. */
  datatype Guest = Guest(cpu: Cpu.State, pending: u64, mask: u64, actions: Actions, trampoline: u64)

  /** What a frame saves. */
  datatype Context = Context(mask: u64, rip: u64, rflags: u64, gpr: File, fsBase: u64, gsBase: u64)

  function ContextOf(g: Guest): Context {
    Context(g.mask, g.cpu.rip, g.cpu.rflags, g.cpu.gpr, g.cpu.fsBase, g.cpu.gsBase)
  }

  // ----- masks -----

  predicate InMask(mask: u64, s: Signal) {
    Bit(mask, s - 1)
  }

  function WithSignal(mask: u64, s: Signal, on: bool): u64 {
    SetFlag(mask, s - 1, on)
  }

  predicate Deliverable(pending: u64, mask: u64, s: Signal) {
    InMask(pending, s) && !InMask(mask, s)
  }

  /** The scan of `dispatch_pending_signal`, from signal s upwards. */
  function FirstDeliverable(pending: u64, mask: u64, s: int): (r: Option<Signal>)
    requires 1 <= s <= 64
    ensures r.Some? ==> s <= r.value && Deliverable(pending, mask, r.value)
    ensures r.Some? ==> forall k: Signal :: s <= k < r.value ==> !Deliverable(pending, mask, k)
    ensures r.None? ==> forall k: Signal :: s <= k ==> !Deliverable(pending, mask, k)
    decreases 64 - s
  {
    if s == 64 then None
    else if Deliverable(pending, mask, s) then Some(s)
    else FirstDeliverable(pending, mask, s + 1)
  }

  const SIGKILL: Signal := 9
  const SIGSTOP: Signal := 19

  /** The mask `set_signal_mask` installs, unless `how` is invalid. */
  function ChangedMask(how: int, mask: u64, operand: u64): Option<u64> {
    var wanted := WithSignal(WithSignal(operand, SIGKILL, false), SIGSTOP, false);
    if how == 0 then Some(Or(mask, wanted))
    else if how == 1 then Some(And(mask, Not(wanted)))
    else if how == 2 then Some(wanted)
    else None
  }

  /** Whether a signal is blocked after the change, from what the guest asked for. */
  predicate Blocked(how: int, before: bool, asked: bool) {
    if how == 0 then before || asked else if how == 1 then before && !asked else asked
  }

  /** A mask change blocks and unblocks exactly the signals asked for, never SIGKILL or SIGSTOP. */
  lemma ChangedMaskIsExact(how: int, mask: u64, operand: u64, s: Signal)
    requires ChangedMask(how, mask, operand).Some?
    ensures InMask(ChangedMask(how, mask, operand).value, s)
      == Blocked(how, InMask(mask, s), InMask(operand, s) && s != SIGKILL && s != SIGSTOP)
  {
    hide SetFlag, Bitwise, Bit;
    var without := WithSignal(operand, SIGKILL, false);
    var wanted := WithSignal(without, SIGSTOP, false);
    SetFlagBits(operand, SIGKILL - 1, false);
    SetFlagBits(without, SIGSTOP - 1, false);
    var k: nat := s - 1;
    assert Flag(wanted, k) == (Flag(operand, k) && s != SIGKILL && s != SIGSTOP);
    Pow2Of64();
    BitOfBitwise((x, y) => x || y, mask, wanted, 64, k);
    BitOfBitwise((x, y) => x && y, mask, Not(wanted), 64, k);
    BitOfComplement(wanted, 64, k);
  }

  // ----- frames -----

  function FrameAddress(rsp: u64): u64 {
    AlignDown16(Wrap(rsp - FRAME_SIZE - RED_ZONE))
  }

  function FrameWords(c: Context): (ws: seq<u64>)
    ensures |ws| == 22
  {
    [FRAME_MAGIC, c.mask, c.rip, c.rflags] + c.gpr + [c.fsBase, c.gsBase]
  }

  function ContextFrom(ws: seq<u64>): Context
    requires |ws| == 22
  {
    Context(ws[1], ws[2], ws[3], ws[4..20], ws[20], ws[21])
  }

  lemma FrameRoundTrip(c: Context)
    ensures FrameWords(c)[0] == FRAME_MAGIC && ContextFrom(FrameWords(c)) == c
  {
    assert FrameWords(c)[4..20] == c.gpr;
  }

  // ----- dispatch and sigreturn -----

  datatype Dispatched =
    | Idle
    | Ignored
    | Terminated(status: nat)
    | Entered(signal: Signal, frame: u64)
    | Aborted(error: Error)

  predicate DefaultIgnored(s: Signal) {
    s == 17 || s == 23 || s == 28
  }

  function Restorer(g: Guest, s: Signal): u64 {
    if g.actions[s].restorer != 0 then g.actions[s].restorer else g.trampoline
  }

  /** The handler is entered like a function called with the signal number. */
  function EnterHandler(g: Guest, s: Signal, mem: Memory): Guest {
    var gpr := g.cpu.gpr[RDI := s][RSI := 0][RDX := 0][RSP := Wrap(FrameAddress(g.cpu.gpr[RSP]) - 8)];
    g.(cpu := g.cpu.(gpr := gpr, rip := g.actions[s].handler, mem := mem),
       mask := WithSignal(Or(g.mask, g.actions[s].mask), s, true))
  }

  /** The words written for a signal, from the handler's stack pointer upwards. */
  function PushedWords(g: Guest, s: Signal): seq<u64> {
    [Restorer(g, s)] + FrameWords(ContextOf(g))
  }

  /** `dispatch_pending_signal` */
  function Dispatch(g: Guest): (Guest, Dispatched) {
    match FirstDeliverable(g.pending, g.mask, 1)
    case None => (g, Idle)
    case Some(s) =>
      var g1 := g.(pending := WithSignal(g.pending, s, false));
      if g.actions[s].handler == 1 then (g1, Ignored)
      else if g.actions[s].handler == 0 then (g1, if DefaultIgnored(s) then Ignored else Terminated(128 + s))
      else
        var frame := FrameAddress(g.cpu.gpr[RSP]);
        var stored := StoreWords(g.cpu.mem, Wrap(frame - 8), PushedWords(g1, s));
        if stored.error.Some? then (g1.(cpu := g.cpu.(mem := stored.mem)), Aborted(stored.error.value))
        else (EnterHandler(g1, s, stored.mem), Entered(s, frame))
  }

  function RestoreContext(g: Guest, c: Context): Guest {
    g.(cpu := g.cpu.(gpr := c.gpr, rip := c.rip, rflags := c.rflags, fsBase := c.fsBase, gsBase := c.gsBase), mask := c.mask)
  }

  /** `handle_sigreturn` */
  function Sigreturn(g: Guest): Result<Guest> {
    var frame := g.cpu.gpr[RSP];
    var magic :- LoadWord(g.cpu.mem, frame);
    if magic != FRAME_MAGIC then Err(BadSignalFrame(frame)) else
    var rest :- LoadWords(g.cpu.mem, At(frame, 8), 21);
    Ok(RestoreContext(g, ContextFrom([magic] + rest)))
  }

  /** A frame that can be read back restores exactly the context it holds. */
  lemma SigreturnRestores(g: Guest, c: Context)
    requires HoldsWords(g.cpu.mem, g.cpu.gpr[RSP], FrameWords(c))
    ensures Sigreturn(g) == Ok(RestoreContext(g, c))
  {
    hide LoadWord, FrameWords;
    var ws, m, a := FrameWords(c), g.cpu.mem, g.cpu.gpr[RSP];
    FrameRoundTrip(c);
    assert LoadWords(m, a, 22) == Ok(ws);
    assert LoadWord(m, a).Ok? && LoadWords(m, At(a, 8), 21).Ok?;
    assert [LoadWord(m, a).value] + LoadWords(m, At(a, 8), 21).value == ws;
    assert LoadWord(m, a).value == ws[0];
  }

  /** No mapping reaches the last page, as the MMU guarantees. */
  predicate TopPageFree(m: Memory) {
    forall a :: a in m ==> a < TWO_64 - PAGE_SIZE
  }

  /** A dispatch that enters a handler did not wrap: the frame lies below the red zone of the
      interrupted stack pointer, on a 16-byte boundary. */
  lemma EnteredBelow(g: Guest)
    requires TopPageFree(g.cpu.mem) && Dispatch(g).1.Entered?
    ensures var rsp, frame: int := g.cpu.gpr[RSP], Dispatch(g).1.frame;
      8 <= frame && frame % 16 == 0 && 0 <= rsp - RED_ZONE - FRAME_SIZE - frame < 16 && Wrap(frame - 8) == frame - 8
  {
    hide FirstDeliverable, StoreWords, WithSignal, EnterHandler, FrameWords;
    var s := FirstDeliverable(g.pending, g.mask, 1).value;
    var rsp := g.cpu.gpr[RSP];
    var frame: int := FrameAddress(rsp);
    var ws := PushedWords(g.(pending := WithSignal(g.pending, s, false)), s);
    FirstStoreMapped(g.cpu.mem, Wrap(frame - 8), ws);
    FramePlace(rsp);
  }

  /** A frame that would wrap lands in the last page of the address space. */
  lemma FramePlace(rsp: u64)
    ensures var frame: int := FrameAddress(rsp);
      if rsp < FRAME_SIZE + RED_ZONE || frame < 8 then Wrap(frame - 8) >= TWO_64 - PAGE_SIZE
      else frame % 16 == 0 && 0 <= rsp - RED_ZONE - FRAME_SIZE - frame < 16 && Wrap(frame - 8) == frame - 8
  {
    var frame: int := FrameAddress(rsp);
    if rsp < FRAME_SIZE + RED_ZONE {
      assert Wrap(rsp - FRAME_SIZE - RED_ZONE) == rsp - FRAME_SIZE - RED_ZONE + TWO_64;
    } else if frame < 8 {
      assert frame == 0 && Wrap(frame - 8) == TWO_64 - 8;
    }
  }

  lemma FirstStoreMapped(m: Memory, a: u64, ws: seq<u64>)
    requires |ws| > 0 && StoreWords(m, a, ws).error.None?
    ensures a in m
  {
  }

  /** What a dispatch that enters a handler does: the frame holds the interrupted context, the
      red zone and everything above it, and everything below the frame, is untouched, and the
      stack is aligned as at a function entry (section 3.2.2 of the System V AMD64 ABI). */
  lemma DispatchPushesFrame(g: Guest)
    requires TopPageFree(g.cpu.mem) && Dispatch(g).1.Entered?
    ensures var (g', r) := Dispatch(g);
      && SameShape(g.cpu.mem, g'.cpu.mem)
      && SameCells(g.cpu.mem, g'.cpu.mem, g.cpu.gpr[RSP] - RED_ZONE, TWO_64)
      && SameCells(g.cpu.mem, g'.cpu.mem, 0, r.frame - 8)
      && (g'.cpu.gpr[RSP] + 8) % 16 == 0 && g'.cpu.gpr[RSP] == r.frame - 8
      && 0 <= g.cpu.gpr[RSP] - RED_ZONE - FRAME_SIZE - r.frame < 16
      && (Readable(g.cpu.mem, r.frame - 8, r.frame + FRAME_SIZE) ==>
          HoldsWords(g'.cpu.mem, r.frame, FrameWords(ContextOf(g)))
          && LoadWord(g'.cpu.mem, r.frame - 8) == Ok(Restorer(g, r.signal)))
  {
    hide FirstDeliverable, StoreWords, WithSignal, FrameWords, FrameAddress, Readable, SameShape, SameCells, LoadWords, LoadWord;
    EnteredBelow(g);
    var s := FirstDeliverable(g.pending, g.mask, 1).value;
    var g1 := g.(pending := WithSignal(g.pending, s, false));
    var (g', r) := Dispatch(g);
    StoredWords(g.cpu.mem, r.frame - 8, PushedWords(g1, s));
    SameCellsNarrow(g.cpu.mem, g'.cpu.mem, r.frame + FRAME_SIZE, g.cpu.gpr[RSP] - RED_ZONE);
    assert ContextOf(g1) == ContextOf(g);
    if Readable(g.cpu.mem, r.frame - 8, r.frame + FRAME_SIZE) {
      HeldTail(g'.cpu.mem, r.frame - 8, Restorer(g, s), FrameWords(ContextOf(g)));
    }
  }

  lemma SameCellsNarrow(m: Memory, m': Memory, lo: int, lo': int)
    requires SameCells(m, m', lo, TWO_64) && lo <= lo'
    ensures SameCells(m, m', lo', TWO_64)
  {
  }

  lemma HeldTail(m: Memory, a: u64, w: u64, ws: seq<u64>)
    requires HoldsWords(m, a, [w] + ws) && a + 8 < TWO_64
    ensures LoadWord(m, a) == Ok(w) && HoldsWords(m, a + 8, ws)
  {
    hide LoadWord;
    assert At(a, 8) == a + 8;
    var all := [w] + ws;
    assert LoadWords(m, a, |all|) == Ok(all);
    var rest := LoadWords(m, a + 8, |ws|);
    assert [LoadWord(m, a).value] + rest.value == all;
    assert all[0] == w && all[1..] == ws;
    assert ([LoadWord(m, a).value] + rest.value)[1..] == rest.value;
  }

  /** Signal s is the lowest one pending and not blocked. */
  predicate Lowest(g: Guest, s: Signal) {
    Deliverable(g.pending, g.mask, s) && forall k: Signal :: k < s ==> !Deliverable(g.pending, g.mask, k)
  }

  /** The handler's view of the CPU: entered like a function of the signal number, with everything but
      RDI, RSI, RDX, RSP, rip and memory as it was. */
  predicate EntersHandler(cpu: Cpu.State, cpu': Cpu.State, handler: u64, s: Signal) {
    && cpu'.rip == handler && cpu'.gpr[RDI] == s && cpu'.gpr[RSI] == 0 && cpu'.gpr[RDX] == 0
    && (forall r: Reg :: r !in {RDI, RSI, RDX, RSP} ==> cpu'.gpr[r] == cpu.gpr[r])
    && cpu' == cpu.(gpr := cpu'.gpr, rip := cpu'.rip, mem := cpu'.mem)
  }

  /** What becomes of the lowest deliverable signal: handler 1 ignores it, handler 0 ignores SIGCHLD, SIGURG
      and SIGWINCH and terminates on any other, and every other handler is entered if its frame can be
      written. */
  lemma DispatchTakesAction(g: Guest, s: Signal)
    requires Lowest(g, s)
    ensures var (g', r) := Dispatch(g);
      var handler, slot := g.actions[s].handler, Wrap(FrameAddress(g.cpu.gpr[RSP]) - 8);
      && (r.Ignored? <==> handler == 1 || (handler == 0 && s in {17, 23, 28}))
      && (r.Terminated? <==> handler == 0 && s !in {17, 23, 28}) && (r.Terminated? ==> r.status == 128 + s)
      && (r.Entered? <==> handler > 1 && Accessible(g.cpu.mem, slot, 8 + FRAME_SIZE, Write))
      && (r.Aborted? <==> handler > 1 && !Accessible(g.cpu.mem, slot, 8 + FRAME_SIZE, Write))
    ensures var (g', r) := Dispatch(g);
      && (r.Entered? ==> r.signal == s && EntersHandler(g.cpu, g'.cpu, g.actions[s].handler, s))
      && (!r.Entered? ==> g'.cpu == g.cpu.(mem := g'.cpu.mem) && g'.mask == g.mask)
      && (r.Ignored? || r.Terminated? ==> g'.cpu == g.cpu)
      && g'.actions == g.actions && g'.trampoline == g.trampoline
  {
    hide StoreWords, FrameWords, FrameAddress, WithSignal, Or, Accessible, Deliverable;
    var first := FirstDeliverable(g.pending, g.mask, 1);
    assert first == Some(s) by {
      assert first.Some? && Deliverable(g.pending, g.mask, first.value);
    }
    var g1 := g.(pending := WithSignal(g.pending, s, false));
    StoreWordsSucceeds(g.cpu.mem, Wrap(FrameAddress(g.cpu.gpr[RSP]) - 8), PushedWords(g1, s));
  }

  /** While the handler runs, exactly the signals blocked before, those of its action and its own are. */
  lemma DispatchMask(g: Guest, s: Signal, k: Signal)
    requires Lowest(g, s) && Dispatch(g).1.Entered?
    ensures InMask(Dispatch(g).0.mask, k) <==> InMask(g.mask, k) || InMask(g.actions[s].mask, k) || k == s
  {
    hide StoreWords, PushedWords, FrameAddress, Or, SetFlag, Bit, Deliverable;
    var wide := Or(g.mask, g.actions[s].mask);
    var at: nat, own: nat := k - 1, s - 1;
    assert FirstDeliverable(g.pending, g.mask, 1) == Some(s);
    MaskAfter(g, s);
    SetFlagBits(wide, own, true);
    Pow2Of64();
    BitOfBitwise((x, y) => x || y, g.mask, g.actions[s].mask, 64, at);
    assert Flag(SetFlag(wide, own, true), at) == if at == own then true else Flag(wide, at);
    assert Flag(wide, at) == (Bit(g.mask, at) || Bit(g.actions[s].mask, at)) by {
      OrIsBitwise(g.mask, g.actions[s].mask);
    }
  }

  lemma OrIsBitwise(v: u64, w: u64)
    ensures Or(v, w) == Bitwise((x, y) => x || y, v, w, 64)
  {
  }

  /** The frame in memory, word by word, and the return address below it. */
  predicate FrameLaid(m: Memory, frame: u64, g: Guest, returnTo: u64) {
    && frame >= 8 && frame + FRAME_SIZE <= TWO_64
    && LoadWord(m, frame - 8) == Ok(returnTo) && LoadWord(m, frame) == Ok(FRAME_MAGIC)
    && LoadWord(m, frame + 8) == Ok(g.mask) && LoadWord(m, frame + 16) == Ok(g.cpu.rip)
    && LoadWord(m, frame + 24) == Ok(g.cpu.rflags)
    && (forall i: Reg {:trigger g.cpu.gpr[i]} :: LoadWord(m, frame + 32 + 8 * i) == Ok(g.cpu.gpr[i]))
    && LoadWord(m, frame + 160) == Ok(g.cpu.fsBase) && LoadWord(m, frame + 168) == Ok(g.cpu.gsBase)
  }

  /** Where a dispatch puts what: the interrupted state in the frame, and below it the action's restorer,
      or the trampoline if it has none. */
  lemma FrameLayout(g: Guest)
    requires TopPageFree(g.cpu.mem) && Dispatch(g).1.Entered?
    requires Readable(g.cpu.mem, Dispatch(g).1.frame - 8, Dispatch(g).1.frame + FRAME_SIZE)
    ensures var (g', r) := Dispatch(g);
      var restorer := g.actions[r.signal].restorer;
      && FrameLaid(g'.cpu.mem, r.frame, g, if restorer != 0 then restorer else g.trampoline)
      && Defined(g'.cpu.mem, r.frame - 8, r.frame + FRAME_SIZE)
  {
    hide Dispatch, LoadWord, Readable, HoldsWords, SameCells, SameShape, TopPageFree, Defined;
    FrameDefined(g);
    DispatchPushesFrame(g);
    EnteredBelow(g);
    var m, frame: u64, ws := Dispatch(g).0.cpu.mem, Dispatch(g).1.frame, FrameWords(ContextOf(g));
    HeldWord(m, frame, ws, 0);
    HeldWord(m, frame, ws, 1);
    HeldWord(m, frame, ws, 2);
    HeldWord(m, frame, ws, 3);
    forall i: Reg ensures LoadWord(m, frame + 32 + 8 * i) == Ok(g.cpu.gpr[i]) {
      HeldWord(m, frame, ws, 4 + i);
    }
    HeldWord(m, frame, ws, 20);
    HeldWord(m, frame, ws, 21);
  }

  lemma FrameDefined(g: Guest)
    requires TopPageFree(g.cpu.mem) && Dispatch(g).1.Entered?
    ensures Defined(Dispatch(g).0.cpu.mem, Dispatch(g).1.frame - 8, Dispatch(g).1.frame + FRAME_SIZE)
  {
    hide FirstDeliverable, StoreWords, WithSignal, FrameWords, FrameAddress, Defined;
    EnteredBelow(g);
    var s := FirstDeliverable(g.pending, g.mask, 1).value;
    var g1 := g.(pending := WithSignal(g.pending, s, false));
    StoredWordsDefined(g.cpu.mem, Dispatch(g).1.frame - 8, PushedWords(g1, s));
  }

  /** `sigreturn` accepts exactly a readable frame that starts with the magic word. */
  lemma SigreturnAccepts(g: Guest)
    ensures var m, frame := g.cpu.mem, g.cpu.gpr[RSP];
      && (Sigreturn(g).Ok? <==> Accessible(m, frame, FRAME_SIZE, Read) && LoadWord(m, frame) == Ok(FRAME_MAGIC))
      && (LoadWord(m, frame).Ok? && LoadWord(m, frame).value != FRAME_MAGIC ==> Sigreturn(g) == Err(BadSignalFrame(frame)))
  {
    hide Accessible, Load, Wrap;
    var m, frame := g.cpu.mem, g.cpu.gpr[RSP];
    AccessInParts(m, frame, 8, 168, Read);
    LoadIsPointwise(m, frame, 8);
    LoadWordsSucceeds(m, At(frame, 8), 21);
  }

  // ----- whole runs -----

  /** An outstanding frame: where it is and what the matching dispatch saved in it. */
  datatype Frame = Frame(address: u64, context: Context)

  datatype Machine = Machine(guest: Guest, frames: seq<Frame>)

  datatype Event = GuestRuns(guest: Guest) | DispatchSignal | ReturnFromSignal

  predicate Intact(m: Memory, f: Frame) {
    f.address + FRAME_SIZE < TWO_64 && HoldsWords(m, f.address, FrameWords(f.context))
  }

  /** What is assumed of a run: guest code leaves outstanding frames alone and stays at or below
      the innermost one, frames land in readable memory, and each sigreturn is entered with the
      stack pointer at the innermost frame. */
  predicate Allowed(s: Machine, e: Event) {
    match e
    case GuestRuns(g) =>
      && TopPageFree(g.cpu.mem)
      && (forall i :: 0 <= i < |s.frames| ==> Intact(g.cpu.mem, s.frames[i]))
      && (|s.frames| > 0 ==> g.cpu.gpr[RSP] <= s.frames[|s.frames| - 1].address)
    case DispatchSignal =>
      var r := Dispatch(s.guest).1;
      !r.Aborted? && !r.Terminated? &&
      (r.Entered? && r.frame >= 8 ==> Readable(s.guest.cpu.mem, r.frame - 8, r.frame + FRAME_SIZE))
    case ReturnFromSignal =>
      |s.frames| > 0 && s.guest.cpu.gpr[RSP] == s.frames[|s.frames| - 1].address
  }

  function Next(s: Machine, e: Event): Machine
    requires Allowed(s, e)
  {
    match e
    case GuestRuns(g) => s.(guest := g)
    case DispatchSignal =>
      var (g, r) := Dispatch(s.guest);
      Machine(g, if r.Entered? then s.frames + [Frame(r.frame, ContextOf(s.guest))] else s.frames)
    case ReturnFromSignal =>
      var r := Sigreturn(s.guest);
      Machine(if r.Ok? then r.value else s.guest, s.frames[..|s.frames| - 1])
  }

  /** The stack of outstanding frames: intact, strictly descending with the red zone between each
      frame and the stack pointer it interrupted, and the guest below the innermost. */
  predicate Nested(s: Machine) {
    && TopPageFree(s.guest.cpu.mem)
    && (forall i :: 0 <= i < |s.frames| ==> Intact(s.guest.cpu.mem, s.frames[i]))
    && (forall i :: 0 <= i < |s.frames| ==>
        s.frames[i].address + FRAME_SIZE + RED_ZONE <= s.frames[i].context.gpr[RSP])
    && (forall i :: 0 < i < |s.frames| ==> s.frames[i].context.gpr[RSP] <= s.frames[i - 1].address)
    && (|s.frames| > 0 ==> s.guest.cpu.gpr[RSP] <= s.frames[|s.frames| - 1].address)
  }

  lemma IntactElsewhere(m: Memory, m': Memory, f: Frame, lo: int)
    requires Intact(m, f) && SameCells(m, m', lo, TWO_64) && lo <= f.address
    ensures Intact(m', f)
  {
    hide LoadWords, FrameWords;
    assert SameCells(m, m', f.address, f.address + 8 * 22);
    LoadWordsElsewhere(m, m', f.address, 22);
  }

  /** Frames lie one below the other, so any two are disjoint. */
  lemma {:induction false} FramesDescend(s: Machine, i: nat, j: nat)
    requires Nested(s) && i < j < |s.frames|
    ensures s.frames[j].address + FRAME_SIZE + RED_ZONE <= s.frames[i].address
    decreases j
  {
    if i + 1 < j {
      FramesDescend(s, i, j - 1);
    }
  }

  /** A frame put below the red zone of the interrupted stack pointer nests in the others. */
  lemma PushKeepsNested(s: Machine, g: Guest, f: Frame)
    requires Nested(s) && TopPageFree(g.cpu.mem) && Intact(g.cpu.mem, f) && f.context == ContextOf(s.guest)
    requires SameCells(s.guest.cpu.mem, g.cpu.mem, s.guest.cpu.gpr[RSP] - RED_ZONE, TWO_64)
    requires f.address + FRAME_SIZE + RED_ZONE <= s.guest.cpu.gpr[RSP] && g.cpu.gpr[RSP] <= f.address
    ensures Nested(Machine(g, s.frames + [f]))
  {
    hide Intact, SameCells;
    forall i | 0 <= i < |s.frames| ensures Intact(g.cpu.mem, s.frames[i]) {
      if i < |s.frames| - 1 {
        FramesDescend(s, i, |s.frames| - 1);
      }
      IntactElsewhere(s.guest.cpu.mem, g.cpu.mem, s.frames[i], s.guest.cpu.gpr[RSP] - RED_ZONE);
    }
  }

  lemma DispatchKeepsNested(s: Machine)
    requires Nested(s) && Allowed(s, DispatchSignal)
    ensures Nested(Next(s, DispatchSignal))
  {
    hide Dispatch, Intact, HoldsWords, Readable, FrameWords, SameCells, SameShape, Nested, TopPageFree;
    var (g, r) := Dispatch(s.guest);
    NestedTop(s);
    if r.Entered? {
      EnteredBelow(s.guest);
      DispatchPushesFrame(s.guest);
      ShapeKeepsTop(s.guest.cpu.mem, g.cpu.mem);
      NewFrameIntact(g.cpu.mem, Frame(r.frame, ContextOf(s.guest)));
      PushKeepsNested(s, g, Frame(r.frame, ContextOf(s.guest)));
    } else {
      QuietDispatch(s.guest);
      PendingIsFree(s, g.pending);
    }
  }

  lemma NestedTop(s: Machine)
    requires Nested(s)
    ensures TopPageFree(s.guest.cpu.mem)
  {
  }

  lemma PendingIsFree(s: Machine, pending: u64)
    requires Nested(s)
    ensures Nested(s.(guest := s.guest.(pending := pending)))
  {
    hide Intact;
  }

  lemma ShapeKeepsTop(m: Memory, m': Memory)
    requires SameShape(m, m') && TopPageFree(m)
    ensures TopPageFree(m')
  {
  }

  lemma NewFrameIntact(m: Memory, f: Frame)
    requires HoldsWords(m, f.address, FrameWords(f.context)) && f.address + FRAME_SIZE < TWO_64
    ensures Intact(m, f)
  {
  }

  /** Without a handler to enter, a dispatch changes nothing but the pending set. */
  lemma QuietDispatch(g: Guest)
    requires !Dispatch(g).1.Entered? && !Dispatch(g).1.Aborted?
    ensures Dispatch(g).0 == g.(pending := Dispatch(g).0.pending)
  {
  }

  /** Every step of a run keeps the frames nested and intact. */
  lemma StepKeepsNested(s: Machine, e: Event)
    requires Nested(s) && Allowed(s, e)
    ensures Nested(Next(s, e))
  {
    hide Dispatch, Sigreturn, Intact, Readable;
    if e.DispatchSignal? {
      DispatchKeepsNested(s);
    } else if e.ReturnFromSignal? {
      ReturnKeepsNested(s);
    }
  }

  lemma ReturnKeepsNested(s: Machine)
    requires Nested(s) && Allowed(s, ReturnFromSignal)
    ensures Nested(Next(s, ReturnFromSignal)) && Sigreturn(s.guest).Ok?
    ensures Next(s, ReturnFromSignal).guest == RestoreContext(s.guest, s.frames[|s.frames| - 1].context)
  {
    hide FrameWords, LoadWords, Dispatch, Sigreturn, Readable;
    SigreturnRestores(s.guest, s.frames[|s.frames| - 1].context);
  }

  predicate AllowedRun(s: Machine, events: seq<Event>)
    decreases |events|
  {
    |events| == 0 || (Allowed(s, events[0]) && AllowedRun(Next(s, events[0]), events[1..]))
  }

  function After(s: Machine, events: seq<Event>): Machine
    requires AllowedRun(s, events)
    decreases |events|
  {
    if |events| == 0 then s else After(Next(s, events[0]), events[1..])
  }

  lemma {:induction false} RunKeepsNested(s: Machine, events: seq<Event>)
    requires Nested(s) && AllowedRun(s, events)
    ensures Nested(After(s, events))
    decreases |events|
  {
    hide Dispatch, Sigreturn, Nested, Intact, Readable, Allowed, Next;
    if |events| > 0 {
      StepKeepsNested(s, events[0]);
      RunKeepsNested(Next(s, events[0]), events[1..]);
    }
  }

  /** The frames that were outstanding stay on the stack while nested handlers come and go: after
      a run that never returns below depth n, the first n frames are the same. */
  predicate StaysAbove(s: Machine, events: seq<Event>, n: nat)
    requires AllowedRun(s, events)
    decreases |events|
  {
    n <= |s.frames| && (|events| == 0 || StaysAbove(Next(s, events[0]), events[1..], n))
  }

  lemma {:induction false} OuterFramesStay(s: Machine, events: seq<Event>, n: nat)
    requires AllowedRun(s, events) && StaysAbove(s, events, n)
    ensures n <= |After(s, events).frames| && After(s, events).frames[..n] == s.frames[..n]
    decreases |events|
  {
    hide Dispatch, Sigreturn, Intact, Readable, Allowed, Next;
    if |events| > 0 {
      var s1 := Next(s, events[0]);
      assert StaysAbove(s1, events[1..], n);
      FramesChange(s, events[0], n);
      OuterFramesStay(s1, events[1..], n);
    }
  }

  lemma FramesChange(s: Machine, e: Event, n: nat)
    requires Allowed(s, e) && n <= |s.frames| && n <= |Next(s, e).frames|
    ensures Next(s, e).frames[..n] == s.frames[..n]
  {
    hide Dispatch, Sigreturn, Intact, Readable;
  }

  /** The round trip under arbitrary nesting. A dispatch interrupts state g; then anything
      happens, including further signals and their returns, down to the matching sigreturn. That
      sigreturn succeeds and restores exactly the sixteen registers, rip, rflags, segment bases
      and mask of g. */
  lemma SignalRoundTrip(s: Machine, events: seq<Event>)
    requires Nested(s) && Allowed(s, DispatchSignal) && Dispatch(s.guest).1.Entered?
    requires var s1 := Next(s, DispatchSignal);
      && AllowedRun(s1, events) && StaysAbove(s1, events, |s.frames| + 1)
      && |After(s1, events).frames| == |s.frames| + 1 && Allowed(After(s1, events), ReturnFromSignal)
    ensures var end := After(Next(s, DispatchSignal), events);
      && Sigreturn(end.guest).Ok?
      && ContextOf(Sigreturn(end.guest).value) == ContextOf(s.guest)
      && Sigreturn(end.guest).value.cpu.mem == end.guest.cpu.mem
      && Next(end, ReturnFromSignal).frames == s.frames
  {
    hide Dispatch, Sigreturn, FrameWords, LoadWords, AllowedRun, StaysAbove, After;
    var s1, n := Next(s, DispatchSignal), |s.frames|;
    var end := After(s1, events);
    StepKeepsNested(s, DispatchSignal);
    RunKeepsNested(s1, events);
    OuterFramesStay(s1, events, n + 1);
    assert end.frames == s1.frames[..n + 1];
    assert end.frames[n].context == ContextOf(s.guest);
    SigreturnRestores(end.guest, end.frames[n].context);
    assert end.frames[..n] == s.frames;
  }

  /** Without outstanding frames there is nothing to keep: every run may start from any guest. */
  lemma StartIsNested(g: Guest)
    requires TopPageFree(g.cpu.mem)
    ensures Nested(Machine(g, [])) && MasksGrow(Machine(g, []))
  {
  }

  /** A handler that returns at once, by popping the return address into the trampoline, brings the
      interrupted context back. */
  lemma ImmediateReturn(g: Guest)
    requires TopPageFree(g.cpu.mem) && Dispatch(g).1.Entered?
    requires Readable(g.cpu.mem, Dispatch(g).1.frame - 8, Dispatch(g).1.frame + FRAME_SIZE)
    ensures var (g1, r) := Dispatch(g);
      var popped := g1.(cpu := g1.cpu.(gpr := g1.cpu.gpr[RSP := r.frame]));
      Sigreturn(popped).Ok? && ContextOf(Sigreturn(popped).value) == ContextOf(g)
  {
    hide Dispatch, Sigreturn, Intact, Readable, FrameWords, LoadWords, TopPageFree;
    var (g1, r) := Dispatch(g);
    var s, popped := Machine(g, []), g1.(cpu := g1.cpu.(gpr := g1.cpu.gpr[RSP := r.frame]));
    StartIsNested(g);
    DispatchKeepsNested(s);
    var s1, event := Next(s, DispatchSignal), GuestRuns(popped);
    assert s1.frames == [Frame(r.frame, ContextOf(g))];
    NestedParts(s1);
    assert Allowed(s1, event);
    OneEvent(s1, event, 1);
    SignalRoundTrip(s, [event]);
  }

  lemma NestedParts(s: Machine)
    requires Nested(s)
    ensures TopPageFree(s.guest.cpu.mem) && forall i :: 0 <= i < |s.frames| ==> Intact(s.guest.cpu.mem, s.frames[i])
  {
  }

  lemma OneEvent(s: Machine, e: Event, n: nat)
    requires Allowed(s, e) && n <= |s.frames| && n <= |Next(s, e).frames|
    ensures AllowedRun(s, [e]) && After(s, [e]) == Next(s, e) && StaysAbove(s, [e], n)
  {
    hide Allowed, Next;
    assert [e][1..] == [];
    assert After(Next(s, e), []) == Next(s, e);
    assert StaysAbove(Next(s, e), [], n);
  }

  // ----- the depth of nesting -----

  /** The blocked signals among 1 to n. */
  function BlockedCount(mask: u64, n: nat): nat
    requires n < 64
  {
    if n == 0 then 0 else BlockedCount(mask, n - 1) + if InMask(mask, n) then 1 else 0
  }

  lemma {:induction false} CountAtMost(mask: u64, n: nat)
    requires n < 64
    ensures BlockedCount(mask, n) <= n
  {
    if n > 0 {
      CountAtMost(mask, n - 1);
    }
  }

  /** A mask that blocks more, and at least one signal that was not blocked, counts more. */
  lemma {:induction false} CountGrows(mask: u64, mask': u64, n: nat, s: Signal)
    requires n < 64 && forall k: Signal :: InMask(mask, k) ==> InMask(mask', k)
    requires !InMask(mask, s) && InMask(mask', s)
    ensures BlockedCount(mask', n) >= BlockedCount(mask, n) + if s <= n then 1 else 0
  {
    hide InMask;
    if n > 0 {
      CountGrows(mask, mask', n - 1, s);
    }
  }

  lemma MaskAfter(g: Guest, s: Signal)
    requires FirstDeliverable(g.pending, g.mask, 1) == Some(s) && Dispatch(g).1.Entered?
    ensures Dispatch(g).0.mask == WithSignal(Or(g.mask, g.actions[s].mask), s, true) && Dispatch(g).1.signal == s
  {
    hide StoreWords, PushedWords, FirstDeliverable, FrameAddress, WithSignal, Or;
  }

  /** A dispatch blocks its own signal, which was not blocked, and unblocks nothing. */
  lemma DispatchBlocks(g: Guest)
    requires Dispatch(g).1.Entered?
    ensures var (g', r) := Dispatch(g);
      && !InMask(g.mask, r.signal) && InMask(g'.mask, r.signal)
      && (forall k: Signal :: InMask(g.mask, k) ==> InMask(g'.mask, k))
      && BlockedCount(g'.mask, 63) > BlockedCount(g.mask, 63)
  {
    hide StoreWords, PushedWords, Bit, SetBit, FrameAddress;
    var s: int := FirstDeliverable(g.pending, g.mask, 1).value;
    var (g', r) := Dispatch(g);
    var wide := Or(g.mask, g.actions[s].mask);
    SetFlagBits(wide, s - 1, true);
    MaskAfter(g, s);
    forall k: Signal | InMask(g.mask, k) ensures InMask(g'.mask, k) {
      Pow2Of64();
      BitOfBitwise((x, y) => x || y, g.mask, g.actions[s].mask, 64, k as int - 1);
      assert Flag(wide, k as int - 1);
      assert Flag(g'.mask, k as int - 1);
    }
    assert Flag(g'.mask, s - 1);
    CountGrows(g.mask, g'.mask, 63, s);
  }

  /** A dispatch consumes exactly the lowest-numbered pending signal that is not blocked. */
  lemma DispatchConsumesLowest(g: Guest)
    ensures var (g', r) := Dispatch(g);
      if r.Idle? then g' == g && forall k: Signal :: !Deliverable(g.pending, g.mask, k)
      else exists s: Signal :: Consumes(g, g', s) && (r.Entered? ==> r.signal == s)
  {
    hide StoreWords, PushedWords, SetBit, Deliverable;
    var first := FirstDeliverable(g.pending, g.mask, 1);
    if first.Some? {
      var s: int := first.value;
      SetFlagBits(g.pending, s - 1, false);
      var (g', r) := Dispatch(g);
      assert g'.pending == WithSignal(g.pending, s, false);
      forall k: Signal ensures InMask(g'.pending, k) <==> InMask(g.pending, k) && k != s {
        var j := k as int - 1;
        assert Flag(g'.pending, j) == if j == s - 1 then false else Flag(g.pending, j);
      }
      assert Consumes(g, g', s);
    }
  }

  /** Signal s was the lowest deliverable one, and only it left the pending set. */
  predicate Consumes(g: Guest, g': Guest, s: Signal) {
    && Deliverable(g.pending, g.mask, s) && (forall k: Signal :: k < s ==> !Deliverable(g.pending, g.mask, k))
    && (forall k: Signal :: InMask(g'.pending, k) <==> (InMask(g.pending, k) && k != s))
  }

  /** Guest code that leaves the mask alone. */
  predicate KeepsMask(s: Machine, e: Event) {
    e.GuestRuns? ==> e.guest.mask == s.guest.mask
  }

  /** The mask in force right above frame i. */
  function MaskOver(s: Machine, i: nat): u64 {
    if i + 1 < |s.frames| then s.frames[i + 1].context.mask else s.guest.mask
  }

  /** Each outstanding frame saved a mask that blocked fewer signals than the one above it. */
  predicate MasksGrow(s: Machine) {
    forall i :: 0 <= i < |s.frames| ==>
      i <= BlockedCount(s.frames[i].context.mask, 63) < BlockedCount(MaskOver(s, i), 63)
  }

  lemma StepKeepsMasks(s: Machine, e: Event)
    requires Nested(s) && Allowed(s, e) && KeepsMask(s, e) && MasksGrow(s)
    ensures MasksGrow(Next(s, e))
  {
    hide BlockedCount, Dispatch, Sigreturn, Intact, Readable, Nested;
    match e
    case GuestRuns(g) =>
    case DispatchSignal =>
      if Dispatch(s.guest).1.Entered? {
        DispatchBlocks(s.guest);
        assert |s.frames| > 0 ==> MaskOver(s, |s.frames| - 1) == s.guest.mask;
      } else {
        QuietDispatch(s.guest);
      }
    case ReturnFromSignal => ReturnKeepsNested(s);
  }

  predicate MaskKeepingRun(s: Machine, events: seq<Event>)
    decreases |events|
  {
    |events| == 0 || (Allowed(s, events[0]) && KeepsMask(s, events[0]) && MaskKeepingRun(Next(s, events[0]), events[1..]))
  }

  /** In a run whose handlers leave the mask alone, at most 63 frames are ever outstanding. */
  lemma {:induction false} NestingIsBounded(s: Machine, events: seq<Event>)
    requires Nested(s) && MasksGrow(s) && MaskKeepingRun(s, events)
    ensures AllowedRun(s, events) && |After(s, events).frames| <= 63
    decreases |events|
  {
    hide Dispatch, Sigreturn, Nested, BlockedCount, Intact, Readable, Allowed, Next;
    if |events| == 0 {
      CountAtMost(s.guest.mask, 63);
      if |s.frames| > 0 {
        var last := |s.frames| - 1;
        assert MaskOver(s, last) == s.guest.mask;
      }
    } else {
      StepKeepsNested(s, events[0]);
      StepKeepsMasks(s, events[0]);
      NestingIsBounded(Next(s, events[0]), events[1..]);
    }
  }
}
