/** Two-run noninterference: as long as neither a tainted pointer nor a tainted branch is
    reported, a run does not depend on data its shadow calls uninitialized. `TaintExact` shows that
    the steps left out of the theorem are exactly those that do. */
module Taint {
  import opened Words
  import opened FlatMemory
  import opened Registers
  import opened Alu
  import opened Cpu

  // ----- agreement of two machines -----

  /** The words agree in every byte the shadow calls defined. */
  predicate WordsAgree(v: u64, v': u64, shadow: u64) {
    forall k :: 0 <= k < 8 && Lane(shadow, k) == 0 ==> Lane(v, k) == Lane(v', k)
  }

  predicate FilesAgree(f: File, f': File, shadow: File) {
    forall r: Reg :: WordsAgree(f[r], f'[r], shadow[r])
  }

  predicate StatusAgree(rflags: u64, rflags': u64) {
    && Flag(rflags, CF) == Flag(rflags', CF) && Flag(rflags, PF) == Flag(rflags', PF)
    && Flag(rflags, ZF) == Flag(rflags', ZF) && Flag(rflags, SF) == Flag(rflags', SF)
    && Flag(rflags, OF) == Flag(rflags', OF)
  }

  predicate CellsAgree(c: Cell, c': Cell) {
    c' == c.(value := c'.value) && (c.initialized ==> c'.value == c.value)
  }

  predicate MemoriesAgree(m: Memory, m': Memory) {
    m.Keys == m'.Keys && forall a :: a in m ==> CellsAgree(m[a], m'[a])
  }

  /** Equal control state, shadows and reports; equal data wherever it is defined. */
  predicate Agree(s: State, t: State) {
    && s.rip == t.rip && s.fsBase == t.fsBase && s.gsBase == t.gsBase
    && s.shadow == t.shadow && s.taint == t.taint && s.flagsTainted == t.flagsTainted && s.reports == t.reports
    && FilesAgree(s.gpr, t.gpr, s.shadow)
    && (!s.flagsTainted ==> StatusAgree(s.rflags, t.rflags))
    && MemoriesAgree(s.mem, t.mem)
  }

  /** No tainted pointer and no tainted branch has been reported. */
  predicate Quiet(reports: seq<Report>) {
    forall i :: 0 <= i < |reports| ==> reports[i].UninitRead?
  }

  function Log(r: Exec<State>): seq<Report> {
    match r case Done(s) => s.reports case Faulted(_, reports) => reports
  }

  /** The same outcome on both machines: agreeing states, or the same error. */
  predicate SameOutcome(r: Exec<State>, r': Exec<State>) {
    match r
    case Done(s) => r'.Done? && Agree(s, r'.value)
    case Faulted(_, _) => r' == r
  }

  /** The same value on both machines unless the instruction is tainted. */
  predicate SameRead(r: Exec<(State, u64)>, r': Exec<(State, u64)>) {
    match r
    case Done(v) => r'.Done? && Agree(v.0, r'.value.0) && (!v.0.taint ==> v.1 == r'.value.1)
    case Faulted(e, reports) => r'.Faulted? && r'.error == e && r'.reports == reports
  }

  // ----- registers -----

  lemma {:induction false} ZeroWord(bs: seq<u8>, k: nat)
    requires k < |bs| && FromBytes(bs) == 0
    ensures bs[k] == 0
  {
    if k > 0 {
      ZeroWord(bs[1..], k - 1);
    }
  }

  /** A view whose shadow is clear reads the same on both machines. */
  lemma ExtractAgrees(f: File, f': File, shadow: File, r: Reg, w: Width, rex: bool)
    requires FilesAgree(f, f', shadow) && Extract(shadow, r, w, rex) == 0
    ensures Extract(f, r, w, rex) == Extract(f', r, w, rex)
  {
    hide Extract, ToBytes, FromBytes;
    var home, k := Home(r, w, rex), First(r, w, rex);
    ExtractLanes(f, r, w, rex);
    ExtractLanes(f', r, w, rex);
    ExtractLanes(shadow, r, w, rex);
    var bs := ToBytes(shadow[home], 8)[k..k + Size(w)];
    forall j | k <= j < k + Size(w) ensures ToBytes(f[home], 8)[j] == ToBytes(f'[home], 8)[j] {
      ZeroWord(bs, j - k);
      assert Lane(shadow[home], j) == bs[j - k];
      assert WordsAgree(f[home], f'[home], shadow[home]);
      assert Lane(f[home], j) == Lane(f'[home], j);
    }
    assert ToBytes(f[home], 8)[k..k + Size(w)] == ToBytes(f'[home], 8)[k..k + Size(w)];
  }

  lemma {:induction false} AllOnes(n: nat, k: nat)
    requires k < n
    ensures ToBytes(Pow256(n) - 1, n)[k] == 255
  {
    var rest := Pow256(n - 1) - 1;
    assert Pow256(n) - 1 == 256 * rest + 255;
    assert (256 * rest + 255) % 256 == 255 && (256 * rest + 255) / 256 == rest;
    if k > 0 {
      AllOnes(n - 1, k - 1);
    }
  }

  /** Writing equal values with a clear shadow, or anything with a set shadow, keeps agreement. */
  lemma InsertAgrees(f: File, f': File, shadow: File, r: Reg, w: Width, rex: bool, v: u64, v': u64, tainted: bool)
    requires FilesAgree(f, f', shadow) && v < Modulus(w) && v' < Modulus(w) && (!tainted ==> v == v')
    ensures FilesAgree(Insert(f, r, w, rex, v), Insert(f', r, w, rex, v'),
      Insert(shadow, r, w, rex, if tainted then Modulus(w) - 1 else 0))
  {
    hide Insert, ToBytes, Lane, Modulus;
    var mark := if tainted then Modulus(w) - 1 else 0;
    var g, g', sh := Insert(f, r, w, rex, v), Insert(f', r, w, rex, v'), Insert(shadow, r, w, rex, mark);
    forall i: Reg, k | 0 <= k < 8 && Lane(sh[i], k) == 0 ensures Lane(g[i], k) == Lane(g'[i], k) {
      InsertLanes(f, r, w, rex, v, i, k);
      InsertLanes(f', r, w, rex, v', i, k);
      InsertLanes(shadow, r, w, rex, mark, i, k);
      assert WordsAgree(f[i], f'[i], shadow[i]);
      var at := First(r, w, rex);
      if tainted && i == Home(r, w, rex) && at <= k < at + Size(w) {
        MarkedLane(w, k - at);
      }
    }
  }

  lemma MarkedLane(w: Width, k: nat)
    requires k < Size(w)
    ensures ToBytes(Modulus(w) - 1, 8)[k] == 255
  {
    hide ToBytes;
    PowerOfSize(w);
    BytesPrefix(Modulus(w) - 1, 8, Size(w));
    AllOnes(Size(w), k);
  }

  lemma WholeWordsAgree(v: u64, v': u64, shadow: u64)
    requires WordsAgree(v, v', shadow) && shadow == 0
    ensures v == v'
  {
    ZeroWordBytes(8);
    forall k | 0 <= k < 8 ensures ToBytes(v, 8)[k] == ToBytes(v', 8)[k] {
      assert Lane(shadow, k) == 0;
      assert Lane(v, k) == Lane(v', k);
    }
    assert ToBytes(v, 8) == ToBytes(v', 8);
    PowerOfSize(W64);
    ValueOfBytes(v, 8);
    ValueOfBytes(v', 8);
  }

  // ----- memory -----

  predicate BytesAgree(bs: seq<ShadowByte>, bs': seq<ShadowByte>) {
    |bs| == |bs'| && forall i :: 0 <= i < |bs| ==>
      bs[i].initialized == bs'[i].initialized && (bs[i].initialized ==> bs[i] == bs'[i])
  }

  lemma {:induction false} LoadAgrees(m: Memory, m': Memory, a: u64, n: nat)
    requires MemoriesAgree(m, m')
    ensures match Load(m, a, n)
      case Err(e) => Load(m', a, n) == Err(e)
      case Ok(bs) => Load(m', a, n).Ok? && BytesAgree(bs, Load(m', a, n).value)
    decreases n
  {
    if n > 0 {
      LoadAgrees(m, m', At(a, 1), n - 1);
      assert a in m ==> CellsAgree(m[a], m'[a]);
    }
  }

  lemma {:induction false} StoreAgrees(m: Memory, m': Memory, a: u64, bs: seq<ShadowByte>, bs': seq<ShadowByte>)
    requires MemoriesAgree(m, m') && BytesAgree(bs, bs')
    ensures Store(m, a, bs).error == Store(m', a, bs').error
    ensures MemoriesAgree(Store(m, a, bs).mem, Store(m', a, bs').mem)
    decreases |bs|
  {
    if |bs| > 0 {
      assert a in m ==> CellsAgree(m[a], m'[a]);
      if StoreByte(m, a, bs[0]).Ok? {
        var n, n' := StoreByte(m, a, bs[0]).value, StoreByte(m', a, bs'[0]).value;
        forall x | x in n ensures CellsAgree(n[x], n'[x]) {
          assert x in m ==> CellsAgree(m[x], m'[x]);
        }
        StoreAgrees(n, n', At(a, 1), bs[1..], bs'[1..]);
      }
    }
  }

  /** The same addresses with the same protections. */
  predicate SameAccess(m: Memory, m': Memory) {
    m.Keys == m'.Keys && forall a :: a in m ==> m[a].prot == m'[a].prot
  }

  lemma {:induction false} StoreFaultsAlike(m: Memory, m': Memory, a: u64, bs: seq<ShadowByte>, bs': seq<ShadowByte>)
    requires SameAccess(m, m') && |bs| == |bs'|
    ensures Store(m, a, bs).error == Store(m', a, bs').error
    decreases |bs|
  {
    if |bs| > 0 && StoreByte(m, a, bs[0]).Ok? {
      StoreFaultsAlike(StoreByte(m, a, bs[0]).value, StoreByte(m', a, bs'[0]).value, At(a, 1), bs[1..], bs'[1..]);
    }
  }

  lemma AccessAgrees(m: Memory, m': Memory)
    requires MemoriesAgree(m, m')
    ensures SameAccess(m, m')
  {
    forall a | a in m ensures m[a].prot == m'[a].prot {
      assert CellsAgree(m[a], m'[a]);
    }
  }

  // ----- operands -----

  lemma ReadGprAgrees(s: State, t: State, r: Reg, w: Width, rex: bool)
    requires Agree(s, t)
    ensures SameRead(Done(ReadGpr(s, r, w, rex)), Done(ReadGpr(t, r, w, rex)))
  {
    hide FilesAgree, Extract, MemoriesAgree, StatusAgree;
    if Extract(s.shadow, r, w, rex) == 0 {
      ExtractAgrees(s.gpr, t.gpr, s.shadow, r, w, rex);
    }
  }

  lemma WriteGprAgrees(s: State, t: State, r: Reg, w: Width, rex: bool, v: u64, v': u64)
    requires Agree(s, t) && (!s.taint ==> v == v')
    ensures Agree(WriteGpr(s, r, w, rex, v), WriteGpr(t, r, w, rex, v'))
  {
    hide FilesAgree, Insert, MemoriesAgree, StatusAgree;
    InsertAgrees(s.gpr, t.gpr, s.shadow, r, w, rex, Truncate(v, w), Truncate(v', w), s.taint);
  }

  /** With a clean address both machines find the same place; a tainted one is reported. */
  lemma LocateAgrees(s: State, t: State, o: Operand, next: u64)
    requires Agree(s, t)
    ensures s.reports <= Locate(s, o, next).0.reports
    ensures Quiet(Locate(s, o, next).0.reports) ==> Locate(s, o, next).0 == s && Locate(t, o, next).0 == t
    ensures Quiet(Locate(s, o, next).0.reports) ==> Locate(s, o, next).1 == Locate(t, o, next).1
  {
    if o.Memory? {
      AddressAgrees(s, t, o.address, next);
    }
  }

  lemma AddressAgrees(s: State, t: State, a: Address, next: u64)
    requires Agree(s, t)
    ensures s.reports <= DecodeAddress(s, a, next).reports
    ensures Quiet(DecodeAddress(s, a, next).reports) ==>
      !AddressTainted(s, a) && !AddressTainted(t, a) && DecodedAddress(s, a, next) == DecodedAddress(t, a, next)
  {
    if AddressTainted(s, a) {
      var log := DecodeAddress(s, a, next).reports;
      assert log[|log| - 1].UninitPointer?;
    } else if !a.ripRelative {
      if a.base.Some? {
        assert WordsAgree(s.gpr[a.base.value], t.gpr[a.base.value], s.shadow[a.base.value]);
        WholeWordsAgree(s.gpr[a.base.value], t.gpr[a.base.value], s.shadow[a.base.value]);
      }
      if a.index.Some? {
        assert WordsAgree(s.gpr[a.index.value], t.gpr[a.index.value], s.shadow[a.index.value]);
        WholeWordsAgree(s.gpr[a.index.value], t.gpr[a.index.value], s.shadow[a.index.value]);
      }
    }
  }

  lemma ReadAgrees(s: State, t: State, p: Place, w: Width, rex: bool)
    requires Agree(s, t)
    ensures SameRead(ReadOperand(s, p, w, rex), ReadOperand(t, p, w, rex))
  {
    hide FilesAgree, MemoriesAgree, StatusAgree, Load, Extract;
    match p
    case InRegister(r) => ReadGprAgrees(s, t, r, w, rex);
    case InMemory(a) =>
      LoadAgrees(s.mem, t.mem, a, Size(w));
      if Load(s.mem, a, Size(w)).Ok? {
        var bs, bs' := Load(s.mem, a, Size(w)).value, Load(t.mem, a, Size(w)).value;
        if AllInitialized(bs) {
          assert bs == bs';
        } else {
          var i :| 0 <= i < |bs| && !bs[i].initialized;
          assert !bs'[i].initialized;
        }
      }
  }

  lemma WriteAgrees(s: State, t: State, p: Place, w: Width, rex: bool, v: u64, v': u64)
    requires Agree(s, t) && (!s.taint ==> v == v')
    ensures SameOutcome(WriteOperand(s, p, w, rex, v), WriteOperand(t, p, w, rex, v'))
  {
    hide FilesAgree, MemoriesAgree, StatusAgree, Store, Insert;
    match p
    case InRegister(r) => WriteGprAgrees(s, t, r, w, rex, v, v');
    case InMemory(a) =>
      var bs := Tainted(ToBytes(Truncate(v, w), Size(w)), s.taint);
      var bs' := Tainted(ToBytes(Truncate(v', w), Size(w)), t.taint);
      StoreAgrees(s.mem, t.mem, a, bs, bs');
  }

  /** Whether a write faults does not depend on the value, nor on its taint. */
  lemma WriteFaultsAlike(s: State, t: State, p: Place, w: Width, rex: bool, v: u64, v': u64)
    requires MemoriesAgree(s.mem, t.mem) && s.reports == t.reports && WriteOperand(s, p, w, rex, v).Faulted?
    ensures WriteOperand(t, p, w, rex, v') == WriteOperand(s, p, w, rex, v)
  {
    hide MemoriesAgree, Store;
    AccessAgrees(s.mem, t.mem);
    var bs := Tainted(ToBytes(Truncate(v, w), Size(w)), s.taint);
    var bs' := Tainted(ToBytes(Truncate(v', w), Size(w)), t.taint);
    StoreFaultsAlike(s.mem, t.mem, p.address, bs, bs');
  }

  lemma MemoryAgrees(s: State, t: State)
    requires Agree(s, t)
    ensures MemoriesAgree(s.mem, t.mem) && s.reports == t.reports
  {
  }

  // ----- flags -----

  lemma FlagsAgree(s: State, t: State, rflags: u64, rflags': u64)
    requires Agree(s, t) && (!s.taint ==> StatusAgree(rflags, rflags'))
    ensures Agree(WithFlags(s, rflags), WithFlags(t, rflags'))
  {
    hide FilesAgree, MemoriesAgree, StatusAgree;
  }

  lemma ConditionAgrees(cc: nat, rflags: u64, rflags': u64)
    requires cc < 16 && StatusAgree(rflags, rflags')
    ensures Condition(cc, rflags) == Condition(cc, rflags')
  {
    hide Flag;
  }

  /** What the flags held before does not show in the flags of a computation. */
  predicate SameFlagged(r: Flagged, r': Flagged) {
    r.value == r'.value && StatusAgree(r.rflags, r'.rflags)
  }

  predicate ReadsCarry(op: AluOp) {
    op == AdcOp || op == SbbOp
  }

  lemma AddAgrees(lhs: u64, rhs: u64, w: Width, carry: bool, f: u64, f': u64)
    requires carry ==> Flag(f, CF) == Flag(f', CF)
    ensures SameFlagged(Add(lhs, rhs, w, carry, f), Add(lhs, rhs, w, carry, f'))
  {
    hide Flag, ArithFlags, Truncate, Sign, Aux, Wrap, Parity;
    var r := Add(lhs, rhs, w, carry, f);
    var full := Wrap(Truncate(lhs, w) + Truncate(rhs, w) + CarryIn(carry, f));
    var overflow := Sign(lhs, w) == Sign(rhs, w) && Sign(lhs, w) != Sign(r.value, w);
    ArithFlagBits(f, full >= Modulus(w), Aux(lhs, rhs, r.value), r.value, w, overflow);
    ArithFlagBits(f', full >= Modulus(w), Aux(lhs, rhs, r.value), r.value, w, overflow);
  }

  lemma SubAgrees(lhs: u64, rhs: u64, w: Width, borrow: bool, f: u64, f': u64)
    requires borrow ==> Flag(f, CF) == Flag(f', CF)
    ensures SameFlagged(Sub(lhs, rhs, w, borrow, f), Sub(lhs, rhs, w, borrow, f'))
  {
    hide Flag, ArithFlags, Truncate, Sign, Aux, Wrap, Parity;
    var r := Sub(lhs, rhs, w, borrow, f);
    var right := Wrap(Truncate(rhs, w) + CarryIn(borrow, f));
    var overflow := Sign(lhs, w) != Sign(rhs, w) && Sign(lhs, w) != Sign(r.value, w);
    ArithFlagBits(f, Truncate(lhs, w) < right, Aux(lhs, rhs, r.value), r.value, w, overflow);
    ArithFlagBits(f', Truncate(lhs, w) < right, Aux(lhs, rhs, r.value), r.value, w, overflow);
  }

  lemma LogicAgrees(v: u64, w: Width, f: u64, f': u64)
    ensures SameFlagged(Logic(v, w, f), Logic(v, w, f'))
  {
    hide Flag, LogicFlags, Truncate, Sign, Parity;
    LogicFlagBits(f, v, w);
    LogicFlagBits(f', v, w);
  }

  lemma ComputeAgrees(op: AluOp, lhs: u64, rhs: u64, w: Width, f: u64, f': u64)
    requires ReadsCarry(op) ==> Flag(f, CF) == Flag(f', CF)
    ensures SameFlagged(Compute(op, lhs, rhs, w, f), Compute(op, lhs, rhs, w, f'))
  {
    hide SameFlagged, Add, Sub, Logic, Flag;
    match op
    case AddOp => AddAgrees(lhs, rhs, w, false, f, f');
    case AdcOp => AddAgrees(lhs, rhs, w, true, f, f');
    case SubOp => SubAgrees(lhs, rhs, w, false, f, f');
    case CmpOp => SubAgrees(lhs, rhs, w, false, f, f');
    case SbbOp => SubAgrees(lhs, rhs, w, true, f, f');
    case OrOp => LogicAgrees(Or(lhs, rhs), w, f, f');
    case AndOp => LogicAgrees(And(lhs, rhs), w, f, f');
    case XorOp => LogicAgrees(Xor(lhs, rhs), w, f, f');
  }

  lemma {:induction false} XorSelf(v: nat, n: nat)
    ensures Bitwise((x, y) => x != y, v, v, n) == 0
  {
    if n > 0 {
      XorSelf(v / 2, n - 1);
    }
  }

  /** `xor r, r`, `sub r, r` and `cmp r, r` compute the same from any two values. */
  lemma SelfComputeAgrees(op: AluOp, v: u64, v': u64, w: Width, f: u64, f': u64)
    requires op in {SubOp, XorOp, CmpOp}
    ensures SameFlagged(Compute(op, v, v, w, f), Compute(op, v', v', w, f'))
  {
    if op == XorOp {
      XorSelf(v, 64);
      XorSelf(v', 64);
      assert Xor(v, v) == 0 && Xor(v', v') == 0;
      LogicAgrees(0, w, f, f');
    } else {
      SelfSubtract(v, v', w, f, f');
    }
  }

  lemma SelfSubtract(v: u64, v': u64, w: Width, f: u64, f': u64)
    ensures SameFlagged(Sub(v, v, w, false, f), Sub(v', v', w, false, f'))
  {
    hide Flag, ArithFlags, Truncate, Aux, Parity;
    WrapOnce(Truncate(v, w));
    WrapOnce(Truncate(v', w));
    Fits(0, w);
    assert Sub(v, v, w, false, f).value == 0 && Sub(v', v', w, false, f').value == 0;
    ArithFlagBits(f, false, Aux(v, v, 0), 0, w, false);
    ArithFlagBits(f', false, Aux(v', v', 0), 0, w, false);
  }

  // ----- parts of instructions -----

  lemma ReadFacts(s: State, p: Place, w: Width, rex: bool)
    ensures match ReadOperand(s, p, w, rex)
      case Done(v) =>
        && s.reports <= v.0.reports && (s.taint ==> v.0.taint)
        && v.0 == s.(taint := v.0.taint, reports := v.0.reports)
      case Faulted(_, log) => log == s.reports
  {
  }

  lemma WriteFacts(s: State, p: Place, w: Width, rex: bool, v: u64)
    ensures Log(WriteOperand(s, p, w, rex, v)) == s.reports
  {
  }

  lemma FinishAgrees(s: State, t: State, op: AluOp, w: Width, rex: bool, d: Place, lhs: u64, rhs: u64, lhs': u64, rhs': u64)
    requires Agree(s, t)
    requires !s.taint ==> SameFlagged(Compute(op, lhs, rhs, w, s.rflags), Compute(op, lhs', rhs', w, t.rflags))
    ensures SameOutcome(Finish(s, op, w, rex, d, lhs, rhs), Finish(t, op, w, rex, d, lhs', rhs'))
    ensures Log(Finish(s, op, w, rex, d, lhs, rhs)) == s.reports
  {
    hide Agree, Compute, WriteOperand, StatusAgree, SameOutcome;
    var r, r' := Compute(op, lhs, rhs, w, s.rflags), Compute(op, lhs', rhs', w, t.rflags);
    TaintsAgree(s, t);
    FlagsAgree(s, t, r.rflags, r'.rflags);
    if op == CmpOp {
      DoneAgrees(WithFlags(s, r.rflags), WithFlags(t, r'.rflags));
    } else {
      WriteAgrees(WithFlags(s, r.rflags), WithFlags(t, r'.rflags), d, w, rex, r.value, r'.value);
      WriteFacts(WithFlags(s, r.rflags), d, w, rex, r.value);
    }
  }

  lemma FinishFaultsAlike(s: State, t: State, op: AluOp, w: Width, rex: bool, d: Place, lhs: u64, rhs: u64, lhs': u64, rhs': u64)
    requires Agree(s, t) && Finish(s, op, w, rex, d, lhs, rhs).Faulted?
    ensures Finish(t, op, w, rex, d, lhs', rhs') == Finish(s, op, w, rex, d, lhs, rhs)
  {
    hide Agree, MemoriesAgree, Compute, WriteOperand;
    var r, r' := Compute(op, lhs, rhs, w, s.rflags), Compute(op, lhs', rhs', w, t.rflags);
    MemoryAgrees(s, t);
    WriteFaultsAlike(WithFlags(s, r.rflags), WithFlags(t, r'.rflags), d, w, rex, r.value, r'.value);
  }

  lemma TaintsAgree(s: State, t: State)
    requires Agree(s, t)
    ensures s.taint == t.taint && s.flagsTainted == t.flagsTainted && s.rip == t.rip && s.reports == t.reports
    ensures !s.flagsTainted ==> StatusAgree(s.rflags, t.rflags)
  {
  }

  lemma DoneAgrees(s: State, t: State)
    requires Agree(s, t)
    ensures SameOutcome(Done(s), Done(t))
  {
  }

  /** Both operands can be read, and one of them taints the instruction. */
  predicate PairTaints(s: State, w: Width, rex: bool, d: Place, p: Place) {
    match ReadOperand(s, d, w, rex)
    case Faulted(_, _) => false
    case Done(v) => OperandTaints(v.0, w, rex, p)
  }

  /** The operand can be read, and the instruction is tainted then. */
  predicate OperandTaints(s: State, w: Width, rex: bool, p: Place) {
    match ReadOperand(s, p, w, rex)
    case Faulted(_, _) => false
    case Done(v) => v.0.taint
  }

  /** ADC and SBB with tainted flags agree if they fault anyway or an operand is tainted too. */
  lemma ArithmeticAgrees(s: State, t: State, op: AluOp, w: Width, rex: bool, d: Place, p: Place)
    requires Agree(s, t)
    requires ReadsCarry(op) && s.flagsTainted ==> ExecuteArithmetic(s, op, w, rex, d, p).Faulted? || PairTaints(s, w, rex, d, p)
    ensures SameOutcome(ExecuteArithmetic(s, op, w, rex, d, p), ExecuteArithmetic(t, op, w, rex, d, p))
  {
    hide Agree, Compute, ReadOperand, StatusAgree, Finish, SameFlagged, Flag;
    ReadAgrees(s, t, d, w, rex);
    ReadFacts(s, d, w, rex);
    ReadFacts(t, d, w, rex);
    var r, r' := ReadOperand(s, d, w, rex), ReadOperand(t, d, w, rex);
    if r.Done? {
      var (s1, lhs) := r.value;
      var (t1, lhs') := r'.value;
      ReadAgrees(s1, t1, p, w, rex);
      ReadFacts(s1, p, w, rex);
      ReadFacts(t1, p, w, rex);
      var q, q' := ReadOperand(s1, p, w, rex), ReadOperand(t1, p, w, rex);
      if q.Done? {
        var (s2, rhs) := q.value;
        var (t2, rhs') := q'.value;
        TaintsAgree(s2, t2);
        if SelfCancelling(op, d, p) {
          SameRegister(s, d, w, rex);
          SameRegister(t, d, w, rex);
          SelfComputeAgrees(op, lhs, lhs', w, s2.rflags, t2.rflags);
          Untainted(s2, t2);
          FinishAgrees(s2.(taint := false), t2.(taint := false), op, w, rex, d, lhs, rhs, lhs', rhs');
        } else if !s2.taint && ReadsCarry(op) && s2.flagsTainted {
          FinishFaultsAlike(s2, t2, op, w, rex, d, lhs, rhs, lhs', rhs');
        } else {
          if !s2.taint {
            if ReadsCarry(op) {
              CarryAgrees(s2.rflags, t2.rflags);
            }
            ComputeAgrees(op, lhs, rhs, w, s2.rflags, t2.rflags);
          }
          FinishAgrees(s2, t2, op, w, rex, d, lhs, rhs, lhs', rhs');
        }
      }
    }
  }

  lemma CarryAgrees(f: u64, f': u64)
    requires StatusAgree(f, f')
    ensures Flag(f, CF) == Flag(f', CF)
  {
  }

  /** Reading the same register twice gives the same value. */
  lemma SameRegister(s: State, d: Place, w: Width, rex: bool)
    requires d.InRegister?
    ensures var r := ReadOperand(s, d, w, rex);
      r.Done? && ReadOperand(r.value.0, d, w, rex).Done? && ReadOperand(r.value.0, d, w, rex).value.1 == r.value.1
  {
    hide Extract;
  }

  lemma Untainted(s: State, t: State)
    requires Agree(s, t)
    ensures Agree(s.(taint := false), t.(taint := false))
  {
    hide FilesAgree, MemoriesAgree, StatusAgree;
  }

  lemma MovAgrees(s: State, t: State, w: Width, rex: bool, d: Place, p: Place)
    requires Agree(s, t)
    ensures SameOutcome(ExecuteMov(s, w, rex, d, p), ExecuteMov(t, w, rex, d, p))
  {
    hide Agree, ReadOperand, WriteOperand;
    ReadAgrees(s, t, p, w, rex);
    ReadFacts(s, p, w, rex);
    var r, r' := ReadOperand(s, p, w, rex), ReadOperand(t, p, w, rex);
    if r.Done? {
      WriteAgrees(r.value.0, r'.value.0, d, w, rex, r.value.1, r'.value.1);
      WriteFacts(r.value.0, d, w, rex, r.value.1);
    }
  }

  lemma ExchangeAgrees(s: State, t: State, w: Width, rex: bool, rm: Place, r: Reg)
    requires Agree(s, t)
    ensures SameOutcome(ExecuteExchange(s, w, rex, rm, r), ExecuteExchange(t, w, rex, rm, r))
  {
    hide Agree, ReadOperand, WriteOperand, Extract, Insert;
    ReadAgrees(s, t, rm, w, rex);
    ReadFacts(s, rm, w, rex);
    var q, q' := ReadOperand(s, rm, w, rex), ReadOperand(t, rm, w, rex);
    if q.Done? {
      var (s1, lhs) := q.value;
      var (t1, lhs') := q'.value;
      ReadGprAgrees(s1, t1, r, w, rex);
      var (s2, rhs) := ReadGpr(s1, r, w, rex);
      var (t2, rhs') := ReadGpr(t1, r, w, rex);
      WriteAgrees(s2, t2, rm, w, rex, rhs, rhs');
      WriteFacts(s2, rm, w, rex, rhs);
      WriteKeepsTaint(s2, rm, w, rex, rhs);
      var x, x' := WriteOperand(s2, rm, w, rex, rhs), WriteOperand(t2, rm, w, rex, rhs');
      if x.Done? {
        WriteGprAgrees(x.value, x'.value, r, w, rex, lhs, lhs');
      }
    }
  }

  lemma WriteKeepsTaint(s: State, p: Place, w: Width, rex: bool, v: u64)
    ensures WriteOperand(s, p, w, rex, v).Done? ==> WriteOperand(s, p, w, rex, v).value.taint == s.taint
  {
  }

  lemma TestAgrees(s: State, t: State, w: Width, rex: bool, rm: Place, r: Reg)
    requires Agree(s, t)
    ensures SameOutcome(ExecuteTest(s, w, rex, rm, r), ExecuteTest(t, w, rex, rm, r))
  {
    hide Agree, ReadOperand, Extract, StatusAgree, And, LogicFlags, WithFlags, Truncate;
    ReadAgrees(s, t, rm, w, rex);
    ReadFacts(s, rm, w, rex);
    var q, q' := ReadOperand(s, rm, w, rex), ReadOperand(t, rm, w, rex);
    if q.Done? {
      var (s1, lhs) := q.value;
      var (t1, lhs') := q'.value;
      ReadGprAgrees(s1, t1, r, w, rex);
      var (s2, rhs) := ReadGpr(s1, r, w, rex);
      var (t2, rhs') := ReadGpr(t1, r, w, rex);
      LogicAgrees(And(lhs, rhs), w, s2.rflags, t2.rflags);
      FlagsAgree(s2, t2, LogicFlags(s2.rflags, And(lhs, rhs), w), LogicFlags(t2.rflags, And(lhs', rhs'), w));
    }
  }

  lemma CountAgreesFlags(up: bool, v: u64, w: Width, f: u64, f': u64)
    requires StatusAgree(f, f')
    ensures var op := if up then Inc(v) else Dec(v); SameFlagged(CountResult(op, w, f), CountResult(op, w, f'))
  {
    hide Add, Sub, Flag, SetFlag;
    AddAgrees(v, 1, w, false, f, f');
    SubAgrees(v, 1, w, false, f, f');
    var r := if up then Add(v, 1, w, false, f) else Sub(v, 1, w, false, f);
    var r' := if up then Add(v, 1, w, false, f') else Sub(v, 1, w, false, f');
    SetFlagBits(r.rflags, CF, Flag(f, CF));
    SetFlagBits(r'.rflags, CF, Flag(f', CF));
  }

  /** INC and DEC with tainted flags agree if they fault anyway or the operand is tainted too. */
  lemma CountAgrees(s: State, t: State, up: bool, w: Width, rex: bool, rm: Place)
    requires Agree(s, t)
    requires s.flagsTainted ==> ExecuteCount(s, up, w, rex, rm).Faulted? || OperandTaints(s, w, rex, rm)
    ensures SameOutcome(ExecuteCount(s, up, w, rex, rm), ExecuteCount(t, up, w, rex, rm))
  {
    hide Agree, MemoriesAgree, ReadOperand, WriteOperand, StatusAgree, CountResult;
    ReadAgrees(s, t, rm, w, rex);
    ReadFacts(s, rm, w, rex);
    var q, q' := ReadOperand(s, rm, w, rex), ReadOperand(t, rm, w, rex);
    if q.Done? {
      var (s1, v) := q.value;
      var (t1, v') := q'.value;
      TaintsAgree(s1, t1);
      MemoryAgrees(s1, t1);
      var r := CountResult(if up then Inc(v) else Dec(v), w, s1.rflags);
      var r' := CountResult(if up then Inc(v') else Dec(v'), w, t1.rflags);
      if s1.flagsTainted && !s1.taint {
        WriteFaultsAlike(WithFlags(s1, r.rflags), WithFlags(t1, r'.rflags), rm, w, rex, r.value, r'.value);
      } else {
        if !s1.flagsTainted {
          CountAgreesFlags(up, v, w, s1.rflags, t1.rflags);
        }
        FlagsAgree(s1, t1, r.rflags, r'.rflags);
        WriteAgrees(WithFlags(s1, r.rflags), WithFlags(t1, r'.rflags), rm, w, rex, r.value, r'.value);
      }
    }
  }

  lemma ShiftAgrees(s: State, t: State, op: ShiftOp, w: Width, rex: bool, rm: Place, count: nat)
    requires Agree(s, t)
    ensures SameOutcome(ExecuteShift(s, op, w, rex, rm, count), ExecuteShift(t, op, w, rex, rm, count))
  {
    hide Agree, ReadOperand, WriteOperand, StatusAgree, ShiftedBy;
    if count > 0 {
      ReadAgrees(s, t, rm, w, rex);
      ReadFacts(s, rm, w, rex);
      var q, q' := ReadOperand(s, rm, w, rex), ReadOperand(t, rm, w, rex);
      if q.Done? {
        var (s1, v) := q.value;
        var (t1, v') := q'.value;
        var x, x' := ShiftedBy(op, v, w, count), ShiftedBy(op, v', w, count);
        LogicAgrees(x, w, s1.rflags, t1.rflags);
        TaintsAgree(s1, t1);
        FlagsAgree(s1, t1, LogicFlags(s1.rflags, x, w), LogicFlags(t1.rflags, x', w));
        WriteAgrees(WithFlags(s1, LogicFlags(s1.rflags, x, w)), WithFlags(t1, LogicFlags(t1.rflags, x', w)), rm, w, rex, x, x');
        WriteFacts(WithFlags(s1, LogicFlags(s1.rflags, x, w)), rm, w, rex, x);
      }
    }
  }

  lemma SetTaint(s: State, t: State, taint: bool)
    requires Agree(s, t)
    ensures Agree(s.(taint := taint), t.(taint := taint))
  {
    hide FilesAgree, MemoriesAgree, StatusAgree;
  }

  lemma SetConditionAgrees(s: State, t: State, cc: nat, rex: bool, rm: Place)
    requires Agree(s, t)
    ensures SameOutcome(ExecuteSetCondition(s, cc, rex, rm), ExecuteSetCondition(t, cc, rex, rm))
  {
    hide Agree, WriteOperand, StatusAgree, Condition;
    TaintsAgree(s, t);
    SetTaint(s, t, s.taint || s.flagsTainted);
    if !s.flagsTainted {
      ConditionAgrees(cc % 16, s.rflags, t.rflags);
    }
    var v, v' := if Condition(cc % 16, s.rflags) then 1 else 0, if Condition(cc % 16, t.rflags) then 1 else 0;
    WriteAgrees(s.(taint := s.taint || s.flagsTainted), t.(taint := t.taint || t.flagsTainted), rm, W8, rex, v, v');
    WriteFacts(s.(taint := s.taint || s.flagsTainted), rm, W8, rex, v);
  }

  /** A move into the register would not show: the source reads without a report, the view is
      undefined already, and a 32-bit move finds nothing to clear above it. */
  predicate MoveInvisible(s: State, w: Width, rex: bool, r: Reg, p: Place) {
    && ReadOperand(s, p, w, rex).Done? && ReadOperand(s, p, w, rex).value.0.reports == s.reports
    && Insert(s.shadow, r, w, rex, Modulus(w) - 1) == s.shadow
    && (w == W32 ==> s.gpr[r] < 0x1_0000_0000)
  }

  /** The register file with the view overwritten agrees with the one before. */
  lemma InvisibleInsert(f: File, shadow: File, r: Reg, w: Width, rex: bool, v: u64)
    requires v < Modulus(w) && Insert(shadow, r, w, rex, Modulus(w) - 1) == shadow && (w == W32 ==> f[r] < 0x1_0000_0000)
    ensures FilesAgree(f, Insert(f, r, w, rex, v), shadow)
  {
    hide Insert, ToBytes, Lane, Modulus;
    forall i: Reg, k | 0 <= k < 8 && Lane(shadow[i], k) == 0 ensures Lane(f[i], k) == Lane(Insert(f, r, w, rex, v)[i], k) {
      InsertLanes(f, r, w, rex, v, i, k);
      InsertLanes(shadow, r, w, rex, Modulus(w) - 1, i, k);
      var at := First(r, w, rex);
      if i == Home(r, w, rex) && at <= k < at + Size(w) {
        MarkedLane(w, k - at);
      } else if i == Home(r, w, rex) && w == W32 {
        HighHalfZero(f[r], k);
      }
    }
  }

  lemma AgreeTransitive(s: State, t: State, u: State)
    requires Agree(s, t) && Agree(t, u)
    ensures Agree(s, u)
  {
    hide Flag, Lane;
    forall r: Reg ensures WordsAgree(s.gpr[r], u.gpr[r], s.shadow[r]) {
      assert WordsAgree(s.gpr[r], t.gpr[r], s.shadow[r]) && WordsAgree(t.gpr[r], u.gpr[r], s.shadow[r]);
    }
    forall a | a in s.mem ensures CellsAgree(s.mem[a], u.mem[a]) {
      assert CellsAgree(s.mem[a], t.mem[a]) && CellsAgree(t.mem[a], u.mem[a]);
    }
  }

  lemma AgreeSymmetric(s: State, t: State)
    requires Agree(s, t)
    ensures Agree(t, s)
  {
    hide Flag, Lane;
    forall r: Reg ensures WordsAgree(t.gpr[r], s.gpr[r], t.shadow[r]) {
      assert WordsAgree(s.gpr[r], t.gpr[r], s.shadow[r]);
    }
    forall a | a in t.mem ensures CellsAgree(t.mem[a], s.mem[a]) {
      assert CellsAgree(s.mem[a], t.mem[a]);
    }
  }

  /** A tainted conditional move that is taken. */
  function Taken(s: State, w: Width, rex: bool, r: Reg, p: Place): Exec<State> {
    var (s1, v) :- ReadOperand(s, p, w, rex);
    Done(WriteGpr(s1, r, w, rex, v))
  }

  lemma InvisibleTaken(s: State, w: Width, rex: bool, r: Reg, p: Place)
    requires s.taint && MoveInvisible(s, w, rex, r, p)
    ensures Taken(s, w, rex, r, p).Done? && Agree(s, Taken(s, w, rex, r, p).value)
  {
    hide ReadOperand, Insert, FilesAgree, MemoriesAgree, StatusAgree, Truncate;
    ReadFacts(s, p, w, rex);
    InvisibleInsert(s.gpr, s.shadow, r, w, rex, Truncate(ReadOperand(s, p, w, rex).value.1, w));
    SameMemory(s.mem);
    SameStatus(s.rflags);
  }

  lemma SameMemory(m: Memory)
    ensures MemoriesAgree(m, m)
  {
  }

  lemma SameStatus(f: u64)
    ensures StatusAgree(f, f)
  {
  }

  lemma TakenAgrees(s: State, t: State, w: Width, rex: bool, r: Reg, p: Place)
    requires Agree(s, t)
    ensures SameOutcome(Taken(s, w, rex, r, p), Taken(t, w, rex, r, p))
  {
    hide Agree, ReadOperand, Insert;
    ReadAgrees(s, t, p, w, rex);
    var q, q' := ReadOperand(s, p, w, rex), ReadOperand(t, p, w, rex);
    if q.Done? {
      WriteGprAgrees(q.value.0, q'.value.0, r, w, rex, q.value.1, q'.value.1);
    }
  }

  /** CMOVcc with tainted flags agrees if the move does not show, whichever machine makes it. */
  lemma MoveIfAgrees(s: State, t: State, cc: nat, w: Width, rex: bool, r: Reg, p: Place)
    requires Agree(s, t) && (s.flagsTainted ==> MoveInvisible(s, w, rex, r, p))
    ensures SameOutcome(ExecuteMoveIf(s, cc, w, rex, r, p), ExecuteMoveIf(t, cc, w, rex, r, p))
  {
    hide Agree, ReadOperand, StatusAgree, Condition, Insert, MoveInvisible;
    TaintsAgree(s, t);
    SetTaint(s, t, s.taint || s.flagsTainted);
    var s1, t1 := s.(taint := s.taint || s.flagsTainted), t.(taint := t.taint || t.flagsTainted);
    TakenAgrees(s1, t1, w, rex, r, p);
    if !s.flagsTainted {
      ConditionAgrees(cc % 16, s.rflags, t.rflags);
    } else {
      InvisibleToo(s, w, rex, r, p);
      InvisibleTaken(s1, w, rex, r, p);
      var a, b := Taken(s1, w, rex, r, p).value, Taken(t1, w, rex, r, p).value;
      AgreeTransitive(s1, a, b);
      AgreeSymmetric(s1, a);
      AgreeTransitive(a, s1, t1);
    }
  }

  /** The taint so far does not matter to what a move would show. */
  lemma InvisibleToo(s: State, w: Width, rex: bool, r: Reg, p: Place)
    requires MoveInvisible(s, w, rex, r, p)
    ensures MoveInvisible(s.(taint := true), w, rex, r, p)
  {
    hide Insert, Load, Extract;
  }

  lemma UnaryAgrees(s: State, t: State, i: Instruction, rex: bool, rm: Place)
    requires Agree(s, t) && (i.NotOp? || i.NegOp? || i.TestImmediate?)
    ensures SameOutcome(ExecuteUnary(s, i, rex, rm), ExecuteUnary(t, i, rex, rm))
  {
    hide Agree, ReadOperand, WriteOperand, StatusAgree, And, Sub;
    ReadAgrees(s, t, rm, i.w, rex);
    ReadFacts(s, rm, i.w, rex);
    var q, q' := ReadOperand(s, rm, i.w, rex), ReadOperand(t, rm, i.w, rex);
    if q.Done? {
      var (s1, v) := q.value;
      var (t1, v') := q'.value;
      TaintsAgree(s1, t1);
      match i
      case NotOp(w, _) =>
        WriteAgrees(s1, t1, rm, w, rex, Not(v), Not(v'));
        WriteFacts(s1, rm, w, rex, Not(v));
      case NegOp(w, _) =>
        var r, r' := Sub(0, v, w, false, s1.rflags), Sub(0, v', w, false, t1.rflags);
        SubAgrees(0, v, w, false, s1.rflags, t1.rflags);
        FlagsAgree(s1, t1, r.rflags, r'.rflags);
        WriteAgrees(WithFlags(s1, r.rflags), WithFlags(t1, r'.rflags), rm, w, rex, r.value, r'.value);
        WriteFacts(WithFlags(s1, r.rflags), rm, w, rex, r.value);
      case TestImmediate(w, _, value) =>
        LogicAgrees(And(v, value), w, s1.rflags, t1.rflags);
        FlagsAgree(s1, t1, LogicFlags(s1.rflags, And(v, value), w), LogicFlags(t1.rflags, And(v', value), w));
    }
  }

  lemma ImmediateAgrees(s: State, t: State, op: AluOp, w: Width, rex: bool, d: Place, value: u64)
    requires Agree(s, t)
    requires ReadsCarry(op) && s.flagsTainted ==> ExecuteImmediate(s, op, w, rex, d, value).Faulted? || OperandTaints(s, w, rex, d)
    ensures SameOutcome(ExecuteImmediate(s, op, w, rex, d, value), ExecuteImmediate(t, op, w, rex, d, value))
  {
    hide Agree, Compute, ReadOperand, StatusAgree, Finish, SameFlagged, Flag;
    ReadAgrees(s, t, d, w, rex);
    ReadFacts(s, d, w, rex);
    var r, r' := ReadOperand(s, d, w, rex), ReadOperand(t, d, w, rex);
    if r.Done? {
      var (s1, lhs) := r.value;
      var (t1, lhs') := r'.value;
      TaintsAgree(s1, t1);
      if !s1.taint && ReadsCarry(op) && s1.flagsTainted {
        FinishFaultsAlike(s1, t1, op, w, rex, d, lhs, value, lhs', value);
      } else {
        if !s1.taint {
          if ReadsCarry(op) {
            CarryAgrees(s1.rflags, t1.rflags);
          }
          ComputeAgrees(op, lhs, value, w, s1.rflags, t1.rflags);
        }
        FinishAgrees(s1, t1, op, w, rex, d, lhs, value, lhs', value);
      }
    }
  }

  lemma ExtendAgrees(s: State, t: State, signed: bool, from: Width, w: Width, rex: bool, r: Reg, p: Place)
    requires Agree(s, t)
    ensures SameOutcome(ExecuteExtend(s, signed, from, w, rex, r, p), ExecuteExtend(t, signed, from, w, rex, r, p))
  {
    hide Agree, ReadOperand, Insert, SignExtend;
    ReadAgrees(s, t, p, from, rex);
    ReadFacts(s, p, from, rex);
    var q, q' := ReadOperand(s, p, from, rex), ReadOperand(t, p, from, rex);
    if q.Done? {
      var (s1, v) := q.value;
      var (t1, v') := q'.value;
      WriteGprAgrees(s1, t1, r, w, rex, if signed then SignExtend(v, from) else v, if signed then SignExtend(v', from) else v');
    }
  }

  lemma SwapAgrees(s: State, t: State, r: Reg)
    requires Agree(s, t)
    ensures SameOutcome(ExchangeRax(s, r), ExchangeRax(t, r))
  {
    hide MemoriesAgree, StatusAgree, WordsAgree;
  }

  // ----- whole instructions -----

  // ADC and SBB read CF, INC and DEC keep it, and a conditional move that is not taken leaves its target
  // alone, all without passing the taint of the flags on.

  /** With tainted flags and a located operand, the instruction still hides them: it faults anyway, or
      the operand taints the result as well, or the conditional move would not show. */
  predicate RestHidesFlags(s: State, i: Instruction, rex: bool, p: Place)
    requires HasOneOperand(i)
  {
    match i
    case ArithmeticImmediate(op, w, _, _) => ReadsCarry(op) ==> Rest(s, i, rex, p).Faulted? || OperandTaints(s, w, rex, p)
    case Count(_, w, _) => Rest(s, i, rex, p).Faulted? || OperandTaints(s, w, rex, p)
    case MoveIf(_, w, r, _) => MoveInvisible(s, w, rex, r, p)
    case _ => true
  }

  predicate ArithmeticHidesFlags(s: State, op: AluOp, w: Width, rex: bool, d: Place, p: Place) {
    ReadsCarry(op) ==> ExecuteArithmetic(s, op, w, rex, d, p).Faulted? || PairTaints(s, w, rex, d, p)
  }

  predicate HidesFlags(s: State, i: Instruction, rex: bool, next: u64) {
    if HasOneOperand(i) then
      var (s1, p) := Locate(s, OneOperand(i), next);
      RestHidesFlags(s1, i, rex, p)
    else if i.Arithmetic? then
      var (s1, d) := Locate(s, i.destination, next);
      var (s2, p) := Locate(s1, i.source, next);
      ArithmeticHidesFlags(s2, i.op, i.w, rex, d, p)
    else true
  }

  /** The stack pointer is defined, and so is the return address a RET is about to follow. */
  predicate StackDefined(s: State, i: Instruction) {
    s.shadow[RSP] == 0 &&
    (i.Return? && Load(s.mem, s.gpr[RSP], 8).Ok? ==> AllInitialized(Load(s.mem, s.gpr[RSP], 8).value))
  }

  /** The steps that cannot pass tainted data on: see `TaintExact.StepIsSecureExactlyIfCovered`. */
  predicate Covered(s: State, i: Instruction, rex: bool, next: u64) {
    && (s.flagsTainted ==> HidesFlags(s, i, rex, next))
    && (UsesStack(i) ==> StackDefined(s, i))
  }

  // ----- the stack -----

  lemma ReplaceAgrees(f: File, f': File, shadow: File, r: Reg, v: u64, v': u64, sh: u64)
    requires FilesAgree(f, f', shadow) && WordsAgree(v, v', sh)
    ensures FilesAgree(f[r := v], f'[r := v'], shadow[r := sh])
  {
    hide WordsAgree;
  }

  lemma SameWord(v: u64, sh: u64)
    ensures WordsAgree(v, v, sh)
  {
  }

  lemma AllUndefined(v: u64, v': u64)
    ensures WordsAgree(v, v', TWO_64 - 1)
  {
    hide ToBytes;
    PowerOfSize(W64);
    var ones: u64 := TWO_64 - 1;
    forall k | 0 <= k < 8 ensures Lane(ones, k) == 255 {
      AllOnes(8, k);
    }
  }

  lemma TopAgrees(s: State, t: State)
    requires Agree(s, t) && s.shadow[RSP] == 0
    ensures t.gpr[RSP] == s.gpr[RSP]
  {
    assert WordsAgree(s.gpr[RSP], t.gpr[RSP], s.shadow[RSP]);
    WholeWordsAgree(s.gpr[RSP], t.gpr[RSP], s.shadow[RSP]);
  }

  lemma ShadowedAgree(v: u64, v': u64, shadow: u64)
    requires WordsAgree(v, v', shadow)
    ensures BytesAgree(ShadowedBytes(v, shadow), ShadowedBytes(v', shadow))
  {
    hide Lane;
  }

  lemma PushAgrees(s: State, t: State, v: u64, v': u64, shadow: u64)
    requires Agree(s, t) && s.shadow[RSP] == 0 && WordsAgree(v, v', shadow)
    ensures SameOutcome(PushWord(s, v, shadow), PushWord(t, v', shadow))
  {
    hide FilesAgree, MemoriesAgree, StatusAgree, Store, WordsAgree, ShadowedBytes;
    TopAgrees(s, t);
    var top := Wrap(s.gpr[RSP] as int - 8);
    ShadowedAgree(v, v', shadow);
    StoreAgrees(s.mem, t.mem, top, ShadowedBytes(v, shadow), ShadowedBytes(v', shadow));
    SameWord(top, 0);
    ReplaceAgrees(s.gpr, t.gpr, s.shadow, RSP, top, top, 0);
    assert s.shadow[RSP := 0] == s.shadow;
  }

  /** The same word on both machines if it is initialized, and agreeing states anyway. */
  predicate SamePop(r: Exec<(State, Popped)>, r': Exec<(State, Popped)>) {
    match r
    case Done(v) =>
      r'.Done? && Agree(v.0, r'.value.0) && v.1.initialized == r'.value.1.initialized && (v.1.initialized ==> v.1 == r'.value.1)
    case Faulted(e, reports) => r'.Faulted? && r'.error == e && r'.reports == reports
  }

  lemma PopAgrees(s: State, t: State)
    requires Agree(s, t) && s.shadow[RSP] == 0
    ensures SamePop(PopWord(s), PopWord(t))
  {
    hide FilesAgree, MemoriesAgree, StatusAgree, Load, WordsAgree, FromBytes;
    TopAgrees(s, t);
    LoadAgrees(s.mem, t.mem, s.gpr[RSP], 8);
    var top := Wrap(s.gpr[RSP] as int + 8);
    SameWord(top, 0);
    ReplaceAgrees(s.gpr, t.gpr, s.shadow, RSP, top, top, 0);
    assert s.shadow[RSP := 0] == s.shadow;
    if Load(s.mem, s.gpr[RSP], 8).Ok? {
      SameInitialized(Load(s.mem, s.gpr[RSP], 8).value, Load(t.mem, s.gpr[RSP], 8).value);
    }
  }

  lemma SameInitialized(bs: seq<ShadowByte>, bs': seq<ShadowByte>)
    requires BytesAgree(bs, bs')
    ensures AllInitialized(bs) == AllInitialized(bs') && (AllInitialized(bs) ==> bs == bs')
  {
    if !AllInitialized(bs) {
      var i :| 0 <= i < |bs| && !bs[i].initialized;
      assert !bs'[i].initialized;
    }
  }

  lemma StackAgrees(s: State, t: State, i: Instruction, next: u64)
    requires Agree(s, t) && UsesStack(i) && StackDefined(s, i)
    ensures SameOutcome(ExecuteStack(s, i, next), ExecuteStack(t, i, next))
  {
    hide PushWord, WordsAgree, FilesAgree, MemoriesAgree, StatusAgree, Load;
    match i
    case Push(r) =>
      RegisterAgrees(s, t, r);
      PushAgrees(s, t, s.gpr[r], t.gpr[r], s.shadow[r]);
    case PushImmediate(value) =>
      SameWord(value, 0);
      PushAgrees(s, t, value, value, 0);
    case Pop(r) => PopInto(s, t, r);
    case Call(_) =>
      SameWord(next, 0);
      PushAgrees(s, t, next, next, 0);
    case Return(discard) => ReturnAgrees(s, t, discard);
  }

  lemma RegisterAgrees(s: State, t: State, r: Reg)
    requires Agree(s, t)
    ensures WordsAgree(s.gpr[r], t.gpr[r], s.shadow[r]) && s.shadow == t.shadow
  {
    hide WordsAgree;
  }

  lemma PopInto(s: State, t: State, r: Reg)
    requires Agree(s, t) && s.shadow[RSP] == 0
    ensures SameOutcome(ExecutePop(s, r), ExecutePop(t, r))
  {
    hide PopWord, FilesAgree, MemoriesAgree, StatusAgree, WordsAgree;
    PopAgrees(s, t);
    var q, q' := PopWord(s), PopWord(t);
    if q.Done? {
      var (s1, w) := q.value;
      var (t1, w') := q'.value;
      SameWord(w.value, 0);
      AllUndefined(w.value, w'.value);
      ReplaceAgrees(s1.gpr, t1.gpr, s1.shadow, r, w.value, w'.value, if w.initialized then 0 else TWO_64 - 1);
    }
  }

  lemma ReturnAgrees(s: State, t: State, discard: nat)
    requires Agree(s, t) && s.shadow[RSP] == 0
    requires PopWord(s).Done? ==> PopWord(s).value.1.initialized
    ensures SameOutcome(ExecuteReturn(s, discard), ExecuteReturn(t, discard))
  {
    hide PopWord, FilesAgree, MemoriesAgree, StatusAgree, WordsAgree;
    PopAgrees(s, t);
    PopKeepsShadow(s);
    var q, q' := PopWord(s), PopWord(t);
    if q.Done? {
      var (s1, w) := q.value;
      var (t1, w') := q'.value;
      TopAgrees(s1, t1);
      var top := Wrap(s1.gpr[RSP] as int + discard);
      SameWord(top, 0);
      ReplaceAgrees(s1.gpr, t1.gpr, s1.shadow, RSP, top, top, 0);
      assert s1.shadow[RSP := 0] == s1.shadow;
    }
  }

  lemma PopKeepsShadow(s: State)
    ensures PopWord(s).Done? ==> PopWord(s).value.0.shadow == s.shadow && PopWord(s).value.0.reports == s.reports
  {
  }

  // ----- the log only grows -----

  lemma AgreeSelf(s: State)
    ensures Agree(s, s)
  {
  }

  lemma QuietPrefix(log: seq<Report>, longer: seq<Report>)
    requires log <= longer && Quiet(longer)
    ensures Quiet(log)
  {
    assert forall i :: 0 <= i < |log| ==> log[i] == longer[i];
  }

  lemma MovGrows(s: State, w: Width, rex: bool, d: Place, p: Place)
    ensures s.reports <= Log(ExecuteMov(s, w, rex, d, p))
  {
    hide ReadOperand, WriteOperand;
    ReadFacts(s, p, w, rex);
    var q := ReadOperand(s, p, w, rex);
    if q.Done? {
      WriteFacts(q.value.0, d, w, rex, q.value.1);
    }
  }

  lemma FinishGrows(s: State, op: AluOp, w: Width, rex: bool, d: Place, lhs: u64, rhs: u64)
    ensures Log(Finish(s, op, w, rex, d, lhs, rhs)) == s.reports
  {
    hide Compute, WriteOperand;
    var r := Compute(op, lhs, rhs, w, s.rflags);
    WriteFacts(WithFlags(s, r.rflags), d, w, rex, r.value);
  }

  lemma ArithmeticGrows(s: State, op: AluOp, w: Width, rex: bool, d: Place, p: Place)
    ensures s.reports <= Log(ExecuteArithmetic(s, op, w, rex, d, p))
  {
    hide ReadOperand, Finish;
    ReadFacts(s, d, w, rex);
    var q := ReadOperand(s, d, w, rex);
    if q.Done? {
      var (s1, lhs) := q.value;
      ReadFacts(s1, p, w, rex);
      var u := ReadOperand(s1, p, w, rex);
      if u.Done? {
        FinishGrows(u.value.0, op, w, rex, d, lhs, u.value.1);
        FinishGrows(u.value.0.(taint := false), op, w, rex, d, lhs, u.value.1);
      }
    }
  }

  lemma ExchangeGrows(s: State, w: Width, rex: bool, rm: Place, r: Reg)
    ensures s.reports <= Log(ExecuteExchange(s, w, rex, rm, r))
  {
    hide ReadOperand, WriteOperand;
    ReadFacts(s, rm, w, rex);
    var q := ReadOperand(s, rm, w, rex);
    if q.Done? {
      var (s2, rhs) := ReadGpr(q.value.0, r, w, rex);
      WriteFacts(s2, rm, w, rex, rhs);
    }
  }

  lemma RestGrows(s: State, i: Instruction, rex: bool, p: Place)
    requires HasOneOperand(i)
    ensures s.reports <= Log(Rest(s, i, rex, p))
  {
    hide ReadOperand, WriteOperand, Finish, ExecuteExchange, CountResult, ShiftedBy, Condition, And, Sub, LogicFlags;
    forall s': State, w: Width, v: u64 ensures Log(WriteOperand(s', p, w, rex, v)) == s'.reports {
      WriteFacts(s', p, w, rex, v);
    }
    match i
    case MovExtend(_, from, _, _, _) => ReadFacts(s, p, from, rex);
    case MoveIf(_, w, _, _) => ReadFacts(s.(taint := s.taint || s.flagsTainted), p, w, rex);
    case ArithmeticImmediate(op, w, _, value) =>
      ReadFacts(s, p, w, rex);
      var q := ReadOperand(s, p, w, rex);
      if q.Done? {
        FinishGrows(q.value.0, op, w, rex, p, q.value.1, value);
      }
    case Xchg(w, _, r) => ExchangeGrows(s, w, rex, p, r);
    case MovImmediate(_, _, _) =>
    case SetCondition(_, _) =>
    case NotOp(w, _) => ReadFacts(s, p, w, rex);
    case NegOp(w, _) => ReadFacts(s, p, w, rex);
    case TestImmediate(w, _, _) => ReadFacts(s, p, w, rex);
    case Test(w, _, _) => ReadFacts(s, p, w, rex);
    case Count(_, w, _) => ReadFacts(s, p, w, rex);
    case Shift(_, w, _, _) => ReadFacts(s, p, w, rex);
  }

  lemma PerformGrows(s: State, i: Instruction, rex: bool, next: u64)
    ensures s.reports <= Log(Perform(s, i, rex, next))
  {
    hide Locate, Rest, ExecuteMov, ExecuteArithmetic, ExecuteStack;
    if HasOneOperand(i) {
      RestOf(s, i, rex, next);
      var (s1, p) := Locate(s, OneOperand(i), next);
      LocateKeepsFlags(s, OneOperand(i), next);
      RestGrows(s1, i, rex, p);
    } else if UsesStack(i) {
      StackPerforms(s, i, rex, next);
      StackGrows(s, i, next);
    } else if i.Mov? || i.Arithmetic? {
      var (s1, d) := Locate(s, i.destination, next);
      var (s2, p) := Locate(s1, i.source, next);
      LocateKeepsFlags(s, i.destination, next);
      LocateKeepsFlags(s1, i.source, next);
      if i.Mov? {
        MovGrows(s2, i.w, rex, d, p);
      } else {
        ArithmeticGrows(s2, i.op, i.w, rex, d, p);
      }
    }
  }

  lemma StackGrows(s: State, i: Instruction, next: u64)
    requires UsesStack(i)
    ensures Log(ExecuteStack(s, i, next)) == s.reports
  {
    hide Store, Load;
  }

  // ----- whole instructions -----

  /** If nothing loud was reported by the end, the operand was located without a report, and
      both machines found the same place. */
  lemma LocateQuietly(s: State, t: State, o: Operand, next: u64, log: seq<Report>)
    requires Agree(s, t) && Locate(s, o, next).0.reports <= log && Quiet(log)
    ensures Locate(s, o, next) == (s, Locate(s, o, next).1) && Locate(t, o, next) == (t, Locate(s, o, next).1)
  {
    QuietPrefix(Locate(s, o, next).0.reports, log);
    LocateAgrees(s, t, o, next);
  }

  lemma LocateKeepsFlags(s: State, o: Operand, next: u64)
    ensures Locate(s, o, next).0.flagsTainted == s.flagsTainted && s.reports <= Locate(s, o, next).0.reports
  {
  }

  lemma MovExecutes(s: State, t: State, i: Instruction, rex: bool, next: u64)
    requires Agree(s, t) && i.Mov? && Quiet(Log(Perform(s, i, rex, next)))
    ensures SameOutcome(Perform(s, i, rex, next), Perform(t, i, rex, next))
  {
    hide Agree, Locate, ExecuteMov, Quiet;
    var log := Log(Perform(s, i, rex, next));
    var (s1, d) := Locate(s, i.destination, next);
    var (s2, p) := Locate(s1, i.source, next);
    MovGrows(s2, i.w, rex, d, p);
    LocateKeepsFlags(s1, i.source, next);
    LocateQuietly(s, t, i.destination, next, log);
    LocateQuietly(s, t, i.source, next, log);
    MovAgrees(s, t, i.w, rex, d, p);
  }

  lemma ArithmeticExecutes(s: State, t: State, i: Instruction, rex: bool, next: u64)
    requires Agree(s, t) && i.Arithmetic? && Covered(s, i, rex, next) && Quiet(Log(Perform(s, i, rex, next)))
    ensures SameOutcome(Perform(s, i, rex, next), Perform(t, i, rex, next))
  {
    hide Agree, Locate, ExecuteArithmetic, Quiet, PairTaints;
    var log := Log(Perform(s, i, rex, next));
    var (s1, d) := Locate(s, i.destination, next);
    var (s2, p) := Locate(s1, i.source, next);
    LocateKeepsFlags(s, i.destination, next);
    LocateKeepsFlags(s1, i.source, next);
    ArithmeticGrows(s2, i.op, i.w, rex, d, p);
    LocateQuietly(s, t, i.destination, next, log);
    LocateQuietly(s, t, i.source, next, log);
    ArithmeticAgrees(s, t, i.op, i.w, rex, d, p);
  }

  lemma RestAgrees(s: State, t: State, i: Instruction, rex: bool, p: Place)
    requires Agree(s, t) && HasOneOperand(i) && (s.flagsTainted ==> RestHidesFlags(s, i, rex, p))
    ensures SameOutcome(Rest(s, i, rex, p), Rest(t, i, rex, p))
  {
    hide Agree, WriteOperand, ExecuteImmediate, ExecuteExtend, ExecuteMoveIf, ExecuteExchange, ExecuteUnary, ExecuteTest,
      ExecuteCount, ExecuteShift, ExecuteSetCondition, SameOutcome, MoveInvisible, OperandTaints;
    match i
    case MovImmediate(w, _, value) => WriteAgrees(s, t, p, w, rex, value, value);
    case ArithmeticImmediate(op, w, _, value) => ImmediateAgrees(s, t, op, w, rex, p, value);
    case MovExtend(signed, from, w, r, _) => ExtendAgrees(s, t, signed, from, w, rex, r, p);
    case MoveIf(cc, w, r, _) => MoveIfAgrees(s, t, cc, w, rex, r, p);
    case Xchg(w, _, r) => ExchangeAgrees(s, t, w, rex, p, r);
    case NotOp(_, _) => UnaryAgrees(s, t, i, rex, p);
    case NegOp(_, _) => UnaryAgrees(s, t, i, rex, p);
    case TestImmediate(_, _, _) => UnaryAgrees(s, t, i, rex, p);
    case Test(w, _, r) => TestAgrees(s, t, w, rex, p, r);
    case Count(up, w, _) => CountAgrees(s, t, up, w, rex, p);
    case Shift(op, w, _, count) => ShiftAgrees(s, t, op, w, rex, p, count % 64);
    case SetCondition(cc, _) => SetConditionAgrees(s, t, cc, rex, p);
  }

  lemma OneOperandExecutes(s: State, t: State, i: Instruction, rex: bool, next: u64)
    requires Agree(s, t) && HasOneOperand(i) && Covered(s, i, rex, next) && Quiet(Log(Perform(s, i, rex, next)))
    ensures SameOutcome(Perform(s, i, rex, next), Perform(t, i, rex, next))
  {
    hide Agree, Locate, Rest, Quiet, Perform, SameOutcome, Log, RestHidesFlags;
    RestOf(s, i, rex, next);
    RestOf(t, i, rex, next);
    var (s1, p) := Locate(s, OneOperand(i), next);
    RestGrows(s1, i, rex, p);
    LocateQuietly(s, t, OneOperand(i), next, Log(Perform(s, i, rex, next)));
    RestAgrees(s, t, i, rex, p);
  }

  lemma LeaExecutes(s: State, t: State, i: Instruction, rex: bool, next: u64)
    requires Agree(s, t) && i.Lea? && Quiet(Log(Perform(s, i, rex, next)))
    ensures SameOutcome(Perform(s, i, rex, next), Perform(t, i, rex, next))
  {
    hide Agree, DecodedAddress, Quiet, Insert, AddressTainted;
    AddressAgrees(s, t, i.address, next);
    WriteGprAgrees(s, t, i.reg, i.w, rex, DecodedAddress(s, i.address, next), DecodedAddress(t, i.address, next));
  }

  lemma BswapExecutes(s: State, t: State, i: Instruction, rex: bool, next: u64)
    requires Agree(s, t) && i.Bswap?
    ensures SameOutcome(Perform(s, i, rex, next), Perform(t, i, rex, next))
  {
    hide Agree, Insert, Extract, Swapped;
    ReadGprAgrees(s, t, i.reg, i.w, rex);
    var (s1, v) := ReadGpr(s, i.reg, i.w, rex);
    var (t1, v') := ReadGpr(t, i.reg, i.w, rex);
    WriteGprAgrees(s1, t1, i.reg, i.w, rex, Swapped(v, i.w), Swapped(v', i.w));
  }

  lemma LoudLast(log: seq<Report>, r: Report)
    requires !r.UninitRead?
    ensures !Quiet(log + [r])
  {
    assert (log + [r])[|log|] == r;
  }

  lemma JumpExecutes(s: State, t: State, i: Instruction, rex: bool, next: u64)
    requires Agree(s, t) && (i.Jump? || i.JumpIf?) && Quiet(Log(Perform(s, i, rex, next)))
    ensures SameOutcome(Perform(s, i, rex, next), Perform(t, i, rex, next))
  {
    hide FilesAgree, MemoriesAgree, StatusAgree, Condition;
    if i.JumpIf? {
      LoudLast(s.reports, UninitBranch);
      ConditionAgrees(i.cc % 16, s.rflags, t.rflags);
    }
  }

  lemma PerformAgrees(s: State, t: State, i: Instruction, rex: bool, next: u64)
    requires Agree(s, t) && Covered(s, i, rex, next) && Quiet(Log(Perform(s, i, rex, next)))
    ensures SameOutcome(Perform(s, i, rex, next), Perform(t, i, rex, next))
  {
    if HasOneOperand(i) {
      OneOperandExecutes(s, t, i, rex, next);
    } else if UsesStack(i) {
      hide Agree, SameOutcome, Perform, ExecuteStack, StackDefined, UsesStack, HidesFlags;
      StackPerforms(s, i, rex, next);
      StackPerforms(t, i, rex, next);
      StackAgrees(s, t, i, next);
    } else {
      hide Agree, SameOutcome, Quiet, Log, ExchangeRax;
      match i
      case Mov(_, _, _) => MovExecutes(s, t, i, rex, next);
      case Arithmetic(_, _, _, _) => ArithmeticExecutes(s, t, i, rex, next);
      case Lea(_, _, _) => LeaExecutes(s, t, i, rex, next);
      case Bswap(_, _) => BswapExecutes(s, t, i, rex, next);
      case XchgRax(r) => SwapAgrees(s, t, r);
      case _ => JumpExecutes(s, t, i, rex, next);
    }
  }

  // ----- whole runs -----

  predicate CoveredStep(program: Program, s: State) {
    s.rip in program ==>
      var d := program[s.rip];
      var next := Wrap(s.rip + d.length);
      Covered(s.(taint := false, rip := next), d.instruction, d.rex, next)
  }

  /** Every instruction of the run is covered at the moment it executes. */
  predicate CoveredRun(program: Program, s: State, n: nat)
    decreases n
  {
    n == 0 || (
      && CoveredStep(program, s)
      && (Step(program, s).Done? ==> CoveredRun(program, Step(program, s).value, n - 1)))
  }

  lemma StepAgrees(program: Program, s: State, t: State)
    requires Agree(s, t) && CoveredStep(program, s) && Quiet(Log(Step(program, s)))
    ensures SameOutcome(Step(program, s), Step(program, t))
  {
    hide Perform, FilesAgree, MemoriesAgree, StatusAgree, Quiet, Covered;
    if s.rip in program {
      var d := program[s.rip];
      var next := Wrap(s.rip + d.length);
      PerformAgrees(s.(taint := false, rip := next), t.(taint := false, rip := next), d.instruction, d.rex, next);
    }
  }

  lemma RunGrows(program: Program, s: State, n: nat)
    requires n > 0 && Quiet(Log(Run(program, s, n)))
    ensures Quiet(Log(Step(program, s)))
  {
    hide Step, Quiet;
    if Step(program, s).Done? {
      var s1 := Step(program, s).value;
      LogGrows(program, s1, n - 1);
      QuietPrefix(s1.reports, Log(Run(program, s, n)));
    }
  }

  lemma {:induction false} LogGrows(program: Program, s: State, n: nat)
    ensures s.reports <= Log(Run(program, s, n))
    decreases n
  {
    hide Step;
    if n > 0 {
      StepGrows(program, s);
      if Step(program, s).Done? {
        LogGrows(program, Step(program, s).value, n - 1);
      }
    }
  }

  lemma StepGrows(program: Program, s: State)
    ensures s.reports <= Log(Step(program, s))
  {
    hide Perform;
    if s.rip in program {
      var d := program[s.rip];
      var next := Wrap(s.rip + d.length);
      PerformGrows(s.(taint := false, rip := next), d.instruction, d.rex, next);
    }
  }

  /** Noninterference over whole runs: two machines that agree on everything defined keep
      agreeing, stop on the same error and make the same reports, as long as no tainted pointer
      and no tainted branch is reported. */
  lemma {:induction false} RunsAgree(program: Program, s: State, t: State, n: nat)
    requires Agree(s, t) && CoveredRun(program, s, n) && Quiet(Log(Run(program, s, n)))
    ensures SameOutcome(Run(program, s, n), Run(program, t, n))
    decreases n
  {
    hide Step, Agree, Quiet, CoveredStep;
    if n > 0 {
      RunGrows(program, s, n);
      StepAgrees(program, s, t);
      if Step(program, s).Done? {
        RunsAgree(program, Step(program, s).value, Step(program, t).value, n - 1);
      }
    }
  }
}
