/** The CPU as the object the emulator runs: registers, shadows and taint updated in place over
    the guest MMU. Every method is specified by the state function of module `Cpu`. */
module GuestCpu {
  import opened Words
  import opened FlatMemory
  import opened Registers
  import opened Alu
  import opened Cpu
  import opened GuestMmu
  import BitString
  import MulDiv
  import StringMove

  class SoftCpu64 {
    const mmu: SoftMmu
    var gpr: File
    var gprShadow: File
    var rip: u64
    var rflags: u64
    var fsBase: u64
    var gsBase: u64
    var currentTaint: bool
    var flagsTainted: bool
    ghost var reports: seq<Report>

    constructor (mmu: SoftMmu)
      requires mmu.Valid()
      ensures Valid() && this.mmu == mmu
      ensures View() == State(seq(16, _ => 0), seq(16, _ => 0), 0, 0x202, 0, 0, false, false, mmu.Flat(), [])
    {
      this.mmu := mmu;
      gpr, gprShadow, rip, rflags, fsBase, gsBase := seq(16, _ => 0), seq(16, _ => 0), 0, 0x202, 0, 0;
      currentTaint, flagsTainted, reports := false, false, [];
    }

    ghost predicate Valid()
      reads this, mmu, mmu.Repr
    {
      mmu.Valid() && this !in mmu.Repr
    }

    ghost function View(): State
      requires Valid()
      reads this, mmu, mmu.Repr
    {
      State(gpr, gprShadow, rip, rflags, fsBase, gsBase, currentTaint, flagsTainted, mmu.Flat(), reports)
    }

    // ----- registers and flags -----

    method ReadGpr(r: Reg, w: Width, rex: bool) returns (v: u64)
      requires Valid()
      modifies this`currentTaint
      ensures Valid() && Cpu.ReadGpr(old(View()), r, w, rex) == (View(), v)
    {
      hide Extract, SoftMmu.Flat, SoftMmu.Valid;
      if Extract(gprShadow, r, w, rex) != 0 {
        currentTaint := true;
      }
      v := Extract(gpr, r, w, rex);
    }

    method WriteGpr(r: Reg, w: Width, rex: bool, v: u64)
      requires Valid()
      modifies this`gpr, this`gprShadow
      ensures Valid() && View() == Cpu.WriteGpr(old(View()), r, w, rex, v)
    {
      hide Insert, SoftMmu.Flat, SoftMmu.Valid;
      gprShadow := Insert(gprShadow, r, w, rex, if currentTaint then Modulus(w) - 1 else 0);
      gpr := Insert(gpr, r, w, rex, Truncate(v, w));
    }

    method SetFlag(flag: nat, on: bool)
      requires flag < 64
      modifies this`rflags
      ensures rflags == Alu.SetFlag(old(rflags), flag, on)
    {
      rflags := Alu.SetFlag(rflags, flag, on);
    }

    method UpdateFlagsTaint()
      modifies this`flagsTainted
      ensures flagsTainted == currentTaint
    {
      flagsTainted := currentTaint;
    }

    method SetLogicFlags(value: u64, w: Width)
      requires Valid()
      modifies this`rflags, this`flagsTainted
      ensures Valid() && View() == WithFlags(old(View()), LogicFlags(old(rflags), value, w))
    {
      hide SoftMmu.Flat, SoftMmu.Valid, Alu.SetFlag, Sign, Truncate;
      var result := Truncate(value, w);
      SetFlag(CF, false);
      SetFlag(OF, false);
      SetFlag(SF, Sign(result, w));
      SetFlag(ZF, result == 0);
      SetFlag(PF, Parity(result));
      UpdateFlagsTaint();
    }

    method SetArithmeticFlags(lhs: u64, rhs: u64, result: u64, w: Width, carry: bool, overflow: bool)
      requires Valid()
      modifies this`rflags, this`flagsTainted
      ensures Valid()
      ensures View() == WithFlags(old(View()), ArithFlags(old(rflags), carry, Aux(lhs, rhs, result), result, w, overflow))
    {
      hide SoftMmu.Flat, SoftMmu.Valid, Alu.SetFlag, Sign, Truncate, Aux, Parity;
      SetFlag(CF, carry);
      SetFlag(AF, Aux(lhs, rhs, result));
      SetFlag(SF, Sign(result, w));
      SetFlag(ZF, result == 0);
      SetFlag(PF, Parity(result));
      SetFlag(OF, overflow);
      UpdateFlagsTaint();
    }

    method Add(lhs: u64, rhs: u64, w: Width, carry: bool) returns (result: u64)
      requires Valid()
      modifies this`rflags, this`flagsTainted
      ensures Valid() && result == Alu.Add(lhs, rhs, w, carry, old(rflags)).value
      ensures View() == WithFlags(old(View()), Alu.Add(lhs, rhs, w, carry, old(rflags)).rflags)
    {
      hide SoftMmu.Flat, SoftMmu.Valid, ArithFlags, Sign, Truncate, Aux, Wrap, CarryIn;
      var full := Wrap(Truncate(lhs, w) + Truncate(rhs, w) + CarryIn(carry, rflags));
      result := Truncate(full, w);
      SetArithmeticFlags(lhs, rhs, result, w, full >= Modulus(w),
        Sign(lhs, w) == Sign(rhs, w) && Sign(lhs, w) != Sign(result, w));
    }

    method Sub(lhs: u64, rhs: u64, w: Width, borrow: bool) returns (result: u64)
      requires Valid()
      modifies this`rflags, this`flagsTainted
      ensures Valid() && result == Alu.Sub(lhs, rhs, w, borrow, old(rflags)).value
      ensures View() == WithFlags(old(View()), Alu.Sub(lhs, rhs, w, borrow, old(rflags)).rflags)
    {
      hide SoftMmu.Flat, SoftMmu.Valid, ArithFlags, Sign, Truncate, Aux, Wrap, CarryIn;
      var right := Wrap(Truncate(rhs, w) + CarryIn(borrow, rflags));
      result := Truncate(Wrap(Truncate(lhs, w) - right), w);
      SetArithmeticFlags(lhs, rhs, result, w, Truncate(lhs, w) < right,
        Sign(lhs, w) != Sign(rhs, w) && Sign(lhs, w) != Sign(result, w));
    }

    // ----- operands -----

    method DecodeMemoryAddress(a: Address, next: u64) returns (address: u64)
      requires Valid()
      modifies this`currentTaint, this`reports
      ensures Valid() && View() == DecodeAddress(old(View()), a, next)
      ensures address == DecodedAddress(old(View()), a, next)
    {
      hide SoftMmu.Flat, SoftMmu.Valid, Wrap, Truncate;
      var base := if a.ripRelative then next else if a.base.Some? then gpr[a.base.value] else 0;
      var index := if !a.ripRelative && a.index.Some? then gpr[a.index.value] * a.scale else 0;
      var sum := Wrap(base + index + a.displacement);
      var offset := match a.segment case NoSegment => 0 case Fs => fsBase case Gs => gsBase;
      address := Wrap((if a.address32 then Truncate(sum, W32) else sum) + offset);
      var tainted := !a.ripRelative &&
        ((a.base.Some? && gprShadow[a.base.value] != 0) || (a.index.Some? && gprShadow[a.index.value] != 0));
      if tainted {
        reports := reports + [UninitPointer(address)];
        currentTaint := true;
      }
    }

    method DecodeOperand(o: Operand, next: u64) returns (p: Place)
      requires Valid()
      modifies this`currentTaint, this`reports
      ensures Valid() && Locate(old(View()), o, next) == (View(), p)
    {
      hide SoftMmu.Flat, SoftMmu.Valid, DecodedAddress, AddressTainted;
      match o
      case Register(r) => p := InRegister(r);
      case Memory(a) =>
        var address := DecodeMemoryAddress(a, next);
        p := InMemory(if a.ripRelative then Wrap(next + a.displacement) else address);
    }

    method ReadOperand(p: Place, w: Width, rex: bool) returns (v: u64, error: Option<Error>)
      requires Valid()
      modifies this`currentTaint, this`reports
      ensures Valid()
      ensures Cpu.ReadOperand(old(View()), p, w, rex) == if error.None? then Done((View(), v)) else Faulted(error.value, reports)
    {
      hide SoftMmu.Flat, SoftMmu.Valid, Extract, Load;
      v, error := 0, None;
      match p
      case InRegister(r) => v := ReadGpr(r, w, rex);
      case InMemory(a) =>
        var bytes := mmu.ReadWithShadow(a, Size(w));
        if bytes.Err? {
          error := Some(bytes.error);
        } else {
          WordFits(Values(bytes.value), w);
          v := FromBytes(Values(bytes.value));
          if !AllInitialized(bytes.value) {
            currentTaint := true;
            reports := reports + [UninitRead(a)];
          }
        }
    }

    method WriteOperand(p: Place, w: Width, rex: bool, v: u64) returns (error: Option<Error>)
      requires Valid()
      modifies this`gpr, this`gprShadow, mmu.Repr
      ensures Valid() && mmu.Repr == old(mmu.Repr)
      ensures ResultOf(Cpu.WriteOperand(old(View()), p, w, rex, v), error)
    {
      hide SoftMmu.Flat, SoftMmu.Valid, Insert, Store;
      error := None;
      match p
      case InRegister(r) => WriteGpr(r, w, rex, v);
      case InMemory(a) => error := mmu.WriteWithShadow(a, Tainted(ToBytes(Truncate(v, w), Size(w)), currentTaint));
    }

    /** The object is in the state the specification reached, or stopped on the same error. */
    ghost predicate ResultOf(r: Exec<State>, error: Option<Error>)
      requires Valid()
      reads this, mmu, mmu.Repr
    {
      match error
      case None => r == Done(View())
      case Some(e) => r == Faulted(e, reports)
    }

    // ----- instructions -----

    /** The switch over the ALU operation: result and flags. */
    method ComputeAlu(op: AluOp, lhs: u64, rhs: u64, w: Width) returns (result: u64)
      requires Valid()
      modifies this`rflags, this`flagsTainted
      ensures Valid() && result == Compute(op, lhs, rhs, w, old(rflags)).value
      ensures View() == WithFlags(old(View()), Compute(op, lhs, rhs, w, old(rflags)).rflags)
    {
      hide SoftMmu.Flat, SoftMmu.Valid, Alu.Add, Alu.Sub, And, Or, Xor;
      match op
      case AddOp => result := Add(lhs, rhs, w, false);
      case AdcOp => result := Add(lhs, rhs, w, true);
      case SbbOp => result := Sub(lhs, rhs, w, true);
      case SubOp => result := Sub(lhs, rhs, w, false);
      case CmpOp => result := Sub(lhs, rhs, w, false);
      case OrOp => result := Truncate(Or(lhs, rhs), w); SetLogicFlags(Or(lhs, rhs), w);
      case AndOp => result := Truncate(And(lhs, rhs), w); SetLogicFlags(And(lhs, rhs), w);
      case XorOp => result := Truncate(Xor(lhs, rhs), w); SetLogicFlags(Xor(lhs, rhs), w);
    }

    method ExecuteAluRmReg(op: AluOp, w: Width, rex: bool, destination: Place, source: Place) returns (error: Option<Error>)
      requires Valid()
      modifies this, mmu.Repr
      ensures Valid() && mmu.Repr == old(mmu.Repr)
      ensures ResultOf(ExecuteArithmetic(old(View()), op, w, rex, destination, source), error)
    {
      hide SoftMmu.Flat, SoftMmu.Valid, Cpu.ReadOperand, Cpu.WriteOperand, Compute;
      var lhs, rhs;
      lhs, error := ReadOperand(destination, w, rex);
      if error.Some? {
        return;
      }
      rhs, error := ReadOperand(source, w, rex);
      if error.Some? {
        return;
      }
      if SelfCancelling(op, destination, source) {
        currentTaint := false;
      }
      error := FinishAlu(op, w, rex, destination, lhs, rhs);
    }

    method FinishAlu(op: AluOp, w: Width, rex: bool, destination: Place, lhs: u64, rhs: u64) returns (error: Option<Error>)
      requires Valid()
      modifies this, mmu.Repr
      ensures Valid() && mmu.Repr == old(mmu.Repr)
      ensures ResultOf(Finish(old(View()), op, w, rex, destination, lhs, rhs), error)
    {
      hide SoftMmu.Flat, SoftMmu.Valid, Cpu.WriteOperand, Compute;
      error := None;
      var result := ComputeAlu(op, lhs, rhs, w);
      if op != CmpOp {
        error := WriteOperand(destination, w, rex, result);
      }
    }

    method ExecuteAluImm(op: AluOp, w: Width, rex: bool, destination: Place, value: u64) returns (error: Option<Error>)
      requires Valid()
      modifies this, mmu.Repr
      ensures Valid() && mmu.Repr == old(mmu.Repr)
      ensures ResultOf(ExecuteImmediate(old(View()), op, w, rex, destination, value), error)
    {
      hide SoftMmu.Flat, SoftMmu.Valid, Cpu.ReadOperand, Cpu.WriteOperand, Compute;
      var lhs;
      lhs, error := ReadOperand(destination, w, rex);
      if error.Some? {
        return;
      }
      error := FinishAlu(op, w, rex, destination, lhs, value);
    }

    method ExecuteGroupF6F7(i: Instruction, rex: bool, rm: Place) returns (error: Option<Error>)
      requires Valid() && (i.NotOp? || i.NegOp? || i.TestImmediate?)
      modifies this, mmu.Repr
      ensures Valid() && mmu.Repr == old(mmu.Repr)
      ensures ResultOf(ExecuteUnary(old(View()), i, rex, rm), error)
    {
      hide SoftMmu.Flat, SoftMmu.Valid, Cpu.ReadOperand, Cpu.WriteOperand, Alu.Sub, And, LogicFlags;
      var v;
      v, error := ReadOperand(rm, i.w, rex);
      if error.Some? {
        return;
      }
      match i
      case NotOp(w, _) => error := WriteOperand(rm, w, rex, Not(v));
      case NegOp(w, _) =>
        var result := Sub(0, v, w, false);
        error := WriteOperand(rm, w, rex, result);
      case TestImmediate(w, _, value) => SetLogicFlags(And(v, value), w);
    }

    method ExecuteShiftGroup(op: ShiftOp, w: Width, rex: bool, rm: Place, count: nat) returns (error: Option<Error>)
      requires Valid()
      modifies this, mmu.Repr
      ensures Valid() && mmu.Repr == old(mmu.Repr)
      ensures ResultOf(ExecuteShift(old(View()), op, w, rex, rm, count), error)
    {
      hide SoftMmu.Flat, SoftMmu.Valid, Cpu.ReadOperand, Cpu.WriteOperand, ShiftedBy, LogicFlags;
      if count == 0 {
        return None;
      }
      var v;
      v, error := ReadOperand(rm, w, rex);
      if error.Some? {
        return;
      }
      var result := ShiftedBy(op, v, w, count);
      SetLogicFlags(result, w);
      error := WriteOperand(rm, w, rex, result);
    }

    /** `inc` and `dec` keep the carry flag. */
    method ExecuteIncDec(up: bool, w: Width, rex: bool, rm: Place) returns (error: Option<Error>)
      requires Valid()
      modifies this, mmu.Repr
      ensures Valid() && mmu.Repr == old(mmu.Repr)
      ensures ResultOf(ExecuteCount(old(View()), up, w, rex, rm), error)
    {
      hide SoftMmu.Flat, SoftMmu.Valid, Cpu.ReadOperand, Cpu.WriteOperand, Alu.Add, Alu.Sub, Flag, Alu.SetFlag;
      var v, result;
      v, error := ReadOperand(rm, w, rex);
      if error.Some? {
        return;
      }
      var carry := Flag(rflags, CF);
      if up {
        result := Add(v, 1, w, false);
      } else {
        result := Sub(v, 1, w, false);
      }
      SetFlag(CF, carry);
      error := WriteOperand(rm, w, rex, result);
    }

    method ExecuteTestRm(w: Width, rex: bool, rm: Place, r: Reg) returns (error: Option<Error>)
      requires Valid()
      modifies this, mmu.Repr
      ensures Valid() && mmu.Repr == old(mmu.Repr)
      ensures ResultOf(ExecuteTest(old(View()), w, rex, rm, r), error)
    {
      hide SoftMmu.Flat, SoftMmu.Valid, Cpu.ReadOperand, Cpu.ReadGpr, And, LogicFlags;
      var lhs;
      lhs, error := ReadOperand(rm, w, rex);
      if error.None? {
        var rhs := ReadGpr(r, w, rex);
        SetLogicFlags(And(lhs, rhs), w);
      }
    }

    // ----- one-operand multiply and divide -----

    method SetCarryOverflow(on: bool)
      requires Valid()
      modifies this`rflags
      ensures Valid() && View() == MulDiv.WithCarryOverflow(old(View()), on)
    {
      hide SoftMmu.Flat, SoftMmu.Valid, Alu.SetFlag;
      SetFlag(CF, on);
      SetFlag(OF, on);
    }

    method WriteProduct(w: Width, rex: bool, product: int)
      requires Valid()
      modifies this`gpr, this`gprShadow
      ensures Valid() && View() == MulDiv.WriteProduct(old(View()), w, rex, product)
    {
      hide SoftMmu.Flat, SoftMmu.Valid, Cpu.WriteGpr, MulDiv.Low64, Modulus;
      if w == W8 {
        WriteGpr(MulDiv.RAX, W16, rex, MulDiv.Low64(product));
      } else {
        WriteGpr(MulDiv.RAX, w, rex, MulDiv.Low64(product));
        WriteGpr(MulDiv.RDX, w, rex, MulDiv.Low64(product / Modulus(w)));
      }
    }

    method ExecuteMul(w: Width, rex: bool, value: u64)
      requires Valid()
      modifies this`currentTaint, this`gpr, this`gprShadow, this`rflags
      ensures Valid() && View() == MulDiv.ExecuteMul(old(View()), w, rex, value)
    {
      hide SoftMmu.Flat, SoftMmu.Valid, Cpu.ReadGpr, MulDiv.WriteProduct, MulDiv.WithCarryOverflow, Modulus;
      var accumulator := ReadGpr(MulDiv.RAX, w, rex);
      var result := accumulator * value;
      WriteProduct(w, rex, result);
      SetCarryOverflow(result / Modulus(w) != 0);
    }

    method ExecuteImul(w: Width, rex: bool, value: u64)
      requires Valid()
      modifies this`currentTaint, this`gpr, this`gprShadow, this`rflags
      ensures Valid() && View() == MulDiv.ExecuteImul(old(View()), w, rex, value)
    {
      hide SoftMmu.Flat, SoftMmu.Valid, Cpu.ReadGpr, MulDiv.WriteProduct, MulDiv.WithCarryOverflow, MulDiv.SignedOperand, MulDiv.Low64;
      var accumulator := ReadGpr(MulDiv.RAX, w, rex);
      var result := MulDiv.SignedOperand(accumulator, w) * MulDiv.SignedOperand(value, w);
      WriteProduct(w, rex, result);
      var narrowed := MulDiv.SignedOperand(MulDiv.Low64(result), w);
      SetCarryOverflow(result != narrowed);
    }

    method WriteQuotient(w: Width, rex: bool, quotient: int, remainder: int)
      requires Valid()
      modifies this`gpr, this`gprShadow
      ensures Valid() && View() == MulDiv.WriteQuotient(old(View()), w, rex, quotient, remainder)
    {
      hide SoftMmu.Flat, SoftMmu.Valid, Cpu.WriteGpr, MulDiv.Low64;
      if w == W8 {
        WriteGpr(MulDiv.RAX, W16, rex, remainder % 256 * 256 + quotient % 256);
      } else {
        WriteGpr(MulDiv.RAX, w, rex, MulDiv.Low64(quotient));
        WriteGpr(MulDiv.RDX, w, rex, MulDiv.Low64(remainder));
      }
    }

    method ExecuteDiv(w: Width, rex: bool, value: u64) returns (error: Option<Error>)
      requires Valid()
      modifies this`currentTaint, this`gpr, this`gprShadow
      ensures Valid() && ResultOf(MulDiv.ExecuteDiv(old(View()), w, rex, value), error)
    {
      hide SoftMmu.Flat, SoftMmu.Valid, Extract, MulDiv.WriteQuotient, Modulus;
      if value == 0 {
        return Some(DivideByZero);
      }
      var dividend: int;
      MulDiv.RexFree(gpr, MulDiv.RAX, w, rex);
      MulDiv.RexFree(gpr, MulDiv.RDX, w, rex);
      MulDiv.RexFree(gpr, MulDiv.RAX, W16, rex);
      if w == W8 {
        dividend := ReadGpr(MulDiv.RAX, W16, rex);
      } else {
        var high := ReadGpr(MulDiv.RDX, w, rex);
        var low := ReadGpr(MulDiv.RAX, w, rex);
        dividend := high * Modulus(w) + low;
      }
      var quotient, remainder := dividend / value, dividend % value;
      if quotient >= Modulus(w) {
        return Some(DivideOverflow);
      }
      WriteQuotient(w, rex, quotient, remainder);
      return None;
    }

    method ExecuteIdiv(w: Width, rex: bool, value: u64) returns (error: Option<Error>)
      requires Valid()
      modifies this`currentTaint, this`gpr, this`gprShadow
      ensures Valid() && ResultOf(MulDiv.ExecuteIdiv(old(View()), w, rex, value), error)
    {
      hide SoftMmu.Flat, SoftMmu.Valid, Extract, MulDiv.WriteQuotient, Modulus, MulDiv.SignedOperand, MulDiv.Quotient;
      var divisor := MulDiv.SignedOperand(value, w);
      if divisor == 0 {
        return Some(DivideByZero);
      }
      var dividend: int;
      MulDiv.RexFree(gpr, MulDiv.RAX, w, rex);
      MulDiv.RexFree(gpr, MulDiv.RDX, w, rex);
      MulDiv.RexFree(gpr, MulDiv.RAX, W16, rex);
      if w == W8 {
        var ax := ReadGpr(MulDiv.RAX, W16, rex);
        dividend := MulDiv.SignedOperand(ax, W16);
      } else {
        var high := ReadGpr(MulDiv.RDX, w, rex);
        var low := ReadGpr(MulDiv.RAX, w, rex);
        dividend := MulDiv.SignedOperand(high, w) * Modulus(w) + low;
      }
      var quotient := MulDiv.Quotient(dividend, divisor);
      var remainder := dividend - quotient * divisor;
      if quotient < -(Modulus(w) / 2) || quotient >= Modulus(w) / 2 {
        return Some(DivideOverflow);
      }
      WriteQuotient(w, rex, quotient, remainder);
      return None;
    }

    /** Cases 4 to 7 of the F6/F7 group. */
    method ExecuteMulDiv(op: MulDiv.MulDivOp, w: Width, rex: bool, rm: Place) returns (error: Option<Error>)
      requires Valid()
      modifies this, mmu.Repr
      ensures Valid() && mmu.Repr == old(mmu.Repr)
      ensures ResultOf(MulDiv.ExecuteMulDiv(old(View()), op, w, rex, rm), error)
    {
      hide SoftMmu.Flat, SoftMmu.Valid, Cpu.ReadOperand, MulDiv.ExecuteMul, MulDiv.ExecuteImul, MulDiv.ExecuteDiv, MulDiv.ExecuteIdiv;
      var value;
      value, error := ReadOperand(rm, w, rex);
      if error.None? {
        match op
        case Mul => ExecuteMul(w, rex, value);
        case Imul => ExecuteImul(w, rex, value);
        case Div => error := ExecuteDiv(w, rex, value);
        case Idiv => error := ExecuteIdiv(w, rex, value);
      }
    }

    method ExecuteXchg(w: Width, rex: bool, rm: Place, r: Reg) returns (error: Option<Error>)
      requires Valid()
      modifies this, mmu.Repr
      ensures Valid() && mmu.Repr == old(mmu.Repr)
      ensures ResultOf(ExecuteExchange(old(View()), w, rex, rm, r), error)
    {
      hide SoftMmu.Flat, SoftMmu.Valid, Cpu.ReadOperand, Cpu.ReadGpr, Cpu.WriteOperand, Cpu.WriteGpr;
      var lhs;
      lhs, error := ReadOperand(rm, w, rex);
      if error.Some? {
        return;
      }
      var rhs := ReadGpr(r, w, rex);
      error := WriteOperand(rm, w, rex, rhs);
      if error.None? {
        WriteGpr(r, w, rex, lhs);
      }
    }

    method ExecuteMovRm(w: Width, rex: bool, destination: Place, source: Place) returns (error: Option<Error>)
      requires Valid()
      modifies this, mmu.Repr
      ensures Valid() && mmu.Repr == old(mmu.Repr)
      ensures ResultOf(ExecuteMov(old(View()), w, rex, destination, source), error)
    {
      hide SoftMmu.Flat, SoftMmu.Valid, Cpu.ReadOperand, Cpu.WriteOperand;
      var v;
      v, error := ReadOperand(source, w, rex);
      if error.None? {
        error := WriteOperand(destination, w, rex, v);
      }
    }

    method ExecuteMovExtend(signed: bool, from: Width, w: Width, rex: bool, r: Reg, source: Place) returns (error: Option<Error>)
      requires Valid()
      modifies this, mmu.Repr
      ensures Valid() && mmu.Repr == old(mmu.Repr)
      ensures ResultOf(ExecuteExtend(old(View()), signed, from, w, rex, r, source), error)
    {
      hide SoftMmu.Flat, SoftMmu.Valid, Cpu.ReadOperand, Cpu.WriteGpr, SignExtend;
      var v;
      v, error := ReadOperand(source, from, rex);
      if error.None? {
        WriteGpr(r, w, rex, if signed then SignExtend(v, from) else v);
      }
    }

    method ExecuteSetcc(cc: nat, rex: bool, rm: Place) returns (error: Option<Error>)
      requires Valid()
      modifies this, mmu.Repr
      ensures Valid() && mmu.Repr == old(mmu.Repr)
      ensures ResultOf(ExecuteSetCondition(old(View()), cc, rex, rm), error)
    {
      hide SoftMmu.Flat, SoftMmu.Valid, Cpu.WriteOperand, Condition;
      if flagsTainted {
        currentTaint := true;
      }
      error := WriteOperand(rm, W8, rex, if Condition(cc % 16, rflags) then 1 else 0);
    }

    method ExecuteCmov(cc: nat, w: Width, rex: bool, r: Reg, source: Place) returns (error: Option<Error>)
      requires Valid()
      modifies this, mmu.Repr
      ensures Valid() && mmu.Repr == old(mmu.Repr)
      ensures ResultOf(ExecuteMoveIf(old(View()), cc, w, rex, r, source), error)
    {
      hide SoftMmu.Flat, SoftMmu.Valid, Cpu.ReadOperand, Cpu.WriteGpr, Condition;
      error := None;
      if flagsTainted {
        currentTaint := true;
      }
      if Condition(cc % 16, rflags) {
        var v;
        v, error := ReadOperand(source, w, rex);
        if error.None? {
          WriteGpr(r, w, rex, v);
        }
      }
    }

    /** `branch_condition`: a branch on tainted flags is reported. */
    method BranchCondition(cc: nat) returns (taken: bool)
      requires cc < 16
      modifies this`reports
      ensures taken == Condition(cc, rflags)
      ensures reports == if flagsTainted then old(reports) + [UninitBranch] else old(reports)
    {
      if flagsTainted {
        reports := reports + [UninitBranch];
      }
      taken := Condition(cc, rflags);
    }

    /** The instructions with one operand that needs decoding first. */
    method ExecuteOneOperand(i: Instruction, rex: bool, next: u64) returns (error: Option<Error>)
      requires Valid() && HasOneOperand(i)
      modifies this, mmu.Repr
      ensures Valid() && mmu.Repr == old(mmu.Repr)
      ensures ResultOf(Perform(old(View()), i, rex, next), error)
    {
      hide SoftMmu.Flat, SoftMmu.Valid, Locate, Rest, Perform;
      RestOf(View(), i, rex, next);
      var p := DecodeOperand(OneOperand(i), next);
      error := ExecuteRest(i, rex, p);
    }

    method ExecuteRest(i: Instruction, rex: bool, p: Place) returns (error: Option<Error>)
      requires Valid() && HasOneOperand(i)
      modifies this, mmu.Repr
      ensures Valid() && mmu.Repr == old(mmu.Repr)
      ensures ResultOf(Rest(old(View()), i, rex, p), error)
    {
      hide SoftMmu.Flat, SoftMmu.Valid, Cpu.WriteOperand, ExecuteImmediate, ExecuteExtend, ExecuteMoveIf, ExecuteExchange,
        ExecuteUnary, ExecuteTest, ExecuteCount, ExecuteShift, ExecuteSetCondition;
      match i
      case MovImmediate(w, _, value) => error := WriteOperand(p, w, rex, value);
      case ArithmeticImmediate(op, w, _, value) => error := ExecuteAluImm(op, w, rex, p, value);
      case MovExtend(signed, from, w, r, _) => error := ExecuteMovExtend(signed, from, w, rex, r, p);
      case MoveIf(cc, w, r, _) => error := ExecuteCmov(cc, w, rex, r, p);
      case Xchg(w, _, r) => error := ExecuteXchg(w, rex, p, r);
      case NotOp(_, _) => error := ExecuteGroupF6F7(i, rex, p);
      case NegOp(_, _) => error := ExecuteGroupF6F7(i, rex, p);
      case TestImmediate(_, _, _) => error := ExecuteGroupF6F7(i, rex, p);
      case Test(w, _, r) => error := ExecuteTestRm(w, rex, p, r);
      case Count(up, w, _) => error := ExecuteIncDec(up, w, rex, p);
      case Shift(op, w, _, count) => error := ExecuteShiftGroup(op, w, rex, p, count % 64);
      case SetCondition(cc, _) => error := ExecuteSetcc(cc, rex, p);
    }

    // ----- bit tests with a register offset -----

    method SetBitFlag(bit: bool)
      requires Valid()
      modifies this`rflags, this`flagsTainted
      ensures Valid() && View() == BitString.WithBit(old(View()), bit)
    {
      hide SoftMmu.Flat, SoftMmu.Valid, Alu.SetFlag;
      SetFlag(CF, bit);
      UpdateFlagsTaint();
    }

    method BitInMemory(op: BitString.BitOp, w: Width, a: u64, k: nat) returns (error: Option<Error>)
      requires Valid() && k < 64
      modifies this`rflags, this`flagsTainted, mmu.Repr
      ensures Valid() && mmu.Repr == old(mmu.Repr)
      ensures ResultOf(BitString.BitInMemory(old(View()), op, w, a, k), error)
    {
      hide SoftMmu.Flat, SoftMmu.Valid, Load, Store, Flag, BitString.Changed, Alu.SetFlag, Tainted;
      var bytes := mmu.ReadWithShadow(a, Size(w));
      if bytes.Err? {
        return Some(bytes.error);
      }
      WordFits(Values(bytes.value), w);
      var value: u64 := FromBytes(Values(bytes.value));
      SetBitFlag(Flag(value, k));
      var newValue := BitString.Changed(op, value, k);
      if op != BitString.Bt && newValue != value {
        error := mmu.WriteWithShadow(a, Tainted(ToBytes(newValue, Size(w)), false));
      } else {
        error := None;
      }
    }

    method BitInRegister(op: BitString.BitOp, w: Width, rex: bool, r: Reg, k: nat)
      requires Valid() && k < 64
      modifies this`gpr, this`gprShadow, this`currentTaint, this`rflags, this`flagsTainted
      ensures Valid() && BitString.BitInRegister(old(View()), op, w, rex, r, k) == Done(View())
    {
      hide SoftMmu.Flat, SoftMmu.Valid, Cpu.ReadGpr, Cpu.WriteGpr, Flag, BitString.Changed, BitString.WithBit;
      var value := ReadGpr(r, w, rex);
      SetBitFlag(Flag(value, k));
      var newValue := BitString.Changed(op, value, k);
      if op != BitString.Bt && newValue != value {
        WriteGpr(r, w, rex, newValue);
      }
    }

    method ExecuteBitTest(op: BitString.BitOp, w: Width, rex: bool, rm: Place, r: Reg) returns (error: Option<Error>)
      requires Valid()
      modifies this, mmu.Repr
      ensures Valid() && mmu.Repr == old(mmu.Repr)
      ensures ResultOf(BitString.ExecuteBitOp(old(View()), op, w, rex, rm, r), error)
    {
      hide SoftMmu.Flat, SoftMmu.Valid, Cpu.ReadGpr, BitString.BitInMemory, BitString.BitInRegister, MulDiv.SignedOperand,
        MulDiv.Quotient, Wrap;
      var raw := ReadGpr(r, w, rex);
      match rm {
        case InRegister(base) =>
          BitInRegister(op, w, rex, base, raw % Bits(w));
          error := None;
        case InMemory(ea) =>
          var offset := MulDiv.SignedOperand(raw, w);
          BitString.LocateIsFloor(offset, w);
          var element := MulDiv.Quotient(offset, Bits(w));
          var bit := offset - element * Bits(w);
          if bit < 0 {
            bit := bit + Bits(w);
            element := element - 1;
          }
          error := BitInMemory(op, w, Wrap(ea + element * (Bits(w) / 8)), bit);
      }
    }

    // ----- string moves -----

    /** The bytes of one element, read and written one by one. */
    method MoveBytes(destination: u64, source: u64, size: nat) returns (error: Option<Error>)
      requires Valid()
      modifies mmu.Repr
      ensures Valid() && mmu.Repr == old(mmu.Repr)
      ensures Stored(mmu.Flat(), error) == StringMove.MoveBytes(old(mmu.Flat()), destination, source, size)
    {
      hide SoftMmu.Flat, SoftMmu.Valid, LoadByte, StoreByte;
      AtSteps(destination);
      AtSteps(source);
      for b := 0 to size
        invariant Valid() && mmu.Repr == old(mmu.Repr)
        invariant StringMove.MoveBytes(old(mmu.Flat()), destination, source, size)
          == StringMove.MoveBytes(mmu.Flat(), At(destination, b), At(source, b), size - b)
      {
        AtStep(destination, b);
        AtStep(source, b);
        var byte := mmu.Read8WithShadow(At(source, b));
        if byte.Err? {
          return Some(byte.error);
        }
        error := mmu.Write8WithShadow(At(destination, b), ShadowByte(byte.value.value, true));
        if error.Some? {
          return;
        }
      }
      error := None;
    }

    method ExecuteStringMove(size: nat, rep: bool, segment: Segment) returns (error: Option<Error>)
      requires Valid()
      modifies this`gpr, this`gprShadow, mmu.Repr
      ensures Valid() && mmu.Repr == old(mmu.Repr)
      ensures ResultOf(StringMove.ExecuteMovs(old(View()), size, rep, segment), error)
    {
      hide SoftMmu.Flat, SoftMmu.Valid, StringMove.MoveBytes, Flag, Wrap;
      var count := if rep then gpr[StringMove.RCX] else 1;
      var step: int := if Flag(rflags, DF) then -(size as int) else size;
      var base: int := SegmentBaseOf(segment);
      for i := 0 to count
        invariant Valid() && mmu.Repr == old(mmu.Repr)
        invariant OnlyPointers(old(gpr), gpr) && gprShadow == old(gprShadow)
        invariant StringMove.MoveElements(old(mmu.Flat()), old(gpr[StringMove.RSI]), old(gpr[StringMove.RDI]), base, size, step, count)
          == StringMove.MoveElements(mmu.Flat(), gpr[StringMove.RSI], gpr[StringMove.RDI], base, size, step, count - i)
      {
        error := MoveBytes(gpr[StringMove.RDI], Wrap(gpr[StringMove.RSI] + base), size);
        if error.Some? {
          return;
        }
        StepPointers(step);
      }
      if rep {
        gpr, gprShadow := gpr[StringMove.RCX := 0], gprShadow[StringMove.RCX := 0];
      }
      error := None;
    }

    method StepPointers(step: int)
      modifies this`gpr
      ensures gpr[StringMove.RSI] == Wrap(old(gpr[StringMove.RSI]) + step)
      ensures gpr[StringMove.RDI] == Wrap(old(gpr[StringMove.RDI]) + step)
      ensures forall f :: OnlyPointers(f, old(gpr)) ==> OnlyPointers(f, gpr)
    {
      hide Wrap;
      gpr := gpr[StringMove.RSI := Wrap(gpr[StringMove.RSI] + step)];
      gpr := gpr[StringMove.RDI := Wrap(gpr[StringMove.RDI] + step)];
    }

    /** f' differs from f in RSI and RDI at most. */
    static predicate OnlyPointers(f: File, f': File) {
      f' == f[StringMove.RSI := f'[StringMove.RSI]][StringMove.RDI := f'[StringMove.RDI]]
    }

    function SegmentBaseOf(segment: Segment): u64
      reads this
    {
      match segment case NoSegment => 0 case Fs => fsBase case Gs => gsBase
    }

    // ----- the stack -----

    method Push64(value: u64, shadow: u64) returns (error: Option<Error>)
      requires Valid()
      modifies this`gpr, mmu.Repr
      ensures Valid() && mmu.Repr == old(mmu.Repr)
      ensures ResultOf(PushWord(old(View()), value, shadow), error)
    {
      hide SoftMmu.Flat, SoftMmu.Valid, Store, ShadowedBytes;
      gpr := gpr[RSP := Wrap(gpr[RSP] as int - 8)];
      error := mmu.WriteWithShadow(gpr[RSP], ShadowedBytes(value, shadow));
    }

    method Pop64WithShadow() returns (word: Popped, error: Option<Error>)
      requires Valid()
      modifies this`gpr
      ensures Valid()
      ensures PopWord(old(View())) == if error.None? then Done((View(), word)) else Faulted(error.value, reports)
    {
      hide SoftMmu.Flat, SoftMmu.Valid, Load;
      word := Popped(0, true);
      var bytes := mmu.ReadWithShadow(gpr[RSP], 8);
      if bytes.Err? {
        error := Some(bytes.error);
      } else {
        WordFits(Values(bytes.value), W64);
        word, error := Popped(FromBytes(Values(bytes.value)), AllInitialized(bytes.value)), None;
        gpr := gpr[RSP := Wrap(gpr[RSP] as int + 8)];
      }
    }

    /** PUSH, POP, CALL and RET. */
    method ExecuteStackInstruction(i: Instruction, next: u64) returns (error: Option<Error>)
      requires Valid() && UsesStack(i)
      modifies this`gpr, this`gprShadow, this`rip, mmu.Repr
      ensures Valid() && mmu.Repr == old(mmu.Repr)
      ensures ResultOf(ExecuteStack(old(View()), i, next), error)
    {
      hide SoftMmu.Flat, SoftMmu.Valid, PushWord, PopWord;
      match i {
        case Push(r) => error := Push64(gpr[r], gprShadow[r]);
        case PushImmediate(value) => error := Push64(value, 0);
        case Pop(r) =>
          var word;
          word, error := Pop64WithShadow();
          if error.None? {
            gpr, gprShadow := gpr[r := word.value], gprShadow[r := if word.initialized then 0 else TWO_64 - 1];
          }
        case Call(offset) =>
          error := Push64(next, 0);
          if error.None? {
            rip := Wrap(next + offset);
          }
        case Return(discard) =>
          var target;
          target, error := Pop64WithShadow();
          if error.None? {
            gpr, rip := gpr[RSP := Wrap(gpr[RSP] as int + discard)], target.value;
          }
      }
    }

    /** The instructions with two operands, with none, and the jumps. */
    method ExecuteOther(i: Instruction, rex: bool, next: u64) returns (error: Option<Error>)
      requires Valid() && !HasOneOperand(i) && !UsesStack(i)
      modifies this, mmu.Repr
      ensures Valid() && mmu.Repr == old(mmu.Repr)
      ensures ResultOf(Perform(old(View()), i, rex, next), error)
    {
      hide SoftMmu.Flat, SoftMmu.Valid, Locate, ExecuteMov, ExecuteArithmetic, DecodeAddress, DecodedAddress, Cpu.WriteGpr,
        Cpu.ReadGpr, Swapped, Condition;
      error := None;
      match i
      case Mov(w, destination, source) =>
        var d := DecodeOperand(destination, next);
        var p := DecodeOperand(source, next);
        error := ExecuteMovRm(w, rex, d, p);
      case Arithmetic(op, w, destination, source) =>
        var d := DecodeOperand(destination, next);
        var p := DecodeOperand(source, next);
        error := ExecuteAluRmReg(op, w, rex, d, p);
      case Lea(w, r, a) =>
        var address := DecodeMemoryAddress(a, next);
        WriteGpr(r, w, rex, address);
      case Bswap(w, r) =>
        var v := ReadGpr(r, w, rex);
        WriteGpr(r, w, rex, Swapped(v, w));
      case XchgRax(r) =>
        gpr, gprShadow := gpr[0 := gpr[r]][r := gpr[0]], gprShadow[0 := gprShadow[r]][r := gprShadow[0]];
      case JumpIf(cc, offset) =>
        var taken := BranchCondition(cc % 16);
        if taken {
          rip := Wrap(next + offset);
        }
      case Jump(offset) => rip := Wrap(next + offset);
    }

    /** Executes the instruction at rip. */
    method Step(program: Program) returns (error: Option<Error>)
      requires Valid()
      modifies this, mmu.Repr
      ensures Valid() && mmu.Repr == old(mmu.Repr)
      ensures ResultOf(Cpu.Step(program, old(View())), error)
    {
      hide SoftMmu.Flat, SoftMmu.Valid, Perform, HasOneOperand, UsesStack, ExecuteStack;
      if rip !in program {
        return Some(Unsupported);
      }
      var d := program[rip];
      var next := Wrap(rip + d.length);
      currentTaint, rip := false, next;
      if HasOneOperand(d.instruction) {
        error := ExecuteOneOperand(d.instruction, d.rex, next);
      } else if UsesStack(d.instruction) {
        StackPerforms(View(), d.instruction, d.rex, next);
        error := ExecuteStackInstruction(d.instruction, next);
      } else {
        error := ExecuteOther(d.instruction, d.rex, next);
      }
    }

    /** Up to n instructions, until one fails. */
    method Run(program: Program, n: nat) returns (error: Option<Error>)
      requires Valid()
      modifies this, mmu.Repr
      ensures Valid() && mmu.Repr == old(mmu.Repr)
      ensures ResultOf(Cpu.Run(program, old(View()), n), error)
    {
      hide SoftMmu.Flat, SoftMmu.Valid, Cpu.Step;
      for i := 0 to n
        invariant Valid() && mmu.Repr == old(mmu.Repr)
        invariant Cpu.Run(program, old(View()), n) == Cpu.Run(program, View(), n - i)
      {
        error := Step(program);
        if error.Some? {
          return;
        }
      }
      error := None;
    }
  }
}
