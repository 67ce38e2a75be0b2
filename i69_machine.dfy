/** The `TomtelI69` emulator object of src/steps/step6.rs: registers, a memory
    buffer updated in place and an output vector, with methods that fetch, decode
    and execute one instruction at a time. Every method is proved to follow the
    value-level definitions of module I69. */
module I69Machine {
  import opened Bytes
  import I69
  import Base85

  class TomtelI69 {
    var reg: I69.Registers
    var mem: array<bv8>
    var out: seq<bv8>

    /** The emulator's state as a value. */
    function State(): I69.Machine
      reads this, mem
    {
      I69.Machine(reg, mem[..], out)
    }

    /** `TomtelI69::new`: the image becomes memory, registers are zero, output is empty. */
    constructor(image: seq<bv8>)
      ensures State() == I69.Initial(image)
      ensures fresh(mem)
    {
      reg := I69.ZeroRegisters;
      mem := new bv8[|image|](i requires 0 <= i < |image| => image[i]);
      out := [];
      new;
      assert mem[..] == image;
    }

    /** Indexing memory, with the out-of-range panic as a fault. */
    method ByteAt(i: int) returns (r: Result<bv8, I69.Fault>)
      ensures r == I69.ByteAt(mem[..], i)
    {
      if 0 <= i < mem.Length {
        r := Ok(mem[i]);
      } else {
        r := Err(I69.AddressError(i));
      }
    }

    /** `u32::from_le_bytes(mem[i..i + 4])`, with the out-of-range panic as a fault. */
    method WordAt(i: int) returns (r: Result<u32, I69.Fault>)
      ensures r == I69.WordAt(mem[..], i)
    {
      if 0 <= i && i + 4 <= mem.Length {
        assert mem[..][i..i + 4] == mem[i..i + 4];
        r := Ok(LE32(mem[i..i + 4]));
      } else {
        r := Err(I69.AddressError(i + 3));
      }
    }

    /** `read_u8_re`. */
    method ReadU8Re(r: I69.RegU8) returns (v: Result<bv8, I69.Fault>)
      ensures v == I69.ReadU8(State(), r)
    {
      match r
      case A => v := Ok(reg.a);
      case B => v := Ok(reg.b);
      case C => v := Ok(reg.c);
      case D => v := Ok(reg.d);
      case E => v := Ok(reg.e);
      case F => v := Ok(reg.f);
      case PtrC => v := ByteAt(reg.PtrC());
    }

    /** `write_u8_re`: a named register is a field update, ptr_c a store into memory. */
    method WriteU8Re(r: I69.RegU8, val: bv8) returns (fault: Option<I69.Fault>)
      modifies this, mem
      ensures mem == old(mem)
      ensures fault.None? <==> I69.WriteU8(old(State()), r, val).Ok?
      ensures fault.None? ==> State() == I69.WriteU8(old(State()), r, val).value
      ensures fault.Some? ==> fault.value == I69.WriteU8(old(State()), r, val).error && State() == old(State())
    {
      fault := None;
      match r
      case A => reg := reg.(a := val);
      case B => reg := reg.(b := val);
      case C => reg := reg.(c := val);
      case D => reg := reg.(d := val);
      case E => reg := reg.(e := val);
      case F => reg := reg.(f := val);
      case PtrC =>
        var i := reg.PtrC();
        if i < mem.Length {
          mem[i] := val;
        } else {
          fault := Some(I69.AddressError(i));
        }
    }

    /** `read_u32_re`. */
    method ReadU32Re(r: I69.RegU32) returns (v: u32)
      ensures v == I69.ReadU32(reg, r)
    {
      match r
      case La => v := reg.la;
      case Lb => v := reg.lb;
      case Lc => v := reg.lc;
      case Ld => v := reg.ld;
      case Ptr => v := reg.ptr;
      case Pc => v := reg.pc;
    }

    /** `write_u32_re`. */
    method WriteU32Re(r: I69.RegU32, v: u32)
      modifies this
      ensures mem == old(mem) && out == old(out)
      ensures reg == I69.WriteU32(old(reg), r, v)
    {
      match r
      case La => reg := reg.(la := v);
      case Lb => reg := reg.(lb := v);
      case Lc => reg := reg.(lc := v);
      case Ld => reg := reg.(ld := v);
      case Ptr => reg := reg.(ptr := v);
      case Pc => reg := reg.(pc := v);
    }

    /** `fetch_decode`: decode the instruction at pc and step pc past it. */
    method FetchDecode() returns (r: Result<I69.Instruction, I69.Fault>)
      modifies this
      ensures mem == old(mem)
      ensures r == I69.Decode(old(State()).mem, old(reg.pc))
      ensures r.Ok? ==> State() == I69.Advance(old(State()), r.value)
      ensures r.Err? ==> State() == old(State())
    {
      var pc := reg.pc;
      var ins :- DecodeAt(pc);
      reg := reg.(pc := Wrap32(pc + I69.Width(ins)));
      r := Ok(ins);
    }

    /** The match of `fetch_decode` on the opcode at pc. */
    method DecodeAt(pc: u32) returns (r: Result<I69.Instruction, I69.Fault>)
      ensures r == I69.Decode(mem[..], pc)
    {
      var op :- ByteAt(pc);
      if op == 0xC2 {
        r := Ok(I69.Add);
      } else if op == 0xE1 {
        var n :- ByteAt(pc + 1);
        r := Ok(I69.Aptr(n));
      } else if op == 0xC1 {
        r := Ok(I69.Cmp);
      } else if op == 0x01 {
        r := Ok(I69.Halt);
      } else if op == 0x21 {
        var t :- WordAt(pc + 1);
        r := Ok(I69.Jez(t));
      } else if op == 0x22 {
        var t :- WordAt(pc + 1);
        r := Ok(I69.Jnz(t));
      } else if op == 0x02 {
        r := Ok(I69.Out);
      } else if op == 0xC3 {
        r := Ok(I69.Sub);
      } else if op == 0xC4 {
        r := Ok(I69.Xor);
      } else {
        r := DecodeMoveAt(pc, op);
      }
    }

    /** The guarded arms of the match: the move families in source order. */
    method DecodeMoveAt(pc: u32, op: bv8) returns (r: Result<I69.Instruction, I69.Fault>)
      ensures r == I69.DecodeMove(mem[..], pc, op)
    {
      if op & 0x47 == 0x40 {
        var d :- I69.Operand8(op, I69.Dest, pc);
        var n :- ByteAt(pc + 1);
        r := Ok(I69.Mvi(d, n));
      } else if op & 0x40 == 0x40 {
        var d :- I69.Operand8(op, I69.Dest, pc);
        var s :- I69.Operand8(op, I69.Src, pc);
        r := Ok(I69.Mv(d, s));
      } else if op & 0x87 == 0x80 {
        var d :- I69.Operand32(op, I69.Dest, pc);
        var n :- WordAt(pc + 1);
        r := Ok(I69.Mvi32(d, n));
      } else if op & 0x80 == 0x80 {
        var d :- I69.Operand32(op, I69.Dest, pc);
        var s :- I69.Operand32(op, I69.Src, pc);
        r := Ok(I69.Mv32(d, s));
      } else {
        r := Err(I69.InvalidInstruction(pc, op));
      }
    }

    /** `execute`: carry out one instruction; Ok(true) when it is Halt. */
    method Execute(ins: I69.Instruction) returns (r: Result<bool, I69.Fault>)
      modifies this, mem
      ensures mem == old(mem)
      ensures r.Ok? <==> I69.Execute(old(State()), ins).Ok?
      ensures r.Ok? ==> I69.Execute(old(State()), ins).value == (State(), r.value)
      ensures r.Err? ==> r.error == I69.Execute(old(State()), ins).error && State() == old(State())
    {
      match ins {
        case Halt =>
          return Ok(true);
        case Mv(d, s) =>
          var v :- ReadU8Re(s);
          var fault := WriteU8Re(d, v);
          if fault.Some? { return Err(fault.value); }
        case Mvi(d, n) =>
          var fault := WriteU8Re(d, n);
          if fault.Some? { return Err(fault.value); }
        case _ =>
          ExecuteRegisters(ins);
      }
      r := Ok(false);
    }

    /** The instructions that only change registers or the output, and cannot fail. */
    method ExecuteRegisters(ins: I69.Instruction)
      requires !ins.Halt? && !ins.Mv? && !ins.Mvi?
      modifies this
      ensures mem == old(mem)
      ensures I69.Execute(old(State()), ins) == Ok((State(), false))
    {
      match ins
      case Add => ExecuteAccumulator(ins);
      case Sub => ExecuteAccumulator(ins);
      case Xor => ExecuteAccumulator(ins);
      case Cmp => ExecuteAccumulator(ins);
      case Aptr(n) =>
        reg := reg.(ptr := Wrap32(reg.ptr + n as int));
      case Jez(t) =>
        if reg.f == 0 { reg := reg.(pc := t); }
      case Jnz(t) =>
        if reg.f != 0 { reg := reg.(pc := t); }
      case Mv32(d, s) =>
        var v := ReadU32Re(s);
        WriteU32Re(d, v);
      case Mvi32(d, n) =>
        WriteU32Re(d, n);
      case Out =>
        out := out + [reg.a];
    }

    /** Add, Sub and Xor write a; Cmp writes f. */
    method ExecuteAccumulator(ins: I69.Instruction)
      requires ins.Add? || ins.Sub? || ins.Xor? || ins.Cmp?
      modifies this
      ensures mem == old(mem)
      ensures I69.Execute(old(State()), ins) == Ok((State(), false))
    {
      var a, b := reg.a, reg.b;
      if ins.Add? {
        reg := reg.(a := I69.WrappingAdd(a, b));
      } else if ins.Sub? {
        reg := reg.(a := I69.WrappingSub(a, b));
      } else if ins.Xor? {
        reg := reg.(a := a ^ b);
      } else {
        reg := reg.(f := if a != b then 1 else 0);
      }
    }

    /** `run_cycle`: fetch, decode and execute; the output so far once the instruction was Halt. */
    method RunCycle() returns (r: Result<Option<seq<bv8>>, I69.Fault>)
      modifies this, mem
      ensures mem == old(mem)
      ensures r.Err? ==> I69.Cycle(old(State())) == Err(r.error)
      ensures r.Ok? ==> I69.Cycle(old(State())) == Ok((State(), r.value.Some?))
      ensures r == Ok(Some(out)) || r == Ok(None) || r.Err?
    {
      var ins :- FetchDecode();
      var halted :- Execute(ins);
      if halted {
        r := Ok(Some(out));
      } else {
        r := Ok(None);
      }
    }
  }

  /** A function agreeing with `I69.Cycle` on every state. The loop below is proved for such a
      step handed in as a ghost, so that its proof never has to look inside a cycle. */
  ghost predicate IsCycle(step: I69.Machine -> Result<(I69.Machine, bool), I69.Fault>)
  {
    forall m {:trigger I69.Cycle(m)} :: step(m) == I69.Cycle(m)
  }

  /** One turn of the loop in `step6_extension`: a cycle of the emulator object is one step of the run. */
  method Tick(cpu: TomtelI69, ghost step: I69.Machine -> Result<(I69.Machine, bool), I69.Fault>, ghost st: I69.Machine, ghost fuel: nat)
    returns (c: Result<Option<seq<bv8>>, I69.Fault>, ghost next: I69.Machine)
    requires IsCycle(step)
    requires fuel > 0
    requires cpu.State() == st
    modifies cpu, cpu.mem
    ensures cpu.mem == old(cpu.mem)
    ensures cpu.State() == next
    ensures c.Ok? && c.value.None? ==> I69.Iterate(step, st, fuel) == I69.Iterate(step, next, fuel - 1)
    ensures c.Err? ==> I69.Iterate(step, st, fuel) == I69.Faulted(c.error)
    ensures c.Ok? && c.value.Some? ==> I69.Iterate(step, st, fuel) == I69.Halted(c.value.value)
  {
    c := cpu.RunCycle();
    next := cpu.State();
    if c.Ok? && c.value.None? {
      I69.IterateContinues(step, st, next, fuel);
    }
  }

  /** The loop of `step6_extension`: run cycles until the machine halts or faults, for at most fuel cycles. */
  method RunFor(cpu: TomtelI69, ghost step: I69.Machine -> Result<(I69.Machine, bool), I69.Fault>, fuel: nat)
    returns (r: I69.RunOutcome)
    requires IsCycle(step)
    modifies cpu, cpu.mem
    ensures r == I69.Iterate(step, old(cpu.State()), fuel)
  {
    var n := fuel;
    ghost var st := cpu.State();
    ghost var goal := I69.Iterate(step, st, fuel);
    while n > 0
      invariant cpu.mem == old(cpu.mem)
      invariant cpu.State() == st
      invariant I69.Iterate(step, st, n) == goal
    {
      var c;
      c, st := Tick(cpu, step, st, n);
      if c.Err? {
        return I69.Faulted(c.error);
      } else if c.value.Some? {
        return I69.Halted(c.value.value);
      }
      n := n - 1;
    }
    r := I69.OutOfFuel;
  }

  /** `step6_extension`: load the payload into a fresh emulator and run it. */
  method Step6Extension(payload: seq<bv8>, fuel: nat) returns (r: I69.RunOutcome)
    ensures r == I69.Run(I69.Initial(payload), fuel)
  {
    var cpu := new TomtelI69(payload);
    r := RunFor(cpu, I69.Cycle, fuel);
  }

  /** `run_step`: decode the Ascii85 text, then run the emulator on it. */
  method RunStep(payload: seq<bv8>, fuel: nat) returns (r: Result<I69.RunOutcome, Base85.Base85Error>)
    ensures Base85.Decoded(payload).Err? ==> r == Err(Base85.Decoded(payload).error)
    ensures Base85.Decoded(payload).Ok? ==> r == Ok(I69.Run(I69.Initial(Base85.Decoded(payload).value), fuel))
  {
    var decoded := Base85.Base85(payload);
    if decoded.Err? {
      return Err(decoded.error);
    }
    var outcome := Step6Extension(decoded.value, fuel);
    r := Ok(outcome);
  }
}
