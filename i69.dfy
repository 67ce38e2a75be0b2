/** The Tomtel I69 processor of src/steps/step6.rs, stated on values: its
    instruction set, register operands, the opcode decoder, the effect of one
    instruction, one fetch-decode-execute cycle and a fuel-bounded run. The
    mutable emulator object in module I69Machine is proved to follow these
    definitions step by step. */
module I69 {
  import opened Bytes

  /** Byte-register operands; `ptr_c` is the memory cell at ptr + c. */
  datatype RegU8 = A | B | C | D | E | F | PtrC

  /** Word-register operands. */
  datatype RegU32 = La | Lb | Lc | Ld | Ptr | Pc

  /** The discriminant the source gives each byte register (its 3-bit code). */
  function RegU8Code(r: RegU8): int
  {
    match r
    case A => 1 case B => 2 case C => 3 case D => 4 case E => 5 case F => 6 case PtrC => 7
  }

  /** The discriminant the source gives each word register (its 3-bit code). */
  function RegU32Code(r: RegU32): int
  {
    match r
    case La => 1 case Lb => 2 case Lc => 3 case Ld => 4 case Ptr => 5 case Pc => 6
  }

  /** Which operand field of an opcode is meant: the source, bits 0-2, or the destination, bits 3-5. */
  datatype DestSrc = Src | Dest

  /** The 3-bit operand field, cut out with mask and shift. */
  function Field(op: bv8, which: DestSrc): (r: int)
    ensures 0 <= r < 8
    ensures r == (if which == Dest then op as int / 8 else op as int) % 8
  {
    match which
    case Dest => FieldBits(op); ((op & (0x07 << 3)) >> 3) as int
    case Src => FieldBits(op); (op & 0x07) as int
  }

  lemma FieldBits(op: bv8)
    ensures ((op & (0x07 << 3)) >> 3) as int == (op as int / 8) % 8
    ensures (op & 0x07) as int == op as int % 8
  {
    LowBits(op);
    ShiftedField(op);
    ShiftRight(op, 3, 8);
    LowBits(op >> 3);
  }

  /** Bits 0-2 of a byte are its value modulo 8. */
  lemma LowBits(op: bv8)
    ensures (op & 0x07) as int == op as int % 8
  {
  }

  /** Masking bits 3-5 and shifting them down is shifting first and masking bits 0-2. */
  lemma ShiftedField(op: bv8)
    ensures (op & (0x07 << 3)) >> 3 == (op >> 3) & 0x07
  {
  }

  /** A right shift by k divides by 2^k. */
  lemma ShiftRight(op: bv8, k: nat, p: int)
    requires (k == 3 && p == 8) || (k == 6 && p == 64) || (k == 7 && p == 128)
    ensures (op >> k) as int == op as int / p
  {
  }

  /** The four opcode masks of the move families, read as arithmetic on the opcode's value:
      bit 6 is (op / 64) % 2, bit 7 is op >= 128, bits 0-2 are op % 8. */
  lemma MaskBits(op: bv8)
    ensures (op & 0x47 == 0x40) <==> ((op as int / 64) % 2 == 1 && op as int % 8 == 0)
    ensures (op & 0x40 == 0x40) <==> (op as int / 64) % 2 == 1
    ensures (op & 0x87 == 0x80) <==> (op as int >= 128 && op as int % 8 == 0)
    ensures (op & 0x80 == 0x80) <==> op as int >= 128
  {
    MaskSplit(op);
    LowBits(op);
    ShiftRight(op, 6, 64);
    LowBits(op >> 6);
    ShiftRight(op, 7, 128);
  }

  /** The masks tested bit by bit, all on bit-vectors. */
  lemma MaskSplit(op: bv8)
    ensures (op & 0x47 == 0x40) <==> (op & 0x40 == 0x40 && op & 0x07 == 0)
    ensures (op & 0x87 == 0x80) <==> (op & 0x80 == 0x80 && op & 0x07 == 0)
    ensures (op & 0x40 == 0x40) <==> ((op >> 6) & 0x07) % 2 == 1
    ensures (op & 0x80 == 0x80) <==> op >> 7 == 1
  {
  }

  /** `RegU8::from_opcode`: None stands for the source's invalid-register panic. */
  function RegU8FromOpcode(op: bv8, which: DestSrc): (r: Option<RegU8>)
    ensures r.Some? <==> Field(op, which) != 0
    ensures r.Some? ==> RegU8Code(r.value) == Field(op, which)
  {
    match Field(op, which)
    case 1 => Some(A)
    case 2 => Some(B)
    case 3 => Some(C)
    case 4 => Some(D)
    case 5 => Some(E)
    case 6 => Some(F)
    case 7 => Some(PtrC)
    case _ => None
  }

  /** `RegU32::from_opcode`: None stands for the source's invalid-register panic. */
  function RegU32FromOpcode(op: bv8, which: DestSrc): (r: Option<RegU32>)
    ensures r.Some? <==> 1 <= Field(op, which) <= 6
    ensures r.Some? ==> RegU32Code(r.value) == Field(op, which)
  {
    match Field(op, which)
    case 1 => Some(La)
    case 2 => Some(Lb)
    case 3 => Some(Lc)
    case 4 => Some(Ld)
    case 5 => Some(Ptr)
    case 6 => Some(Pc)
    case _ => None
  }

  datatype Instruction =
    | Add
    | Aptr(imm8: bv8)
    | Cmp
    | Halt
    | Jez(target: u32)
    | Jnz(target: u32)
    | Mv(dest: RegU8, src: RegU8)
    | Mv32(dest32: RegU32, src32: RegU32)
    | Mvi(dest: RegU8, imm8: bv8)
    | Mvi32(dest32: RegU32, imm32: u32)
    | Out
    | Sub
    | Xor

  /** `get_instruction_size`: the number of bytes the instruction occupies in memory. */
  function Width(ins: Instruction): (w: u32)
    ensures w == |Encode(ins)|
  {
    match ins
    case Add => 1
    case Aptr(_) => 2
    case Cmp => 1
    case Halt => 1
    case Jez(_) => 5
    case Jnz(_) => 5
    case Mv(_, _) => 1
    case Mv32(_, _) => 1
    case Mvi(_, _) => 2
    case Mvi32(_, _) => 5
    case Out => 1
    case Sub => 1
    case Xor => 1
  }

  /** A byte encoding of each instruction (the move families with bit 7, resp. bit 6, clear). */
  function Encode(ins: Instruction): (s: seq<bv8>)
  {
    match ins
    case Add => [0xC2]
    case Aptr(n) => [0xE1, n]
    case Cmp => [0xC1]
    case Halt => [0x01]
    case Jez(t) => [0x21] + ToLittleEndian(t, 4)
    case Jnz(t) => [0x22] + ToLittleEndian(t, 4)
    case Mv(d, s) => [ByteOf(0x40 + 8 * RegU8Code(d) + RegU8Code(s))]
    case Mv32(d, s) => [ByteOf(0x80 + 8 * RegU32Code(d) + RegU32Code(s))]
    case Mvi(d, n) => [ByteOf(0x40 + 8 * RegU8Code(d)), n]
    case Mvi32(d, n) => [ByteOf(0x80 + 8 * RegU32Code(d))] + ToLittleEndian(n, 4)
    case Out => [0x02]
    case Sub => [0xC3]
    case Xor => [0xC4]
  }

  /** The fatal conditions under which the source panics. */
  datatype Fault =
    | AddressError(address: int)
    | InvalidInstruction(pc: u32, opcode: bv8)
    | InvalidRegister(pc: u32, opcode: bv8)

  function ByteAt(mem: seq<bv8>, i: int): Result<bv8, Fault>
  {
    if 0 <= i < |mem| then Ok(mem[i]) else Err(AddressError(i))
  }

  /** The 4-byte little-endian word at mem[i..i + 4]. */
  function WordAt(mem: seq<bv8>, i: int): Result<u32, Fault>
  {
    if 0 <= i && i + 4 <= |mem| then Ok(LE32(mem[i..i + 4])) else Err(AddressError(i + 3))
  }

  function Operand8(op: bv8, which: DestSrc, pc: u32): Result<RegU8, Fault>
  {
    match RegU8FromOpcode(op, which)
    case Some(r) => Ok(r)
    case None => Err(InvalidRegister(pc, op))
  }

  function Operand32(op: bv8, which: DestSrc, pc: u32): Result<RegU32, Fault>
  {
    match RegU32FromOpcode(op, which)
    case Some(r) => Ok(r)
    case None => Err(InvalidRegister(pc, op))
  }

  /** The decoding half of `fetch_decode`: the fixed opcodes first, then the
      four move families in their order of precedence. */
  function Decode(mem: seq<bv8>, pc: u32): Result<Instruction, Fault>
  {
    var op :- ByteAt(mem, pc);
    if op == 0xC2 then Ok(Add)
    else if op == 0xE1 then var n :- ByteAt(mem, pc + 1); Ok(Aptr(n))
    else if op == 0xC1 then Ok(Cmp)
    else if op == 0x01 then Ok(Halt)
    else if op == 0x21 then var t :- WordAt(mem, pc + 1); Ok(Jez(t))
    else if op == 0x22 then var t :- WordAt(mem, pc + 1); Ok(Jnz(t))
    else if op == 0x02 then Ok(Out)
    else if op == 0xC3 then Ok(Sub)
    else if op == 0xC4 then Ok(Xor)
    else DecodeMove(mem, pc, op)
  }

  /** The guarded arms of `fetch_decode`: the move families, tried in source order, and the
      invalid-instruction panic when none matches. */
  function DecodeMove(mem: seq<bv8>, pc: u32, op: bv8): Result<Instruction, Fault>
  {
    if op & 0x47 == 0x40 then
      var d :- Operand8(op, Dest, pc);
      var n :- ByteAt(mem, pc + 1);
      Ok(Mvi(d, n))
    else if op & 0x40 == 0x40 then
      var d :- Operand8(op, Dest, pc);
      var s :- Operand8(op, Src, pc);
      Ok(Mv(d, s))
    else if op & 0x87 == 0x80 then
      var d :- Operand32(op, Dest, pc);
      var n :- WordAt(mem, pc + 1);
      Ok(Mvi32(d, n))
    else if op & 0x80 == 0x80 then
      var d :- Operand32(op, Dest, pc);
      var s :- Operand32(op, Src, pc);
      Ok(Mv32(d, s))
    else
      Err(InvalidInstruction(pc, op))
  }

  // ---------------------------------------------------------------------
  // Machine state

  datatype Registers = Registers(
    a: bv8, b: bv8, c: bv8, d: bv8, e: bv8, f: bv8,
    la: u32, lb: u32, lc: u32, ld: u32, ptr: u32, pc: u32)
  {
    /** `ptr_c`: the address ptr + c, wrapping at 2^32. */
    function PtrC(): u32
    {
      Wrap32(ptr as int + c as int)
    }
  }

  /** `Registers::new`: every register zero. */
  const ZeroRegisters := Registers(0, 0, 0, 0, 0, 0, 0, 0, 0, 0, 0, 0)

  /** The whole processor: registers, the unified memory and the output emitted so far. */
  datatype Machine = Machine(reg: Registers, mem: seq<bv8>, out: seq<bv8>)

  /** The state the emulator starts in: the program image as memory, zero registers, no output. */
  function Initial(image: seq<bv8>): Machine
  {
    Machine(ZeroRegisters, image, [])
  }

  /** `read_u8_re`. */
  function ReadU8(m: Machine, r: RegU8): Result<bv8, Fault>
  {
    match r
    case A => Ok(m.reg.a)
    case B => Ok(m.reg.b)
    case C => Ok(m.reg.c)
    case D => Ok(m.reg.d)
    case E => Ok(m.reg.e)
    case F => Ok(m.reg.f)
    case PtrC => ByteAt(m.mem, m.reg.PtrC())
  }

  /** `write_u8_re`. */
  function WriteU8(m: Machine, r: RegU8, v: bv8): Result<Machine, Fault>
  {
    match r
    case A => Ok(m.(reg := m.reg.(a := v)))
    case B => Ok(m.(reg := m.reg.(b := v)))
    case C => Ok(m.(reg := m.reg.(c := v)))
    case D => Ok(m.(reg := m.reg.(d := v)))
    case E => Ok(m.(reg := m.reg.(e := v)))
    case F => Ok(m.(reg := m.reg.(f := v)))
    case PtrC =>
      var i := m.reg.PtrC();
      if i < |m.mem| then Ok(m.(mem := m.mem[i := v])) else Err(AddressError(i))
  }

  /** `read_u32_re`. */
  function ReadU32(reg: Registers, r: RegU32): u32
  {
    match r
    case La => reg.la
    case Lb => reg.lb
    case Lc => reg.lc
    case Ld => reg.ld
    case Ptr => reg.ptr
    case Pc => reg.pc
  }

  /** `write_u32_re`. */
  function WriteU32(reg: Registers, r: RegU32, v: u32): Registers
  {
    match r
    case La => reg.(la := v)
    case Lb => reg.(lb := v)
    case Lc => reg.(lc := v)
    case Ld => reg.(ld := v)
    case Ptr => reg.(ptr := v)
    case Pc => reg.(pc := v)
  }

  /** `u8::overflowing_add(a, b).0`: the sum modulo 256. */
  function WrappingAdd(a: bv8, b: bv8): (r: bv8)
    ensures r as int == (a as int + b as int) % 256
  {
    ByteOf((a as int + b as int) % 256)
  }

  /** `u8::overflowing_sub(a, b).0`: the difference modulo 256. */
  function WrappingSub(a: bv8, b: bv8): (r: bv8)
    ensures r as int == (a as int - b as int) % 256
  {
    ByteOf((a as int - b as int) % 256)
  }

  /** `execute`: the state after one instruction, and whether it halted. */
  function Execute(m: Machine, ins: Instruction): Result<(Machine, bool), Fault>
  {
    match ins
    case Add => Ok((m.(reg := m.reg.(a := WrappingAdd(m.reg.a, m.reg.b))), false))
    case Aptr(n) => Ok((m.(reg := m.reg.(ptr := Wrap32(m.reg.ptr + n as int))), false))
    case Cmp => Ok((m.(reg := m.reg.(f := if m.reg.a != m.reg.b then 1 else 0)), false))
    case Halt => Ok((m, true))
    case Jez(t) => Ok((if m.reg.f == 0 then m.(reg := m.reg.(pc := t)) else m, false))
    case Jnz(t) => Ok((if m.reg.f != 0 then m.(reg := m.reg.(pc := t)) else m, false))
    case Mv(d, s) =>
      var v :- ReadU8(m, s);
      var m' :- WriteU8(m, d, v);
      Ok((m', false))
    case Mv32(d, s) => Ok((m.(reg := WriteU32(m.reg, d, ReadU32(m.reg, s))), false))
    case Mvi(d, n) =>
      var m' :- WriteU8(m, d, n);
      Ok((m', false))
    case Mvi32(d, n) => Ok((m.(reg := WriteU32(m.reg, d, n)), false))
    case Out => Ok((m.(out := m.out + [m.reg.a]), false))
    case Sub => Ok((m.(reg := m.reg.(a := WrappingSub(m.reg.a, m.reg.b))), false))
    case Xor => Ok((m.(reg := m.reg.(a := m.reg.a ^ m.reg.b)), false))
  }

  /** The machine with pc moved past an instruction of the given width (`pc += width`, wrapping). */
  function Advance(m: Machine, ins: Instruction): Machine
  {
    m.(reg := m.reg.(pc := Wrap32(m.reg.pc + Width(ins))))
  }

  /** `run_cycle`: decode at pc, step pc past the instruction, then execute it. */
  function Cycle(m: Machine): Result<(Machine, bool), Fault>
  {
    var ins :- Decode(m.mem, m.reg.pc);
    Execute(Advance(m, ins), ins)
  }

  datatype RunOutcome = Halted(output: seq<bv8>) | Faulted(fault: Fault) | OutOfFuel

  /** At most fuel rounds of step from m: stop at the first fault or halt. */
  function Iterate(step: Machine -> Result<(Machine, bool), Fault>, m: Machine, fuel: nat): RunOutcome
    decreases fuel
  {
    if fuel == 0 then OutOfFuel
    else
      match step(m)
      case Err(e) => Faulted(e)
      case Ok((m', halted)) => if halted then Halted(m'.out) else Iterate(step, m', fuel - 1)
  }

  /** A step that neither faults nor halts hands the remaining fuel to the state it produced. */
  lemma IterateContinues(step: Machine -> Result<(Machine, bool), Fault>, m: Machine, m': Machine, fuel: nat)
    requires fuel > 0 && step(m) == Ok((m', false))
    ensures Iterate(step, m, fuel) == Iterate(step, m', fuel - 1)
  {
  }

  /** A step that halts ends the iteration with the output it produced. */
  lemma IterateHalts(step: Machine -> Result<(Machine, bool), Fault>, m: Machine, m': Machine, fuel: nat)
    requires fuel > 0 && step(m) == Ok((m', true))
    ensures Iterate(step, m, fuel) == Halted(m'.out)
  {
  }

  /** The `step6_extension` loop with at most fuel cycles. */
  function Run(m: Machine, fuel: nat): RunOutcome
  {
    Iterate(Cycle, m, fuel)
  }
}
