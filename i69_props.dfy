/** Properties of the Tomtel I69 definitions in module I69: how opcodes
    decode, what each instruction changes and leaves alone, and how runs
    behave as fuel grows. */
module I69Properties {
  import opened Bytes
  import opened I69

  /** The opcodes the decoder matches literally, before any mask family. */
  predicate IsFixedOpcode(op: bv8)
  {
    op == 0xC2 || op == 0xE1 || op == 0xC1 || op == 0x01 || op == 0x21 || op == 0x22 || op == 0x02 || op == 0xC3 || op == 0xC4
  }

  lemma RegU8CodeInjective(r: RegU8, s: RegU8)
    ensures RegU8Code(r) == RegU8Code(s) ==> r == s
  {
  }

  lemma RegU32CodeInjective(r: RegU32, s: RegU32)
    ensures RegU32Code(r) == RegU32Code(s) ==> r == s
  {
  }

  lemma WordRoundTrip(t: u32)
    ensures LE32(ToLittleEndian(t, 4)) == t
  {
    var s := ToLittleEndian(t, 4);
    FromToLittleEndian(t, 4);
    PowWord();
    assert FromLittleEndian(s) == t;
  }

  // ---------------------------------------------------------------------
  // The decoder

  /** The bytes mid, placed after pre, are found again at offset |pre|. */
  lemma SliceAfter(pre: seq<bv8>, mid: seq<bv8>, rest: seq<bv8>)
    ensures (pre + mid + rest)[|pre|..|pre| + |mid|] == mid
  {
  }

  /** The opcode arithmetic of the two move families: value 64 (Mv, Mvi) or 128 (Mv32, Mvi32),
      plus eight times the destination code plus the source code (0 for the immediate forms). */
  lemma MoveOpcode(op: bv8, family: int, dc: int, sc: int)
    requires family == 1 || family == 2
    requires 1 <= dc <= 7 && 0 <= sc <= 7 && op as int == 64 * family + 8 * dc + sc
    ensures !IsFixedOpcode(op)
    ensures family == 1 ==> op & 0x40 == 0x40 && (op & 0x47 == 0x40 <==> sc == 0)
    ensures family == 2 ==> op & 0x40 != 0x40 && op & 0x80 == 0x80 && (op & 0x87 == 0x80 <==> sc == 0)
    ensures Field(op, Dest) == dc && Field(op, Src) == sc
  {
    MoveOpcodeDigits(op as int, family, dc, sc);
    MaskBits(op);
  }

  lemma MoveOpcodeDigits(x: int, family: int, dc: int, sc: int)
    requires family == 1 || family == 2
    requires 1 <= dc <= 7 && 0 <= sc <= 7 && x == 64 * family + 8 * dc + sc
    ensures (x / 8) % 8 == dc && x % 8 == sc && (x / 64) % 2 == family % 2 && x < 192
  {
    DivModUnique(x, 8, 8 * family + dc, sc);
    DivModUnique(8 * family + dc, 8, family, dc);
    DivModUnique(x, 64, family, 8 * dc + sc);
  }

  /** An opcode that is none of the fixed ones is decoded by the move arms. */
  lemma DecodeFallsThrough(mem: seq<bv8>, pc: u32)
    requires pc < |mem| && !IsFixedOpcode(mem[pc])
    ensures Decode(mem, pc) == DecodeMove(mem, pc, mem[pc])
  {
  }

  /** A register operand whose field holds the code of r decodes to r. */
  lemma Operand8Of(op: bv8, which: DestSrc, pc: u32, r: RegU8)
    requires Field(op, which) == RegU8Code(r)
    ensures Operand8(op, which, pc) == Ok(r)
  {
    RegU8CodeInjective(RegU8FromOpcode(op, which).value, r);
  }

  lemma Operand32Of(op: bv8, which: DestSrc, pc: u32, r: RegU32)
    requires Field(op, which) == RegU32Code(r)
    ensures Operand32(op, which, pc) == Ok(r)
  {
    RegU32CodeInjective(RegU32FromOpcode(op, which).value, r);
  }

  lemma DecodeMv(mem: seq<bv8>, pc: u32, d: RegU8, s: RegU8)
    requires pc < |mem| && mem[pc] == Encode(Mv(d, s))[0]
    ensures Decode(mem, pc) == Ok(Mv(d, s))
  {
    var op := mem[pc];
    MoveOpcode(op, 1, RegU8Code(d), RegU8Code(s));
    DecodeFallsThrough(mem, pc);
    DecodeMoveMv(mem, pc, op, d, s);
  }

  lemma DecodeMoveMv(mem: seq<bv8>, pc: u32, op: bv8, d: RegU8, s: RegU8)
    requires op & 0x47 != 0x40 && op & 0x40 == 0x40
    requires Field(op, Dest) == RegU8Code(d) && Field(op, Src) == RegU8Code(s)
    ensures DecodeMove(mem, pc, op) == Ok(Mv(d, s))
  {
    Operand8Of(op, Dest, pc, d);
    Operand8Of(op, Src, pc, s);
  }

  lemma DecodeMvi(mem: seq<bv8>, pc: u32, d: RegU8, n: bv8)
    requires pc + 1 < |mem| && mem[pc] == Encode(Mvi(d, n))[0] && mem[pc + 1] == n
    ensures Decode(mem, pc) == Ok(Mvi(d, n))
  {
    var op := mem[pc];
    MoveOpcode(op, 1, RegU8Code(d), 0);
    DecodeFallsThrough(mem, pc);
    Operand8Of(op, Dest, pc, d);
  }

  lemma DecodeMv32(mem: seq<bv8>, pc: u32, d: RegU32, s: RegU32)
    requires pc < |mem| && mem[pc] == Encode(Mv32(d, s))[0]
    ensures Decode(mem, pc) == Ok(Mv32(d, s))
  {
    var op := mem[pc];
    MoveOpcode(op, 2, RegU32Code(d), RegU32Code(s));
    DecodeFallsThrough(mem, pc);
    DecodeMoveMv32(mem, pc, op, d, s);
  }

  lemma DecodeMoveMv32(mem: seq<bv8>, pc: u32, op: bv8, d: RegU32, s: RegU32)
    requires op & 0x40 != 0x40 && op & 0x80 == 0x80 && op & 0x87 != 0x80
    requires Field(op, Dest) == RegU32Code(d) && Field(op, Src) == RegU32Code(s)
    ensures DecodeMove(mem, pc, op) == Ok(Mv32(d, s))
  {
    Operand32Of(op, Dest, pc, d);
    Operand32Of(op, Src, pc, s);
  }

  lemma DecodeMvi32(mem: seq<bv8>, pc: u32, d: RegU32, n: u32)
    requires pc + 5 <= |mem| && mem[pc] == Encode(Mvi32(d, n))[0] && mem[pc + 1..pc + 5] == ToLittleEndian(n, 4)
    ensures Decode(mem, pc) == Ok(Mvi32(d, n))
  {
    var op := mem[pc];
    MoveOpcode(op, 2, RegU32Code(d), 0);
    DecodeFallsThrough(mem, pc);
    Operand32Of(op, Dest, pc, d);
    WordRoundTrip(n);
  }

  /** Wherever the bytes of Encode(ins) sit in memory, ins is decoded from them. */
  lemma DecodeAt(mem: seq<bv8>, pc: u32, ins: Instruction)
    requires pc + Width(ins) <= |mem| && mem[pc..pc + Width(ins)] == Encode(ins)
    ensures Decode(mem, pc) == Ok(ins)
  {
    var enc := Encode(ins);
    assert mem[pc] == enc[0];
    match ins
    case Jez(t) =>
      assert mem[pc + 1..pc + 5] == enc[1..];
      WordRoundTrip(t);
    case Jnz(t) =>
      assert mem[pc + 1..pc + 5] == enc[1..];
      WordRoundTrip(t);
    case Mvi32(d, n) =>
      assert mem[pc + 1..pc + 5] == enc[1..];
      DecodeMvi32(mem, pc, d, n);
    case Mv(d, s) => DecodeMv(mem, pc, d, s);
    case Mv32(d, s) => DecodeMv32(mem, pc, d, s);
    case Mvi(d, n) =>
      assert mem[pc + 1] == enc[1];
      DecodeMvi(mem, pc, d, n);
    case Aptr(n) =>
      assert mem[pc + 1] == enc[1];
    case _ =>
  }

  /** Decoding the encoding of an instruction, placed anywhere in memory, gives the instruction back. */
  lemma DecodeEncode(pre: seq<bv8>, ins: Instruction, rest: seq<bv8>)
    requires |pre| < 0x1_0000_0000
    ensures Decode(pre + Encode(ins) + rest, |pre|) == Ok(ins)
  {
    SliceAfter(pre, Encode(ins), rest);
    DecodeAt(pre + Encode(ins) + rest, |pre|, ins);
  }

  /** A decoded instruction lies wholly inside memory. */
  lemma DecodeInBounds(mem: seq<bv8>, pc: u32)
    requires Decode(mem, pc).Ok?
    ensures pc + Width(Decode(mem, pc).value) <= |mem|
  {
  }

  /** The decoder looks at the instruction's own bytes mem[pc..pc + width] and at nothing else. */
  lemma DecodeLocal(mem: seq<bv8>, mem': seq<bv8>, pc: u32)
    requires Decode(mem, pc).Ok?
    requires pc + Width(Decode(mem, pc).value) <= |mem|
    requires pc + Width(Decode(mem, pc).value) <= |mem'|
    requires mem'[pc..pc + Width(Decode(mem, pc).value)] == mem[pc..pc + Width(Decode(mem, pc).value)]
    ensures Decode(mem', pc) == Decode(mem, pc)
  {
    var w := Width(Decode(mem, pc).value);
    assert mem'[pc] == mem[pc] by {
      assert mem'[pc] == mem'[pc..pc + w][0];
    }
    if w == 2 {
      assert mem'[pc + 1] == mem[pc + 1] by {
        assert mem'[pc + 1] == mem'[pc..pc + w][1];
      }
    } else if w == 5 {
      assert mem'[pc + 1..pc + 5] == mem[pc + 1..pc + 5] by {
        assert mem'[pc + 1..pc + 5] == mem'[pc..pc + w][1..];
        assert mem[pc + 1..pc + 5] == mem[pc..pc + w][1..];
      }
    }
  }

  /** The byte that matches no fixed opcode and no mask family is exactly one with bits 6 and 7 clear
      that is not 0x01, 0x02, 0x21 or 0x22. */
  lemma DecodeInvalidInstruction(mem: seq<bv8>, pc: u32)
    requires pc < |mem|
    ensures (Decode(mem, pc) == Err(InvalidInstruction(pc, mem[pc])))
        <==> (mem[pc] as int < 64 && mem[pc] !in {0x01, 0x02, 0x21, 0x22})
  {
    MaskBits(mem[pc]);
  }

  /** Outside the fixed opcodes, the move family is chosen by bits 6, 7 and 0-2, with bit 6 taking
      precedence, and the register operands are the codes in bits 3-5 and 0-2. */
  lemma DecodeMoveFamilies(mem: seq<bv8>, pc: u32)
    requires pc < |mem| && !IsFixedOpcode(mem[pc])
    requires Decode(mem, pc).Ok?
    ensures var op, ins := mem[pc] as int, Decode(mem, pc).value;
      var bit6, bit7, low := (op / 64) % 2 == 1, op >= 128, op % 8;
      (ins.Mvi? <==> bit6 && low == 0) &&
      (ins.Mv? <==> bit6 && low != 0) &&
      (ins.Mvi32? <==> !bit6 && bit7 && low == 0) &&
      (ins.Mv32? <==> !bit6 && bit7 && low != 0) &&
      ((ins.Mvi? || ins.Mv?) ==> RegU8Code(ins.dest) == (op / 8) % 8) &&
      (ins.Mv? ==> RegU8Code(ins.src) == low) &&
      ((ins.Mvi32? || ins.Mv32?) ==> RegU32Code(ins.dest32) == (op / 8) % 8) &&
      (ins.Mv32? ==> RegU32Code(ins.src32) == low)
  {
    MaskBits(mem[pc]);
  }

  /** A move opcode fails with an invalid register exactly when a register field it uses holds no
      register: 0 for byte registers, 0 or 7 for word registers. */
  lemma DecodeInvalidRegister(mem: seq<bv8>, pc: u32)
    requires pc < |mem| && !IsFixedOpcode(mem[pc])
    ensures var op := mem[pc] as int;
      var bit6, bit7, dest, src := (op / 64) % 2 == 1, op >= 128, (op / 8) % 8, op % 8;
      (Decode(mem, pc) == Err(InvalidRegister(pc, mem[pc])))
        <==> ((bit6 && dest == 0) || (!bit6 && bit7 && (dest == 0 || dest == 7 || src == 7)))
  {
    MaskBits(mem[pc]);
  }

  /** The fixed opcodes win over the mask families: 0xE1 also matches the Mv family, where it would
      mean Mv(d, a), yet it decodes as Aptr. */
  lemma FixedOpcodePrecedence(n: bv8)
    ensures 0xE1 as bv8 & 0x40 == 0x40
    ensures RegU8FromOpcode(0xE1, Dest) == Some(D) && RegU8FromOpcode(0xE1, Src) == Some(A)
    ensures Decode([0xE1, n], 0) == Ok(Aptr(n))
  {
  }

  /** 0xFF is a valid opcode (Mv(ptr_c, ptr_c)); 0x00 and 0x20 are invalid instructions, and
      0x40 (Mvi with destination field 0) is an invalid register. */
  lemma DecodeExamples()
    ensures Decode([0xFF], 0) == Ok(Mv(PtrC, PtrC))
    ensures Decode([0x00], 0) == Err(InvalidInstruction(0, 0x00))
    ensures Decode([0x20], 0) == Err(InvalidInstruction(0, 0x20))
    ensures Decode([0x40, 0x00], 0) == Err(InvalidRegister(0, 0x40))
  {
    assert RegU8FromOpcode(0xFF, Dest) == Some(PtrC);
    assert RegU8FromOpcode(0xFF, Src) == Some(PtrC);
    assert RegU8FromOpcode(0x40, Dest) == None;
  }

  // ---------------------------------------------------------------------
  // Registers and the indirect pseudo-register

  /** ptr_c reads exactly mem[(ptr + c) mod 2^32], and an address at or beyond the memory size is an error. */
  lemma PtrCRead(m: Machine)
    ensures var i := (m.reg.ptr + m.reg.c as int) % 0x1_0000_0000;
      ReadU8(m, PtrC) == if i < |m.mem| then Ok(m.mem[i]) else Err(AddressError(i))
  {
  }

  /** Writing ptr_c changes exactly the cell mem[(ptr + c) mod 2^32]: no register, no other cell, not the output. */
  lemma PtrCWrite(m: Machine, v: bv8)
    ensures var i := (m.reg.ptr + m.reg.c as int) % 0x1_0000_0000;
      WriteU8(m, PtrC, v).Ok? <==> i < |m.mem|
    ensures WriteU8(m, PtrC, v).Ok? ==>
      var m', i := WriteU8(m, PtrC, v).value, (m.reg.ptr + m.reg.c as int) % 0x1_0000_0000;
      m'.reg == m.reg && m'.out == m.out && |m'.mem| == |m.mem| && m'.mem[i] == v &&
      forall k :: 0 <= k < |m.mem| && k != i ==> m'.mem[k] == m.mem[k]
  {
  }

  /** With ptr = 100 and c = 5, ptr_c is memory cell 105. */
  lemma PtrCExample(m: Machine, v: bv8)
    requires m.reg.ptr == 100 && m.reg.c == 5 && |m.mem| > 105
    ensures ReadU8(m, PtrC) == Ok(m.mem[105])
    ensures WriteU8(m, PtrC, v) == Ok(m.(mem := m.mem[105 := v]))
  {
  }

  /** A byte register reads back the value last written to it. */
  lemma ReadAfterWriteU8(m: Machine, r: RegU8, v: bv8)
    requires WriteU8(m, r, v).Ok?
    ensures ReadU8(WriteU8(m, r, v).value, r) == Ok(v)
  {
  }

  /** Writing one byte register leaves every other byte register, every word register and the
      output alone; the one exception is that writing c moves the cell ptr_c refers to. */
  lemma WriteU8Frame(m: Machine, r: RegU8, r': RegU8, v: bv8)
    requires WriteU8(m, r, v).Ok?
    requires r' != r && !(r == C && r' == PtrC)
    ensures var m' := WriteU8(m, r, v).value;
      ReadU8(m', r') == ReadU8(m, r') && m'.out == m.out && |m'.mem| == |m.mem| &&
      forall w :: ReadU32(m'.reg, w) == ReadU32(m.reg, w)
  {
  }

  /** A word register reads back the value last written to it, and no other register changes. */
  lemma WriteU32Frame(m: Machine, r: RegU32, v: u32)
    ensures ReadU32(WriteU32(m.reg, r, v), r) == v
    ensures forall w :: w != r ==> ReadU32(WriteU32(m.reg, r, v), w) == ReadU32(m.reg, w)
    ensures forall s :: s != PtrC ==> ReadU8(m.(reg := WriteU32(m.reg, r, v)), s) == ReadU8(m, s)
  {
  }

  // ---------------------------------------------------------------------
  // One instruction

  /** Only Halt makes execute report a halt, and Halt changes nothing. */
  lemma ExecuteHalts(m: Machine, ins: Instruction)
    requires Execute(m, ins).Ok?
    ensures Execute(m, ins).value.1 <==> ins == Halt
    ensures ins == Halt ==> Execute(m, ins).value.0 == m
  {
  }

  /** No instruction changes the memory size; Out appends a and changes nothing else; every other
      instruction leaves the output as it was. */
  lemma ExecuteOutput(m: Machine, ins: Instruction)
    requires Execute(m, ins).Ok?
    ensures var m' := Execute(m, ins).value.0;
      |m'.mem| == |m.mem| &&
      (ins == Out ==> m' == m.(out := m.out + [m.reg.a])) &&
      (ins != Out ==> m'.out == m.out)
  {
  }

  /** Add, Sub and Xor change only a, to the wrapped 8-bit result; Cmp changes only f, to 1 when
      a and b differ and 0 when they are equal. */
  lemma ExecuteArithmetic(m: Machine, ins: Instruction)
    requires ins.Add? || ins.Sub? || ins.Xor? || ins.Cmp?
    ensures Execute(m, ins).Ok? && !Execute(m, ins).value.1
    ensures var m' := Execute(m, ins).value.0;
      m'.mem == m.mem && m'.out == m.out &&
      (ins.Cmp? ==> m'.reg == m.reg.(f := m'.reg.f) && m'.reg.f == (if m.reg.a != m.reg.b then 1 else 0)) &&
      (!ins.Cmp? ==> m'.reg == m.reg.(a := m'.reg.a)) &&
      (ins.Add? ==> m'.reg.a as int == (m.reg.a as int + m.reg.b as int) % 256) &&
      (ins.Sub? ==> m'.reg.a as int == (m.reg.a as int - m.reg.b as int) % 256) &&
      (ins.Xor? ==> m'.reg.a == m.reg.a ^ m.reg.b)
  {
  }

  /** The wrap-around cases: 250 + 10 is 4 and 5 - 10 is 251. */
  lemma ArithmeticWraps(m: Machine)
    requires m.reg.a == 250 && m.reg.b == 10
    ensures Execute(m, Add).value.0.reg.a == 4
    ensures Execute(m.(reg := m.reg.(a := 5)), Sub).value.0.reg.a == 251
  {
  }

  /** Mv copies the source byte register into the destination; it fails exactly when the read or
      the write does. */
  lemma MvCopies(m: Machine, d: RegU8, s: RegU8)
    ensures Execute(m, Mv(d, s)).Ok? <==> ReadU8(m, s).Ok? && WriteU8(m, d, ReadU8(m, s).value).Ok?
    ensures Execute(m, Mv(d, s)).Ok? ==> ReadU8(Execute(m, Mv(d, s)).value.0, d) == ReadU8(m, s)
  {
    if ReadU8(m, s).Ok? && WriteU8(m, d, ReadU8(m, s).value).Ok? {
      var v := ReadU8(m, s).value;
      assert Execute(m, Mv(d, s)) == Ok((WriteU8(m, d, v).value, false));
      ReadAfterWriteU8(m, d, v);
    }
  }

  /** Mv32 copies the source word register into the destination and never fails. */
  lemma Mv32Copies(m: Machine, d: RegU32, s: RegU32)
    ensures Execute(m, Mv32(d, s)).Ok?
    ensures ReadU32(Execute(m, Mv32(d, s)).value.0.reg, d) == ReadU32(m.reg, s)
  {
    WriteU32Frame(m, d, ReadU32(m.reg, s));
  }

  // ---------------------------------------------------------------------
  // One cycle

  /** Every instruction other than a jump or a move into pc leaves pc as it found it. */
  lemma ExecuteKeepsPc(m: Machine, ins: Instruction)
    requires !ins.Jez? && !ins.Jnz? && !(ins.Mv32? && ins.dest32 == Pc) && !(ins.Mvi32? && ins.dest32 == Pc)
    requires Execute(m, ins).Ok?
    ensures Execute(m, ins).value.0.reg.pc == m.reg.pc
  {
    match ins
    case Mv(d, s) =>
      var v := ReadU8(m, s).value;
      WriteU8Pc(m, d, v);
    case Mvi(d, n) =>
      WriteU8Pc(m, d, n);
    case Mv32(d, s) =>
      WriteU32Frame(m, d, ReadU32(m.reg, s));
      assert ReadU32(WriteU32(m.reg, d, ReadU32(m.reg, s)), Pc) == m.reg.pc;
    case Mvi32(d, n) =>
      WriteU32Frame(m, d, n);
      assert ReadU32(WriteU32(m.reg, d, n), Pc) == m.reg.pc;
    case _ =>
  }

  lemma WriteU8Pc(m: Machine, r: RegU8, v: bv8)
    requires WriteU8(m, r, v).Ok?
    ensures WriteU8(m, r, v).value.reg.pc == m.reg.pc
  {
  }

  /** A cycle steps pc past the decoded instruction before executing it, so every instruction
      that writes no pc leaves pc at old pc + width (mod 2^32). */
  lemma CycleAdvancesPc(m: Machine)
    requires Decode(m.mem, m.reg.pc).Ok?
    requires var ins := Decode(m.mem, m.reg.pc).value;
      !ins.Jez? && !ins.Jnz? && !(ins.Mv32? && ins.dest32 == Pc) && !(ins.Mvi32? && ins.dest32 == Pc)
    requires Cycle(m).Ok?
    ensures Cycle(m).value.0.reg.pc == (m.reg.pc + Width(Decode(m.mem, m.reg.pc).value)) % 0x1_0000_0000
  {
    var ins := Decode(m.mem, m.reg.pc).value;
    ExecuteKeepsPc(Advance(m, ins), ins);
  }

  /** Jez jumps to its absolute target iff f == 0 and Jnz iff f != 0; otherwise pc is old pc + 5.
      Nothing else changes. */
  lemma CycleBranches(m: Machine)
    requires Decode(m.mem, m.reg.pc).Ok?
    requires Decode(m.mem, m.reg.pc).value.Jez? || Decode(m.mem, m.reg.pc).value.Jnz?
    ensures var ins := Decode(m.mem, m.reg.pc).value;
      var taken := if ins.Jez? then m.reg.f == 0 else m.reg.f != 0;
      Cycle(m) == Ok((m.(reg := m.reg.(pc := if taken then ins.target else (m.reg.pc + 5) % 0x1_0000_0000)), false))
  {
    var ins := Decode(m.mem, m.reg.pc).value;
    CycleOf(m, ins);
    ExecuteBranch(Advance(m, ins), ins);
  }

  /** A cycle executes the decoded instruction on the machine whose pc was stepped past it. */
  lemma CycleOf(m: Machine, ins: Instruction)
    requires Decode(m.mem, m.reg.pc) == Ok(ins)
    ensures Cycle(m) == Execute(Advance(m, ins), ins)
  {
  }

  /** Jez and Jnz set pc to the target when taken and change nothing otherwise. */
  lemma ExecuteBranch(m: Machine, ins: Instruction)
    requires ins.Jez? || ins.Jnz?
    ensures var taken := if ins.Jez? then m.reg.f == 0 else m.reg.f != 0;
      Execute(m, ins) == Ok((if taken then m.(reg := m.reg.(pc := ins.target)) else m, false))
  {
  }

  /** After Cmp of two equal bytes Jez is taken and Jnz is not; after Cmp of two different bytes
      Jnz is taken and Jez is not. */
  lemma CompareThenBranch(m: Machine, t: u32)
    ensures var eq := Execute(m.(reg := m.reg.(a := 7, b := 7)), Cmp).value.0;
      Execute(eq, Jez(t)).value.0.reg.pc == t && Execute(eq, Jnz(t)).value.0 == eq
    ensures var ne := Execute(m.(reg := m.reg.(a := 7, b := 9)), Cmp).value.0;
      Execute(ne, Jnz(t)).value.0.reg.pc == t && Execute(ne, Jez(t)).value.0 == ne
  {
  }

  /** A cycle keeps the memory size and only ever appends to the output, at most one byte. */
  lemma CyclePreserves(m: Machine)
    requires Cycle(m).Ok?
    ensures var m' := Cycle(m).value.0;
      |m'.mem| == |m.mem| && m.out <= m'.out && |m'.out| <= |m.out| + 1
  {
    var ins := Decode(m.mem, m.reg.pc).value;
    ExecuteOutput(Advance(m, ins), ins);
  }

  // ---------------------------------------------------------------------
  // Runs

  /** Once an iteration ends in a halt or a fault, more fuel does not change its outcome. */
  lemma {:induction false} IterateMoreFuel(step: Machine -> Result<(Machine, bool), Fault>, m: Machine, fuel: nat, more: nat)
    requires Iterate(step, m, fuel) != OutOfFuel
    ensures Iterate(step, m, fuel + more) == Iterate(step, m, fuel)
    decreases fuel
  {
    if step(m).Ok? && !step(m).value.1 {
      IterateMoreFuel(step, step(m).value.0, fuel - 1, more);
    }
  }

  /** If no step ever shortens the output, the output an iteration halts with extends the one it started with. */
  lemma {:induction false} IterateOutputExtends(step: Machine -> Result<(Machine, bool), Fault>, m: Machine, fuel: nat)
    requires forall x :: step(x).Ok? ==> x.out <= step(x).value.0.out
    requires Iterate(step, m, fuel).Halted?
    ensures m.out <= Iterate(step, m, fuel).output
    decreases fuel
  {
    if !step(m).value.1 {
      IterateOutputExtends(step, step(m).value.0, fuel - 1);
    }
  }

  /** Once a run ends in a halt or a fault, more fuel does not change its outcome. */
  lemma RunMoreFuel(m: Machine, fuel: nat, more: nat)
    requires Run(m, fuel) != OutOfFuel
    ensures Run(m, fuel + more) == Run(m, fuel)
  {
    IterateMoreFuel(Cycle, m, fuel, more);
  }

  /** The output a run halts with extends the output the run started with. */
  lemma RunOutputExtends(m: Machine, fuel: nat)
    requires Run(m, fuel).Halted?
    ensures m.out <= Run(m, fuel).output
  {
    forall x | Cycle(x).Ok? ensures x.out <= Cycle(x).value.0.out {
      CyclePreserves(x);
    }
    IterateOutputExtends(Cycle, m, fuel);
  }

  /** The program Mvi a, 0x41; Out; Halt. */
  const HelloImage: seq<bv8> := [0x48, 0x41, 0x02, 0x01]

  /** The machine running HelloImage with the given pc, accumulator and output. */
  function HelloState(pc: u32, a: bv8, out: seq<bv8>): Machine
  {
    Machine(ZeroRegisters.(pc := pc, a := a), HelloImage, out)
  }

  lemma HelloMvi()
    ensures Cycle(Initial(HelloImage)) == Ok((HelloState(2, 0x41, []), false))
  {
    DecodeMvi(HelloImage, 0, A, 0x41);
    CycleOf(Initial(HelloImage), Mvi(A, 0x41));
  }

  lemma HelloOut()
    ensures Cycle(HelloState(2, 0x41, [])) == Ok((HelloState(3, 0x41, [0x41]), false))
  {
    assert Decode(HelloImage, 2) == Ok(Out);
    CycleOf(HelloState(2, 0x41, []), Out);
    var m := Advance(HelloState(2, 0x41, []), Out);
    assert m == HelloState(3, 0x41, []);
    assert m.out + [m.reg.a] == [0x41];
  }

  lemma HelloHalt()
    ensures Cycle(HelloState(3, 0x41, [0x41])) == Ok((HelloState(4, 0x41, [0x41]), true))
  {
    assert Decode(HelloImage, 3) == Ok(Halt);
    CycleOf(HelloState(3, 0x41, [0x41]), Halt);
  }

  /** Mvi a, 0x41; Out; Halt emits the single byte 0x41, on three or more cycles of fuel. */
  lemma HaltsWithOutput(fuel: nat)
    requires fuel >= 3
    ensures Run(Initial(HelloImage), fuel) == Halted([0x41])
  {
    HelloMvi();
    HelloOut();
    HelloHalt();
    IterateHalts(Cycle, HelloState(3, 0x41, [0x41]), HelloState(4, 0x41, [0x41]), 1);
    IterateContinues(Cycle, HelloState(2, 0x41, []), HelloState(3, 0x41, [0x41]), 2);
    IterateContinues(Cycle, Initial(HelloImage), HelloState(2, 0x41, []), 3);
    RunMoreFuel(Initial(HelloImage), 3, fuel - 3);
  }
}
