# Tom's Data Onion: the layer decoders and the Tomtel I69 emulator, in Dafny

The program peels a puzzle made of layers. Each layer is Ascii85-style text.
Decoding it gives a byte payload, and a layer-specific transform of that payload
gives the text of the next layer. This project models:

- the Ascii85-style decoder (`Base85`);
- the transforms of layers 1, 2, 3, 4 and 6 (`Step1` … `Step4`, `I69`, `I69Machine`);
- the `run_step` composition of each layer (decode, then transform).

Each is proved against a specification. The parts are:

- `Bytes`: shared vocabulary.
  - Bytes are `bv8`. Wider integers are `int` subsets (`u16`, `u32`).
  - Big- and little-endian conversions.
  - Positional numerals (`Horner`, `ToDigits`).
  - An order-keeping `Filter`.
  - `Option` and `Result`. A Rust panic becomes an `Err` value.
- `Base85` (src/base85.rs), modelled literally, not as standard Ascii85:
  - the text runs from just after the first `<~` through the first `~>` after it, and that `~>` is included;
  - ASCII whitespace is dropped;
  - every group of up to five characters, short or not, becomes four bytes: the group's base-85 value mod 2^32, most significant byte first;
  - there is no `z` or `u` shorthand;
  - a character below `!` is an error, because the source's `byte - 33` underflows there.
- `Step1`: XOR with 0x55, then rotate right by one. Proved a bijection, with its inverse.
- `Step2`:
  - the even-parity filter, with its counting loop as a method;
  - the 8-to-7 repacking of the top seven bits;
  - the encoder it undoes, with the whole-stream round trip.
- `Step3`:
  - the 32-byte XOR key is recovered from the guessed plaintext `ic ]` at 28..32 and `=` at 32..60;
  - the payload is decrypted with that key repeated;
  - proved: encrypting any plaintext with that shape under any key gives a payload the layer decrypts back to that plaintext.
- `Step4`:
  - the RFC 1071 one's-complement sum with end-around carry;
  - the IPv4 header checksum of RFC 791 section 3.1;
  - the UDP checksum of RFC 768, over the program's own 18-byte pseudo-header. It uses the *required* addresses, and a stored checksum of 0xFFFF is refused;
  - the packet walk that keeps the data of accepted packets.
- `I69`: the Tomtel I69 processor on values.
  - Instructions and their widths.
  - The opcode decoder: fixed opcodes first, then four mask families in order.
  - Register access, including the memory pseudo-register `ptr_c` = `ptr + c`.
  - One instruction, one cycle, and a run bounded by fuel.
- `I69Properties`: the processor's properties.
  - Decoding: precedence and the encoding round trip.
  - Execution: frames, arithmetic wrap-around and branches.
  - Growth: `out` only grows and `mem` keeps its length.
  - A worked example program.
- `I69Machine`: the `TomtelI69` object as a class.
  - Its fields are registers, a memory `array` updated in place, and an output sequence.
  - Each method is proved to follow the `I69` definitions.
  - The `step6_extension` loop is a fuel-bounded `while`.

Choices the source leaves open:

- **Emulator arithmetic.** The three 32-bit expressions of the emulator wrap modulo 2^32:
  - `pc += width` (src/steps/step6.rs:74);
  - `ptr += imm8` (src/steps/step6.rs:80);
  - `ptr + c` (src/steps/step6.rs:243).
- **Base85 subtraction.** `byte - 33` at src/base85.rs:12 follows the debug-build check: it is an error.
- **Fuel.** The emulator loop ends on `Halt`, on a fault, or when the fuel runs out.
- **Opcode 0xFF.** 0xFF matches the `Mv` mask family (src/steps/step6.rs:59-62) and decodes as `Mv(ptr_c, ptr_c)` (`I69Properties.DecodeExamples`).

## Model

| member | source | states |
|---|---|---|
| I69.Encode | src/steps/step6.rs:42-70 | (definition) the byte encoding each arm of the decoder accepts: the opcode, then an immediate byte or a little-endian word; `DecodeEncode` proves `Decode` inverts it |
| I69.Decode | src/steps/step6.rs:38-72 | (definition) the fixed opcodes first, then the four mask families via `DecodeMove`; an opcode outside them is an invalid instruction and a read past memory a fault. Its unfolding for a non-fixed opcode is the helper `I69Properties.DecodeFallsThrough` |
| I69.DecodeMove | src/steps/step6.rs:56-71 | (definition) the four mask arms in order, `Mvi`, `Mv`, `Mvi32`, `Mv32`, with register fields from bits 3–5 and 0–2 |
| I69.Registers.PtrC | src/steps/step6.rs:242-244 | (definition) the address ptr + c, wrapping modulo 2^32 |
| I69.Initial | src/steps/step6.rs:226-241 | (definition) the image as memory, every register zero, empty output |
| I69.ReadU8 | src/steps/step6.rs:104-117 | (definition) a byte register's value, or mem[ptr_c], a fault past memory |
| I69.WriteU8 | src/steps/step6.rs:119-132 | (definition) sets a byte register, or the cell mem[ptr_c], a fault past memory |
| I69.ReadU32 | src/steps/step6.rs:134-143 | (definition) a word register's value |
| I69.WriteU32 | src/steps/step6.rs:145-154 | (definition) sets a word register |
| I69.Execute | src/steps/step6.rs:77-102 | (definition) each instruction's effect and whether it halts; its branch case is unfolded by the helper `I69Properties.ExecuteBranch` |
| I69.Advance | src/steps/step6.rs:74 | (definition) pc + width, wrapping modulo 2^32 |
| I69.Cycle | src/steps/step6.rs:30-37 | (definition) decode at pc, advance pc, execute; unfolded by the helper `I69Properties.CycleOf` |
| I69.Iterate | src/steps/step6.rs:11-14 | (definition) the `while ret.is_none()` loop with fuel: a fault ends it, a halt returns the output, otherwise the next state goes on with one unit less; unfolded by the helpers `I69.IterateContinues` and `I69.IterateHalts` |
| I69.Run | src/steps/step6.rs:8-15 | (definition) `Iterate` of `Cycle` from the given machine |
| I69.Field | src/steps/step6.rs:188 | the destination field is bits 3–5 and the source field bits 0–2 of the opcode, a number below 8 |
| I69.FieldBits | src/steps/step6.rs:188 | the source's mask-and-shift extraction equals the arithmetic digit (op / 8) % 8, resp. op % 8 |
| I69.MaskBits | src/steps/step6.rs:56-67 | each of the four family masks, read as conditions on bit 6, bit 7 and the low three bits |
| I69.RegU8FromOpcode | src/steps/step6.rs:187-199 | a byte register is named exactly when the field is nonzero, and then its code is the field (1–7 = a…f, ptr_c) |
| I69.RegU32FromOpcode | src/steps/step6.rs:211-222 | a word register is named exactly when the field is 1–6, and then its code is the field (la…ld, ptr, pc) |
| I69.Width | src/steps/step6.rs:264-280 | the width of every instruction is the length of its encoding |
| I69.WrappingAdd | src/steps/step6.rs:79 | `overflowing_add(..).0` is (a + b) mod 256 |
| I69.WrappingSub | src/steps/step6.rs:98 | `overflowing_sub(..).0` is (a − b) mod 256 |
| I69Properties.RegU8CodeInjective | src/steps/step6.rs:177-185 | distinct byte registers have distinct codes |
| I69Properties.RegU32CodeInjective | src/steps/step6.rs:202-209 | distinct word registers have distinct codes |
| I69Properties.WordRoundTrip | src/steps/step6.rs:47-49 | `from_le_bytes` reads back the little-endian bytes of any 32-bit word |
| I69Properties.MoveOpcode | src/steps/step6.rs:56-70 | an opcode built from a family and two register fields is not a fixed opcode, falls in exactly the intended mask arm and yields those fields |
| I69Properties.Operand8Of | src/steps/step6.rs:57 | a field holding a byte register's code decodes to that register |
| I69Properties.Operand32Of | src/steps/step6.rs:64 | a field holding a word register's code decodes to that register |
| I69Properties.DecodeMv | src/steps/step6.rs:59-62 | the opcode of Mv(d, s) decodes to Mv(d, s) |
| I69Properties.DecodeMoveMv | src/steps/step6.rs:59-62 | the second mask arm with valid fields yields Mv of those fields |
| I69Properties.DecodeMvi | src/steps/step6.rs:56-58 | Mvi(d, n) decodes with the next byte as the immediate |
| I69Properties.DecodeMv32 | src/steps/step6.rs:67-70 | the opcode of Mv32(d, s) decodes to Mv32(d, s) |
| I69Properties.DecodeMoveMv32 | src/steps/step6.rs:67-70 | the fourth mask arm with valid fields yields Mv32 of those fields |
| I69Properties.DecodeMvi32 | src/steps/step6.rs:63-66 | Mvi32(d, n) decodes with the next four bytes, little-endian, as the immediate |
| I69Properties.DecodeAt | src/steps/step6.rs:38-72 | memory holding an instruction's encoding at pc decodes to that instruction |
| I69Properties.DecodeEncode | src/steps/step6.rs:38-72 | decoding inverts encoding, whatever precedes or follows the instruction |
| I69Properties.DecodeInBounds | src/steps/step6.rs:40-65 | a successful decode read only bytes inside memory: pc + width ≤ length |
| I69Properties.DecodeLocal | src/steps/step6.rs:38-72 | decoding depends only on the width bytes at pc |
| I69Properties.DecodeInvalidInstruction | src/steps/step6.rs:42-71 | the invalid-instruction panic happens exactly for opcodes below 64 that are not 0x01, 0x02, 0x21 or 0x22 |
| I69Properties.DecodeMoveFamilies | src/steps/step6.rs:56-70 | mask precedence: Mvi iff bit 6 and low bits 0, Mv iff bit 6 and low bits nonzero, Mvi32/Mv32 likewise on bit 7 without bit 6; the register fields are bits 3–5 and 0–2 |
| I69Properties.DecodeInvalidRegister | src/steps/step6.rs:56-70 | the invalid-register panic happens exactly for a zero byte destination, or a word field of 0 or 7 |
| I69Properties.FixedOpcodePrecedence | src/steps/step6.rs:44 | 0xE1 would match the Mv mask but decodes as Aptr: fixed opcodes come first |
| I69Properties.DecodeExamples | src/steps/step6.rs:42-71 | 0xFF decodes as Mv(ptr_c, ptr_c); 0x00 and 0x20 are invalid instructions; 0x40 names register 0 |
| I69Properties.PtrCRead | src/steps/step6.rs:112-115 | reading ptr_c reads mem[(ptr + c) mod 2^32], and is an error past the end of memory |
| I69Properties.PtrCWrite | src/steps/step6.rs:127-130 | writing ptr_c changes exactly that one cell, and nothing else; an address past the end is an error |
| I69Properties.PtrCExample | src/steps/step6.rs:242-244 | with ptr = 100 and c = 5, ptr_c is cell 105 |
| I69Properties.ReadAfterWriteU8 | src/steps/step6.rs:104-132 | a byte register reads back the value written to it |
| I69Properties.WriteU8Frame | src/steps/step6.rs:119-132 | writing one byte register leaves every other one (except ptr_c after a write to c), all word registers and the output alone |
| I69Properties.WriteU32Frame | src/steps/step6.rs:134-154 | writing a word register changes it alone; byte registers other than ptr_c are unaffected |
| I69Properties.ExecuteHalts | src/steps/step6.rs:82 | execute reports a halt exactly for Halt, which changes nothing |
| I69Properties.ExecuteOutput | src/steps/step6.rs:97 | Out appends a and changes nothing else; every other instruction leaves out alone; memory length is kept |
| I69Properties.ExecuteArithmetic | src/steps/step6.rs:79-81 | Add/Sub set a to (a ± b) mod 256, Xor to a ^ b, Cmp sets f to 1 iff a ≠ b; each changes only a or f |
| I69Properties.ArithmeticWraps | src/steps/step6.rs:79 | 250 + 10 gives 4 and 5 − 10 gives 251 |
| I69Properties.MvCopies | src/steps/step6.rs:93 | Mv succeeds iff its read and write do, and the destination then holds the source's value |
| I69Properties.Mv32Copies | src/steps/step6.rs:94 | Mv32 always succeeds and copies the source word into the destination |
| I69Properties.ExecuteKeepsPc | src/steps/step6.rs:77-102 | only jumps and word writes to pc change pc |
| I69Properties.CycleAdvancesPc | src/steps/step6.rs:74 | a cycle that does not branch leaves pc at old pc + width |
| I69Properties.CycleBranches | src/steps/step6.rs:83-92 | Jez jumps to its absolute target iff f = 0, Jnz iff f ≠ 0, and otherwise pc is old pc + 5 |
| I69Properties.CompareThenBranch | src/steps/step6.rs:81-92 | after Cmp of equal values Jez jumps and Jnz does not; after unequal ones the reverse |
| I69Properties.CyclePreserves | src/steps/step6.rs:30-37 | a cycle keeps memory's length and extends out by at most one byte, never shrinking it |
| I69Properties.IterateMoreFuel | src/steps/step6.rs:11-13 | a run that ended with fuel to spare ends the same way with more fuel |
| I69Properties.IterateOutputExtends | src/steps/step6.rs:11-14 | a run whose step never shrinks out halts with an output extending the initial one |
| I69Properties.RunMoreFuel | src/steps/step6.rs:8-15 | more fuel does not change the outcome of a run that halted or faulted |
| I69Properties.RunOutputExtends | src/steps/step6.rs:8-15 | the output of a halting run extends the initial output |
| I69Properties.HelloMvi | src/steps/step6.rs:56-57 | the first cycle of the image 0x48 0x41 0x02 0x01 sets a to 0x41 and pc to 2 |
| I69Properties.HelloOut | src/steps/step6.rs:97 | its second cycle emits 0x41 |
| I69Properties.HelloHalt | src/steps/step6.rs:82 | its third cycle halts |
| I69Properties.HaltsWithOutput | src/steps/step6.rs:8-15 | with fuel 3 or more the image halts with output [0x41] |
| I69Machine.TomtelI69.constructor | src/steps/step6.rs:23-29 | the new emulator holds the image as memory, zero registers and empty output (`Registers::new`) |
| I69Machine.TomtelI69.ByteAt | src/steps/step6.rs:40 | indexing memory, an error when out of range |
| I69Machine.TomtelI69.WordAt | src/steps/step6.rs:47-49 | the little-endian word at i, an error when it runs past memory |
| I69Machine.TomtelI69.ReadU8Re | src/steps/step6.rs:104-117 | `read_u8_re` reads the byte register, or the cell ptr_c, as `I69.ReadU8` |
| I69Machine.TomtelI69.WriteU8Re | src/steps/step6.rs:119-132 | `write_u8_re` updates the register or memory cell in place exactly as `I69.WriteU8`, and changes nothing on failure |
| I69Machine.TomtelI69.ReadU32Re | src/steps/step6.rs:134-143 | `read_u32_re` as `I69.ReadU32` |
| I69Machine.TomtelI69.WriteU32Re | src/steps/step6.rs:145-154 | `write_u32_re` updates only the registers, as `I69.WriteU32` |
| I69Machine.TomtelI69.FetchDecode | src/steps/step6.rs:38-76 | `fetch_decode` returns `I69.Decode` at pc and, on success, advances pc by the width |
| I69Machine.TomtelI69.DecodeAt | src/steps/step6.rs:39-72 | decoding the array's contents at pc agrees with `I69.Decode` |
| I69Machine.TomtelI69.DecodeMoveAt | src/steps/step6.rs:56-71 | the guarded mask arms agree with `I69.DecodeMove` |
| I69Machine.TomtelI69.Execute | src/steps/step6.rs:77-102 | `execute` changes the object exactly as `I69.Execute` and reports the same halt or fault; on a fault it changes nothing |
| I69Machine.TomtelI69.ExecuteRegisters | src/steps/step6.rs:79-92 | the register-only instructions, as `I69.Execute` |
| I69Machine.TomtelI69.ExecuteAccumulator | src/steps/step6.rs:79-99 | Add, Sub, Xor and Cmp, as `I69.Execute` |
| I69Machine.TomtelI69.RunCycle | src/steps/step6.rs:30-37 | `run_cycle` performs one `I69.Cycle`, returning the output exactly when it halted |
| I69Machine.Tick | src/steps/step6.rs:11-13 | one turn of the loop is one step of `I69.Iterate` |
| I69Machine.RunFor | src/steps/step6.rs:11-14 | the `while ret.is_none()` loop computes `I69.Iterate` from the starting state |
| I69Machine.Step6Extension | src/steps/step6.rs:8-15 | `step6_extension` is `I69.Run` from the initial machine of the payload |
| I69Machine.RunStep | src/steps/step6.rs:3-6 | layer 6 decodes the Ascii85 text, then runs the emulator on it; a decoding error is passed on |
| Base85.Trim | src/base85.rs:25-49 | (definition) from just after the first `<~` through the first `~>` found from there, `~>` included; otherwise no start or no end |
| Base85.StripWhitespace | src/base85.rs:4 | (definition) `retain` of the bytes that are not ASCII whitespace |
| Base85.ChunkBytes | src/base85.rs:8-20 | (definition) a group's four big-endian bytes of its value mod 2^32, or the first character below `!` |
| Base85.DecodeGroups | src/base85.rs:6-21 | (definition) `chunks(5).flat_map(...)`: the bytes of each group of up to five, in order; one chunk is unfolded by the helper `Base85.DecodeGroupsHead` |
| Base85.Decoded | src/base85.rs:1-23 | (definition) trim, strip whitespace, decode the groups |
| Base85.HornerBelow | src/base85.rs:9-13 | digits of at most 222 give a base-85 value h with h + 3 ≤ 3·85^n |
| Base85.GroupValueFits | src/base85.rs:9-13 | the `chunk_sum` of a group of up to five characters is below 3·85^5 < 2^64, so the `u64` sum never overflows |
| Base85.FindPair | src/base85.rs:29-34 | the first window at or after from that reads the two bytes; none before it; none at all when absent |
| Base85.TrimFramed | src/base85.rs:25-49 | prefix `<~` body `~>` rest trims to body `~>` when prefix holds no `<~` and body no `~>` |
| Base85.TrimNoStart | src/base85.rs:29-37 | "no start" happens exactly when `<~` occurs nowhere |
| Base85.TrimNoEnd | src/base85.rs:39-47 | "no end" happens exactly when `~>` occurs nowhere from the first position past `<~` |
| Base85.TrimEndsAtClose | src/base85.rs:39-48 | a trimmed text ends in `~>`, and no earlier window of it reads `~>` |
| Base85.TrimDelimiter | src/base85.rs:25-49 | the two window loops of `trim_delimiter` compute `Trim` |
| Base85.FirstBelow | src/base85.rs:12 | no character below `!` exactly when the group is all printable; otherwise one from the group |
| Base85.DecodeGroupsLength | src/base85.rs:6-21 | n characters decode to 4·⌈n/5⌉ bytes |
| Base85.DecodeGroupsFails | src/base85.rs:12 | decoding fails exactly when a character is below `!`, and reports `FirstBelow` of the failing group, which `FirstBelowAt` shows is the first one |
| Base85.FirstBelowAt | src/base85.rs:11-12 | when every character before position i is printable and the one at i is below `!`, `FirstBelow` reports the one at i: the first underflow of the loop |
| Base85.GroupRoundTrip | src/base85.rs:14-18 | the four bytes of a group, read big-endian, are its value mod 2^32 |
| Base85.EncodeGroupDigits | src/base85.rs:9-13 | that encoding is printable and its digits are the base-85 digits of the word |
| Base85.EncodeThenDecode | src/base85.rs:6-21 | a five-character group made from a word decodes to that word's four big-endian bytes |
| Base85.BytesThroughGroup | src/base85.rs:6-21 | any four bytes survive encoding to a group and decoding back |
| Base85.ClosingGroupDecoded | src/base85.rs:6-21 | the included `~>` alone decodes to 00 00 1E FE |
| Base85.ClosingTrims | src/base85.rs:25-49 | `<~~>` trims to `~>`; in `<~>` the `~` cannot serve both delimiters |
| Base85.ClosingDelimiterDecoded | src/base85.rs:1-23 | `<~~>` decodes to 00 00 1E FE: the closing delimiter is decoded as data |
| Base85.DecodeChunk | src/base85.rs:8-20 | the `chunk_sum` loop and the byte loop give the group's four bytes, or the underflow error |
| Base85.GroupBytes | src/base85.rs:14-19 | the `% 256`, `/= 256` loop writes the low four big-endian bytes of the sum |
| Base85.Base85 | src/base85.rs:1-23 | `base85`: trim, drop whitespace, decode every group, as `Decoded` |
| Base85.DecodeAll | src/base85.rs:6-21 | the chunk loop concatenates the groups' bytes, as `DecodeGroups` |
| Step1.Step1Extension | src/steps/step1.rs:8-16 | output as long as the input; byte i is rotate_right(in[i] ^ 0x55, 1) and depends on in[i] alone |
| Step1.Step1Inverse | src/steps/step1.rs:11-14 | the inverse map, rotate_left(b, 1) ^ 0x55, bytewise |
| Step1.RotateRightOne | src/steps/step1.rs:13 | rotating right by one moves bit 0 to bit 7 and shifts bits 1–7 down |
| Step1.FlipBits | src/steps/step1.rs:12-13 | bit k of the result is bit k + 1 (mod 8) of in ^ 0x55 |
| Step1.FlipUnflip | src/steps/step1.rs:12-13 | the byte map is a bijection: rotate left and XOR 0x55 undoes it, both ways round |
| Step1.Step1RoundTrip | src/steps/step1.rs:8-16 | the layer and its inverse undo each other on every stream |
| Step1.Step1Concat | src/steps/step1.rs:9-15 | the layer works byte by byte: it distributes over concatenation |
| Step1.RunStep | src/steps/step1.rs:3-6 | layer 1 is the byte map on the decoded payload, failing exactly when decoding fails |
| Step2.EvenParity | src/steps/step2.rs:35-45 | (definition) the byte has an even number of one bits |
| Step2.PackGroup | src/steps/step2.rs:22-28 | (definition) the seven low big-endian bytes of the sum of `b >> 1` shifted to 7·(7 − j) |
| Step2.Repack | src/steps/step2.rs:17-31 | (definition) `chunks(8).flat_map(...)` of `PackGroup` |
| Step2.Step2Extension | src/steps/step2.rs:8-32 | (definition) repack the parity-correct bytes |
| Step2.ParityBitMatchesIsEven | src/steps/step2.rs:35-45 | the bits 1–7 have the parity of bit 0 exactly when the whole byte has even popcount |
| Step2.ParityIsCorrect | src/steps/step2.rs:35-45 | the seven-shift counting loop returns true exactly for bytes of even parity |
| Step2.ParityExamples | src/steps/step2.rs:47-52 | 0b1011_0010, 0x00 and 0xFF pass; 0x01 fails |
| Step2.KeepParityCorrect | src/steps/step2.rs:9-13 | the filter keeps exactly the parity-correct bytes, in order |
| Bytes.Filter | src/steps/step2.rs:9-13 | every kept element is from the input and passes; every passing input element is kept |
| Bytes.FilterConcat | src/steps/step2.rs:9-13 | filtering distributes over concatenation |
| Step2.Sevens | src/steps/step2.rs:22-23 | a chunk gives exactly eight digits, each below 128 |
| Step2.PackValueBound | src/steps/step2.rs:22-24 | the accumulator stays below 2^56 |
| Step2.PackGroupExact | src/steps/step2.rs:25-28 | the skipped top byte of `to_be_bytes` is 0 and the seven kept bytes read back as the accumulator |
| Step2.PackGroupDigits | src/steps/step2.rs:18-28 | for each of the eight places j, the output holds `chunk[j] >> 1` at bit offset 7·(7 − j) when the chunk has a byte j, and 0 where a short final chunk has none |
| Step2.RepackLength | src/steps/step2.rs:17-31 | m kept bytes give 7·⌈m/8⌉ output bytes |
| Step2.PackChunk | src/steps/step2.rs:19-30 | the `shifted` loop and the `skip(1)` pushes produce `PackGroup` |
| Step2.RepackLoop | src/steps/step2.rs:17-31 | the loop over chunks of eight calling `PackChunk` computes `Repack` |
| Step2.Step2Loop | src/steps/step2.rs:8-32 | the filter loop followed by the `chunks(8)` loop computes `Step2Extension` |
| Step2.RunStep | src/steps/step2.rs:3-6 | layer 2 is `step2_extension` on the decoded payload, failing exactly when decoding fails |
| Step2.WithParityBits | src/steps/step2.rs:35-45 | a seven-bit value with its parity bit appended passes the check and shifts back to the value |
| Step2.SpreadKept | src/steps/step2.rs:9-13 | the eight bytes of a spread group all pass the filter |
| Step2.SpreadThenPack | src/steps/step2.rs:17-31 | packing a spread group gives back its seven bytes |
| Step2.ParityEncode | src/steps/step2.rs:17-31 | the encoder turns every seven bytes into eight |
| Step2.EncodedKept | src/steps/step2.rs:9-13 | the filter keeps every byte of an encoded stream |
| Step2.RepackEncoded | src/steps/step2.rs:17-31 | repacking an encoded stream gives back the data |
| Step2.Step2Decodes | src/steps/step2.rs:8-32 | `step2_extension` inverts the encoder on every stream of whole seven-byte groups |
| Step3.Step3Extension | src/steps/step3.rs:8-33 | (definition) a payload under 60 bytes is an error; otherwise the payload XOR-ed with the recovered key repeated |
| Step3.Key | src/steps/step3.rs:14-26 | the recovered key has exactly 32 bytes |
| Step3.KeyMatchesGuess | src/steps/step3.rs:15-26 | after the rotation, key[p mod 32] = payload[p] ^ guess[p] for p in 28..60 |
| Step3.CyclicXor | src/steps/step3.rs:28-32 | same length as the data; byte i is data[i] ^ key[i mod 32] |
| Step3.CyclicXorTwice | src/steps/step3.rs:28-32 | XOR-ing again with the same key returns the data |
| Step3.KnownPlaintext | src/steps/step3.rs:15-32 | output bytes 28..32 are `ic ]` and bytes 32..60 are `=` |
| Step3.RecoversPlaintext | src/steps/step3.rs:8-33 | any plaintext with that shape, encrypted under any 32-byte key, is recovered exactly |
| Step3.KeyEntryOfCipher | src/steps/step3.rs:15-26 | on such a ciphertext each recovered key byte is the true key byte |
| Step3.RunStep | src/steps/step3.rs:3-6 | layer 3 on the decoded payload; a decoding error or a payload under 60 bytes is an error |
| Step3.RecoverKey | src/steps/step3.rs:14-26 | the two push loops and `rotate_left(4)` compute `Key` |
| Step3.RotatedKey | src/steps/step3.rs:26 | rotating the 32 pushed bytes left by 4 puts entry p − 28 at p mod 32 |
| Step3.Decrypt | src/steps/step3.rs:8-33 | `step3_extension`, failing on a payload under 60 bytes |
| Step4.OnesSum | src/steps/step4.rs:100-118 | (definition) `OnesAdd` of every big-endian word, then of a final odd byte as the high half |
| Step4.IpHeaderValid | src/steps/step4.rs:52-62 | (definition) `!` of the sum of bytes 0..10 and 12..20 equals the stored checksum at 10..12 |
| Step4.PseudoHeader | src/steps/step4.rs:84-92 | (definition) the 18 bytes the source sums before the UDP data |
| Step4.Accepted | src/steps/step4.rs:26-31 | (definition) the packet fits, both checksums hold, and source, destination and port are the required ones |
| Step4.Walk | src/steps/step4.rs:15-35 | (definition) while more than 28 bytes remain, read a packet and keep its data when accepted; one turn is unfolded by the helper `Step4.WalkStep` |
| Step4.Step4Extension | src/steps/step4.rs:9-38 | (definition) `Walk` from 0 with `Accepted` |
| Step4.OnesAdd | src/steps/step4.rs:104-108 | the end-around-carry add is the sum modulo 0xFFFF |
| Step4.AddWord | src/steps/step4.rs:104-108 | `overflowing_add` followed by `+= 1` on overflow computes `OnesAdd`, and the `+1` cannot overflow |
| Step4.OnesComplementSum | src/steps/step4.rs:100-118 | the word loop and the odd-byte tail compute `OnesSum` |
| Step4.OnesSumCongruent | src/steps/step4.rs:100-118 | the running sum is the start plus the big-endian words, an odd byte as its high half, modulo 0xFFFF |
| Step4.OnesSumConcat | src/steps/step4.rs:100-118 | two calls on an even-length part and the rest equal one call on the whole |
| Step4.WordsSumConcat | src/steps/step4.rs:100-118 | the word sum of an even-length part and the rest adds up |
| Step4.Not16 | src/steps/step4.rs:61 | `!x` on 16 bits is 0xFFFF − x |
| Step4.Not16IsComplement | src/steps/step4.rs:61 | on the big-endian bytes hi, lo of a u16, `Not16` is (!hi)·256 + !lo: every bit flipped |
| Step4.TotalLength | src/steps/step4.rs:40-44 | total length is big-endian bytes 2..4 |
| Step4.SourceDest | src/steps/step4.rs:46-50 | source is bytes 12..16, destination 16..20 |
| Step4.Ports | src/steps/step4.rs:64-69 | ports are big-endian bytes 20..22 and 22..24 |
| Step4.IpHeaderSumsToZero | src/steps/step4.rs:52-62 | a header the check accepts sums, checksum field included, to 0 modulo 0xFFFF (RFC 791 section 3.1) |
| Step4.CheckIpHeader | src/steps/step4.rs:52-62 | the two sums and the comparison compute `IpHeaderValid` |
| Step4.PseudoHeaderBytes | src/steps/step4.rs:84-92 | the pseudo-header is the given addresses, 0, the protocol, the UDP length, both ports, then the length again |
| Step4.BuildPseudoHeader | src/steps/step4.rs:84-92 | the pushes build `PseudoHeader` |
| Step4.UdpValid | src/steps/step4.rs:78-81 | a stored UDP checksum of 0xFFFF is always refused |
| Step4.UdpOneSum | src/steps/step4.rs:93-95 | summing the pseudo-header, then the data, is one sum over both |
| Step4.UdpSumsToZero | src/steps/step4.rs:71-98 | an accepted datagram's words plus the stored checksum sum to 0 modulo 0xFFFF |
| Step4.CheckUdp | src/steps/step4.rs:71-98 | `checksum_correct_udp_header` computes `UdpValid` |
| Step4.RunStep | src/steps/step4.rs:4-7 | layer 4 on the decoded payload; a decoding error is passed on |
| Step4.WalkBound | src/steps/step4.rs:15-35 | the output is no longer than the stream past the cursor |
| Step4.SinglePacket | src/steps/step4.rs:15-35 | a stream of one packet keeps its data exactly when the packet passes |
| Step4.RejectedPacket | src/steps/step4.rs:26-34 | a refused packet adds nothing, and the cursor moves by its total length |
| Step4.TruncatedPacket | src/steps/step4.rs:21 | a packet claiming more bytes than remain is an error |
| Step4.Decide | src/steps/step4.rs:26-31 | the loop's condition is exactly the acceptance test: both checksums, source 10.1.1.10, destination 10.1.1.200, port 42069 |
| Step4.Step4Loop | src/steps/step4.rs:9-38 | the cursor loop computes `Step4Extension`: the data of the accepted packets, in order |
| Step4.Scan | src/steps/step4.rs:15-35 | the `while` loop extends `ret` as `Walk` does, stopping once at most 28 bytes are left |
| Step4.ScanPacket | src/steps/step4.rs:16-34 | one loop turn: the slicing errors, else the data added and the total length advanced |
| Step4.Verdict | src/steps/step4.rs:16-31 | the field reads and the two checks decide acceptance |

## Left out

- src/main.rs is not part of this model. It reads `onion.txt`, writes each layer to a file, and chains the layers. That is file I/O only.
- Layer 5 (src/steps/step5.rs) is not part of this model. It is AES key unwrap and AES-256-CTR decryption through OpenSSL, foreign calls with no logic of their own.
- `Vec::with_capacity` and `out.clone()` are allocation details, with no effect on results.
- A Rust panic is not modelled as a crash. Every panic the core can reach is an `Err` result instead:
  - an index out of range;
  - a bad opcode or register;
  - a missing delimiter;
  - `byte - 33` below zero;
  - a layer-3 payload under 60 bytes;
  - a layer-4 packet running past the stream or shorter than 28 bytes.
- I69.Run: the source loop runs until `Halt` or a panic. The model bounds it with fuel and has an extra `OutOfFuel` outcome. It does not capture non-termination; `RunMoreFuel` shows that more fuel never changes a finished run.
- I69.Advance: `pc += width`, `ptr += imm8` and `ptr + c` wrap modulo 2^32. A debug build would panic instead; those overflow panics are not modelled.
- Base85.Digits85: the source adds up in a `u64`. The model adds in unbounded integers, which give the same result: a digit is at most 222 (`0xFF - 33`), and `GroupValueFits` proves that the value of up to five such digits stays below 3·85^5 < 2^64. The digit of a character below `!` is never used, because such a character is an error first.
- Step2.ParityIsCorrect: the loop holds the shifted byte as an integer, `byte >>= 1` being `byte / 2`. `HalfByte` proves the two are the same.
- Step4.Not16: states `!x` as 0xFFFF − x. `Not16IsComplement` proves that this flips every bit of each byte; the equality with `!` on a 16-bit vector is not stated.
- Step4.ScanPacket: the source reads the header fields and checks the IPv4 checksum before it slices the packet. These reads cannot fail once more than 28 bytes remain, and they change nothing, so the model makes them after the two slicing failures. The result is the same.
- Step4.Scan: the acceptance test is passed as a ghost function equal to `Accepted`, and the walk from each position as a ghost function equal to `Walk`. This is a proof device only.
