# sim8086 MOV disassembler, modelled in Dafny

sim8086 disassembles a buffer of 8086 machine code into assembler text. It prints
`bits 16` and then one line per instruction, moving a cursor through the buffer by
the number of bytes each instruction takes. Two instruction forms are supported:

- the register/memory MOV (opcodes 88..8B: `100010dw`, then `mod reg r/m`, then up
  to two displacement bytes);
- the immediate-to-register MOV (opcodes B0..BF: `1011wreg`, then one or two
  immediate bytes).

The model follows the structure of `sim8086.cpp`:

- `decimal.dfy` (module `Decimal`) renders numbers the way `sprintf("%d")` does,
  with an inverse parser and length bounds.
- `registers.dfy` (module `Registers`) holds the three static tables: the register
  table (`GetRegister`), the memory-operand base-register table
  (`GetEACalculationRegisters`) and the register names (`GetRegisterString`).
- `disassembler.dfy` (module `Disassembler`) holds:
  - the opcode classifier and the field extraction;
  - the two instruction decoders, as pure functions from the bytes at the
    cursor to a result;
  - the driver `Sim8086`, an imperative loop over a cursor. It is proved
    against `DecodeAll`, a recursive specification of the listing.
- `encoding.dfy` (module `Encoding`) is the decoder's inverse. It describes
  instructions as values and gives their machine encoding. It proves three
  things:
  - decoding an encoded instruction gives back its text and length;
  - every buffer the decoder accepts starts with such an encoding;
  - a whole encoded program disassembles to one line per instruction.
- `scenarios.dfy` (module `Scenarios`) pins down concrete byte sequences and the
  exact lines printed for them.

Bytes are integers in 0..255. The source's shifts and masks are written as
division and remainder by powers of two. The source prints with `printf`; the
model returns the printed lines as a sequence of strings.

The source never checks how many bytes are left; it reads past the end of the
buffer. The model makes that an explicit `Truncated(needed, available)` error.

The source aborts through `assert(false)` on an opcode it does not know. The
model returns `UnsupportedOpcode(byte)`. On either error the loop stops, keeping
the lines it has already emitted.

Output format, kept as the code writes it:

- No space is written before `+`. `8B 00` prints `mov ax, [bx+ si]` and `8B 4E 02`
  prints `mov cx, [bp+ 2]`. NASM/Intel syntax writes `[bx + si]`; the code
  writes `"[%s"` and then `"+ %s"`, so the model follows the code.
- A zero displacement is not printed (`8B 46 00` prints `mov ax, [bp]`).
- A direct address (mod 00, r/m 110) is printed in place of the first base
  register. Because it is also the displacement, a non-zero address X prints
  twice, as `[X+ X]`. The address 0 prints as `[0]`.
- Displacements are read unsigned: an 8-bit displacement is not sign-extended.
- Immediates are printed in decimal (`B9 0C 00` prints `mov cx, 12`).

## Model

| member | source | states |
|---|---|---|
| `Disassembler.GetOpCode` | sim8086.cpp:106-118 | Opcodes B0..BF are immediate-to-register moves. Opcodes 88..8B are register/memory moves. Every other byte is neither. Both directions of each are stated. |
| `Disassembler.MovGetFields` | sim8086.cpp:120-132 | All fields are in range. d and w are the two low opcode bits (`b0 % 4 == 2d + w`). mod, reg and r/m recompose the second byte exactly (`64·mod + 8·reg + rm`). |
| `Disassembler.MovImmGetFields` | sim8086.cpp:134-143 | All fields are in range. The low opcode nibble is `8·w + reg`. |
| `Disassembler.MovDisplacement` | sim8086.cpp:182-192 | Mode 01 reads one displacement byte. Mode 10 or a direct address reads a 16-bit little-endian value: its low byte is `buf[2]` and its high byte is `buf[3]`. Every other form has displacement 0. |
| `Disassembler.EffectiveAddressText` | sim8086.cpp:194-214 | A memory operand is bracketed: it is at least 3 characters long, starts with `[` and ends with `]`. |
| `Disassembler.EffectiveAddressPlusSigns` | sim8086.cpp:201-213 | The operand holds exactly one `+` for a second base register (r/m < 4) and one for a non-zero displacement, and no other. |
| `Disassembler.EffectiveAddressEndsWithDisplacement` | sim8086.cpp:208-214 | A non-zero displacement closes the operand as `+ `, then its decimal text, then `]`. |
| `Disassembler.DirectAddressText` | sim8086.cpp:196-213 | A direct address prints as `[0]` when it is zero and as `[X+ X]` otherwise. |
| `Disassembler.MovInstructionDecoding` | sim8086.cpp:159-229 | The bytes consumed follow from the second byte: 2 for C0..FF or for mode 00 without a direct address, 3 for 40..7F, and 4 for 80..BF or r/m 110 in mode 00. Decoding succeeds exactly when that many bytes are available; otherwise it is `Truncated(n, available)`. |
| `Disassembler.MovImmData` | sim8086.cpp:238-243 | With w = 0 the immediate is the byte after the opcode. With w = 1 it is the 16-bit little-endian value of the next two bytes. |
| `Disassembler.MovImmInstructionDecoding` | sim8086.cpp:231-254 | Consumes 3 bytes when bit 3 of the opcode is set and 2 otherwise. It succeeds exactly when they are available and is `Truncated` otherwise. |
| `Disassembler.DecodeInstruction` | sim8086.cpp:82-95 | A decoded instruction consumes at least 2 bytes and at most what remains. The result is `UnsupportedOpcode` exactly when the head byte is in neither MOV range. |
| `Disassembler.DecodeInstructionAdvances` | sim8086.cpp:99 | The cursor always advances by 2 to the number of remaining bytes, so the loop terminates. |
| `Disassembler.DecodeFromConsumption` | sim8086.cpp:78-99 | From any cursor there is one line per count, and every count is at least 2. The counts never pass the end of the buffer. They reach it exactly when no error stops the run. |
| `Disassembler.DecodeAllConsumption` | sim8086.cpp:78-99 | For a whole buffer, the byte counts sum to the buffer's length exactly when the run ends without error. |
| `Disassembler.DecodeFromLine` | sim8086.cpp:78-99 | Line i is the instruction decoded at the cursor plus the counts of the lines before it. |
| `Disassembler.DecodeAllLine` | sim8086.cpp:78-99 | Line i of a whole run is the instruction decoded at the sum of the earlier counts. |
| `Disassembler.DecodeLoop` | sim8086.cpp:78-99 | The cursor loop, for any decoder that advances, emits exactly the lines of the recursive listing and stops with its error. |
| `Disassembler.Sim8086` | sim8086.cpp:72-101 | The output is `bits 16` followed by the lines of `DecodeAll(buf)`, and the error is the one that stopped the run. |
| `Disassembler.DirectionBitFields` | sim8086.cpp:126 | Adding 2 to opcode 88 or 89 sets d and changes no other field. |
| `Disassembler.DirectionBitText` | sim8086.cpp:217-226 | With the same operands, d = 0 prints the r/m text first and d = 1 prints the reg text first. |
| `Disassembler.DirectionBitCount` | sim8086.cpp:165-192 | Setting the direction bit leaves success, the errors and the byte count unchanged. |
| `Disassembler.DirectionBitOperands` | sim8086.cpp:217-226 | The two decodings are `mov dst, src` and `mov src, dst` for one pair of operand texts. |
| `Disassembler.DirectionBitSwap` | sim8086.cpp:217-226 | Setting the direction bit swaps destination and source and changes nothing else: the same success or error, and the same byte count. |
| `Disassembler.DecodedLineFits` | common.h:28-32 | Every decoded line is shorter than 32 characters, so it fits the `String32` buffer together with its terminating NUL. |
| `Registers.GetRegister` | sim8086.cpp:153-157 | Never returns the "none" register. w = 0 gives exactly the 8-bit registers and w = 1 exactly the 16-bit ones. |
| `Registers.GetRegisterInjective` | sim8086.cpp:153-157 | The register table is one-to-one: `(reg, w)` is recovered from the register. |
| `Registers.GetRegisterSurjective` | sim8086.cpp:155 | Every named register is reached by some `(reg, w)`. |
| `Registers.GetEACalculationRegisters` | sim8086.cpp:145-150 | The first base is one of bx, bp, si, di. The second base is "none" exactly when r/m ≥ 4. Two-base forms pair bx or bp with si or di. |
| `Registers.GetRegisterString` | sim8086.cpp:256-319 | The name is empty exactly for the "none" register. Every other register has a two-letter lower-case name. |
| `Registers.GetRegisterStringInjective` | sim8086.cpp:259-311 | No two registers share a name. |
| `Decimal.NatToString` | sim8086.cpp:244 | `%d` gives a non-empty string of digits with no leading zero. |
| `Decimal.ParseNatToString` | sim8086.cpp:211 | Reading the printed digits back gives the number. |
| `Decimal.NatToStringInjective` | sim8086.cpp:198 | Distinct numbers print differently. |
| `Decimal.NatToStringLength` | sim8086.cpp:244 | A number below 10^k prints in at most k characters. |
| `Decimal.SixteenBitLength` | sim8086.cpp:188-192 | A 16-bit displacement or immediate prints in at most 5 characters. |
| `Encoding.LittleEndian` | sim8086.cpp:190 | The two bytes of a 16-bit value are low byte then high byte. Recombined as `low + 256·high` they give the value back. |
| `Encoding.Encode` | sim8086.cpp:159-254 | A well-formed instruction encodes in 2 to 4 bytes. |
| `Encoding.MovRoundTrip` | sim8086.cpp:159-229 | The encoding of a register/memory MOV yields its fields again. Whatever follows it, it decodes to its text and consumes exactly its bytes. |
| `Encoding.MovImmRoundTrip` | sim8086.cpp:231-254 | The same for an immediate-to-register MOV. |
| `Encoding.DecodeEncode` | sim8086.cpp:82-95 | For any well-formed instruction followed by anything, decoding gives `Ok(text, length of its encoding)`. |
| `Encoding.ParseEncode` | sim8086.cpp:82-95 | Parsing the instruction back out of its encoding gives the same instruction, so the encoding is one-to-one. |
| `Encoding.MovParse` | sim8086.cpp:159-192 | An accepted register/memory MOV begins with the encoding of its parsed fields and displacement. |
| `Encoding.MovImmParse` | sim8086.cpp:231-243 | An accepted immediate MOV begins with the encoding of its parsed fields and immediate. |
| `Encoding.EncodeParse` | sim8086.cpp:82-95 | Every buffer the decoder accepts begins with the encoding of a well-formed instruction. The decoder's text and count are that instruction's. |
| `Encoding.DecodeInstructionDecodesEncodings` | sim8086.cpp:82-95 | The decoder inverts the encoder at every well-formed instruction. |
| `Encoding.DecodeFromProgram` | sim8086.cpp:78-99 | For any decoder that inverts the encoder, a cursor at the start of an encoded program lists every instruction's text and length, with no error. |
| `Encoding.DisassembleProgram` | sim8086.cpp:72-101 | Disassembling an encoded program gives one line per instruction, with each instruction's text and length and no error. |
| `Scenarios.RegisterToRegister` | sim8086.cpp:166-172 | `89 D8` decodes to `mov ax, bx` and consumes 2 bytes. |
| `Scenarios.TwoBaseRegisters` | sim8086.cpp:201-207 | `8B 00` decodes to `mov ax, [bx+ si]`. |
| `Scenarios.ByteDisplacement` | sim8086.cpp:183-187 | `8B 4E 02` decodes to `mov cx, [bp+ 2]` and consumes 3 bytes. |
| `Scenarios.ZeroDisplacement` | sim8086.cpp:208-213 | `8B 46 00` decodes to `mov ax, [bp]`. |
| `Scenarios.DirectAddressZero` | sim8086.cpp:196-199 | `8B 16 00 00` decodes to `mov dx, [0]` and consumes 4 bytes. |
| `Scenarios.DirectAddressTwice` | sim8086.cpp:196-213 | `8B 16 34 12` decodes to `mov dx, [4660+ 4660]`. |
| `Scenarios.WordDisplacement` | sim8086.cpp:188-192 | `89 87 E8 03` decodes to `mov [bx+ 1000], ax`. |
| `Scenarios.WordImmediate` | sim8086.cpp:239-244 | `B9 0C 00` decodes to `mov cx, 12` and consumes 3 bytes. |
| `Scenarios.ByteImmediate` | sim8086.cpp:238 | `B1 0C` decodes to `mov cl, 12` and consumes 2 bytes. |
| `Scenarios.Unsupported` | sim8086.cpp:112-117 | `90` is an unsupported opcode. |
| `Scenarios.CutOff` | sim8086.cpp:185-190 | `8B`, `8B 4E` and `B9 0C` are truncation errors that name the count needed. |
| `Scenarios.TwoInstructionListing` | sim8086.cpp:72-101 | Disassembling the buffer `89 D8 B9 0C 00` gives the lines `mov ax, bx` (2 bytes) and `mov cx, 12` (3 bytes) and no error, so the printed output is `bits 16` followed by those two lines. |

## Left out

- main.cpp is not part of this model: reading the input file, the hex dump and argument handling are I/O.
- Writing to standard output: `printf` becomes the returned sequence of lines.
- `String32` buffers and `sprintf`/`strcat`/`strlen`: strings are character sequences. The 32-byte bound is proved separately (`DecodedLineFits`) instead of being enforced by the buffer.
- The source's reads past the end of the buffer (undefined behaviour): the model stops with `Truncated`.
- The source's `assert(false)` on unsupported opcodes and register values, and what a build without assertions would then do with an uninitialised result: the model stops with `UnsupportedOpcode`.
- The unused `EACalculation` record (sim8086.cpp:55-60) has no counterpart.
