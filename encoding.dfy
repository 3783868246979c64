/** The instructions the disassembler understands, as values, with their
    machine encoding. Decoding an encoded instruction gives back its text and
    its length, and every buffer the decoder accepts begins with the encoding
    of exactly such an instruction: the encoder is the decoder's inverse. */
module Encoding {
  import opened Disassembler

  /** A register/memory MOV with its displacement (or direct address), or an
      immediate-to-register MOV with its immediate. */
  datatype Instruction =
    | RegMemMove(fields: MovFields, disp: nat)
    | ImmToRegMove(immFields: MovImmFields, data: nat)

  /** The number of values the displacement of a register/memory MOV can take:
      one byte in mode 01, two bytes in mode 10 or for a direct address, and
      only 0 where the form has no displacement. */
  function DisplacementRange(f: MovFields): (range: nat) {
    if f.mod == 1 then 256 else if f.mod == 2 || IsDirectAddress(f) then 65536 else 1
  }

  /** Fields in range, and a displacement or immediate that fits its bytes. */
  predicate WellFormed(i: Instruction) {
    match i
    case RegMemMove(f, disp) => f.Valid() && disp < DisplacementRange(f)
    case ImmToRegMove(f, data) => f.Valid() && data < (if f.w == 1 then 65536 else 256)
  }

  /** The low byte then the high byte of a 16-bit value. */
  function LittleEndian(v: nat): (bytes: seq<Byte>)
    requires v < 65536
    ensures |bytes| == 2 && bytes[0] as int + bytes[1] as int * 256 == v
  {
    [v % 256, v / 256]
  }

  function DisplacementBytes(f: MovFields, disp: nat): (bytes: seq<Byte>)
    requires disp < DisplacementRange(f)
    ensures |bytes| == MovLength(f) - 2
  {
    if f.mod == 1 then [disp]
    else if f.mod == 2 || IsDirectAddress(f) then LittleEndian(disp)
    else []
  }

  /** The machine code: 100010dw, mod reg r/m, displacement; or 1011wreg, immediate. */
  function Encode(i: Instruction): (code: seq<Byte>)
    requires WellFormed(i)
    ensures 2 <= |code| <= 4
  {
    match i
    case RegMemMove(f, disp) =>
      [0x88 + 2 * f.d + f.w, 64 * f.mod + 8 * f.reg + f.rm] + DisplacementBytes(f, disp)
    case ImmToRegMove(f, data) =>
      [0xB0 + 8 * f.w + f.reg] + (if f.w == 1 then LittleEndian(data) else [data])
  }

  /** The line the disassembler prints for an instruction. */
  function Text(i: Instruction): (line: string)
    requires WellFormed(i)
  {
    match i
    case RegMemMove(f, disp) => MovText(f, disp)
    case ImmToRegMove(f, data) => MovImmText(f, data)
  }

  lemma MovRoundTrip(f: MovFields, disp: nat, rest: seq<Byte>)
    requires WellFormed(RegMemMove(f, disp))
    ensures var code := Encode(RegMemMove(f, disp));
      MovGetFields(code[0], code[1]) == f &&
      DecodeInstruction(code + rest) == Ok(DecodingOutput(MovText(f, disp), |code|))
  {
    var code := Encode(RegMemMove(f, disp));
    var buf := code + rest;
    assert buf[0] == code[0] && buf[1] == code[1];
    var g := MovGetFields(code[0], code[1]);
    assert g == f;
    assert GetOpCode(buf[0]) == Mov;
    if f.mod == 1 || f.mod == 2 || IsDirectAddress(f) {
      assert buf[2] == code[2];
    }
    if f.mod == 2 || IsDirectAddress(f) {
      assert buf[3] == code[3];
    }
    assert MovDisplacement(buf, f) == disp;
  }

  lemma MovImmRoundTrip(f: MovImmFields, data: nat, rest: seq<Byte>)
    requires WellFormed(ImmToRegMove(f, data))
    ensures var code := Encode(ImmToRegMove(f, data));
      MovImmGetFields(code[0]) == f &&
      DecodeInstruction(code + rest) == Ok(DecodingOutput(MovImmText(f, data), |code|))
  {
    var code := Encode(ImmToRegMove(f, data));
    var buf := code + rest;
    assert buf[0] == code[0] && buf[1] == code[1];
    assert MovImmGetFields(code[0]) == f;
    assert GetOpCode(buf[0]) == MovImm;
    if f.w == 1 {
      assert buf[2] == code[2];
    }
    assert MovImmData(buf, f) == data;
  }

  /** Decoding the encoding of an instruction, whatever follows it, yields the
      instruction's text and consumes exactly its bytes. */
  lemma DecodeEncode(i: Instruction, rest: seq<Byte>)
    requires WellFormed(i)
    ensures DecodeInstruction(Encode(i) + rest) == Ok(DecodingOutput(Text(i), |Encode(i)|))
  {
    match i
    case RegMemMove(f, disp) => MovRoundTrip(f, disp, rest);
    case ImmToRegMove(f, data) => MovImmRoundTrip(f, data, rest);
  }

  /** Parsing an encoded instruction, whatever follows it, gives the
      instruction back: the encoding is one-to-one. */
  lemma ParseEncode(i: Instruction, rest: seq<Byte>)
    requires WellFormed(i)
    ensures DecodeInstruction(Encode(i) + rest).Ok?
    ensures Parse(Encode(i) + rest) == i
  {
    var buf := Encode(i) + rest;
    DecodeEncode(i, rest);
    match i
    case RegMemMove(f, disp) =>
      MovRoundTrip(f, disp, rest);
      assert buf[0] == Encode(i)[0] && buf[1] == Encode(i)[1];
      if f.mod == 1 || f.mod == 2 || IsDirectAddress(f) {
        assert buf[2] == Encode(i)[2];
      }
      if f.mod == 2 || IsDirectAddress(f) {
        assert buf[3] == Encode(i)[3];
      }
    case ImmToRegMove(f, data) =>
      MovImmRoundTrip(f, data, rest);
      assert buf[0] == Encode(i)[0] && buf[1] == Encode(i)[1];
      if f.w == 1 {
        assert buf[2] == Encode(i)[2];
      }
  }

  /** The instruction at the head of a buffer the decoder accepts. */
  function Parse(buf: seq<Byte>): (i: Instruction)
    requires |buf| > 0 && DecodeInstruction(buf).Ok?
  {
    if GetOpCode(buf[0]) == MovImm then
      var f := MovImmGetFields(buf[0]);
      ImmToRegMove(f, MovImmData(buf, f))
    else
      var f := MovGetFields(buf[0], buf[1]);
      RegMemMove(f, MovDisplacement(buf, f))
  }

  lemma MovParse(buf: seq<Byte>)
    requires |buf| >= 2 && GetOpCode(buf[0]) == Mov
    requires |buf| >= MovLength(MovGetFields(buf[0], buf[1]))
    ensures var f := MovGetFields(buf[0], buf[1]);
      var i := RegMemMove(f, MovDisplacement(buf, f));
      WellFormed(i) && |Encode(i)| <= |buf| && Encode(i) == buf[..|Encode(i)|]
  {
    var f := MovGetFields(buf[0], buf[1]);
    var disp := MovDisplacement(buf, f);
    var i := RegMemMove(f, disp);
    assert WellFormed(i);
    var code := Encode(i);
    assert code[0] == buf[0] && code[1] == buf[1];
    assert code == buf[..|code|];
  }

  lemma MovImmParse(buf: seq<Byte>)
    requires |buf| > 0 && GetOpCode(buf[0]) == MovImm
    requires |buf| >= 2 + MovImmGetFields(buf[0]).w
    ensures var f := MovImmGetFields(buf[0]);
      var i := ImmToRegMove(f, MovImmData(buf, f));
      WellFormed(i) && |Encode(i)| <= |buf| && Encode(i) == buf[..|Encode(i)|]
  {
    var f := MovImmGetFields(buf[0]);
    var i := ImmToRegMove(f, MovImmData(buf, f));
    assert WellFormed(i);
    var code := Encode(i);
    assert code[0] == buf[0];
    assert code == buf[..|code|];
  }

  /** Every accepted buffer begins with the encoding of the instruction parsed
      from it, and the decoder's text and count are that instruction's. */
  lemma EncodeParse(buf: seq<Byte>)
    requires |buf| > 0 && DecodeInstruction(buf).Ok?
    ensures var i := Parse(buf);
      WellFormed(i) && |Encode(i)| <= |buf| && Encode(i) == buf[..|Encode(i)|] &&
      DecodeInstruction(buf) == Ok(DecodingOutput(Text(i), |Encode(i)|))
  {
    if GetOpCode(buf[0]) == MovImm {
      MovImmParse(buf);
    } else {
      MovParse(buf);
    }
  }

  /** A program: its instructions' encodings laid end to end. */
  function EncodeAll(prog: seq<Instruction>): (code: seq<Byte>)
    requires forall k :: 0 <= k < |prog| ==> WellFormed(prog[k])
  {
    if prog == [] then [] else Encode(prog[0]) + EncodeAll(prog[1..])
  }

  function TextAll(prog: seq<Instruction>): (lines: seq<string>)
    requires forall k :: 0 <= k < |prog| ==> WellFormed(prog[k])
  {
    if prog == [] then [] else [Text(prog[0])] + TextAll(prog[1..])
  }

  function LengthAll(prog: seq<Instruction>): (lengths: seq<nat>)
    requires forall k :: 0 <= k < |prog| ==> WellFormed(prog[k])
  {
    if prog == [] then [] else [|Encode(prog[0])|] + LengthAll(prog[1..])
  }

  /** What the loop needs to know of a decoder to list a program: it gives
      back every well-formed instruction from its encoding. */
  ghost predicate DecodesEncodings(decode: seq<Byte> --> Result<DecodingOutput>) {
    forall i: Instruction, rest: seq<Byte> :: WellFormed(i) ==>
      decode.requires(Encode(i) + rest) && decode(Encode(i) + rest) == Ok(DecodingOutput(Text(i), |Encode(i)|))
  }

  lemma DecodeInstructionDecodesEncodings()
    ensures DecodesEncodings(DecodeInstruction)
  {
    forall i: Instruction, rest: seq<Byte> | WellFormed(i)
      ensures DecodeInstruction(Encode(i) + rest) == Ok(DecodingOutput(Text(i), |Encode(i)|))
    {
      DecodeEncode(i, rest);
    }
  }

  lemma {:induction false} DecodeFromProgram(decode: seq<Byte> --> Result<DecodingOutput>, buf: seq<Byte>, cursor: nat, prog: seq<Instruction>)
    requires Advances(decode) && DecodesEncodings(decode)
    requires forall k :: 0 <= k < |prog| ==> WellFormed(prog[k])
    requires cursor <= |buf| && buf[cursor..] == EncodeAll(prog)
    ensures DecodeFrom(decode, buf, cursor) == Listing(TextAll(prog), LengthAll(prog), None)
    decreases |prog|
  {
    if prog != [] {
      var code := Encode(prog[0]);
      var rest := EncodeAll(prog[1..]);
      assert buf[cursor..] == code + rest;
      assert decode(code + rest) == Ok(DecodingOutput(Text(prog[0]), |code|));
      assert buf[cursor + |code|..] == rest by {
        assert buf[cursor + |code|..] == buf[cursor..][|code|..];
      }
      DecodeFromProgram(decode, buf, cursor + |code|, prog[1..]);
    } else {
      assert cursor == |buf|;
    }
  }

  /** Disassembling the encoding of a program gives one line per instruction,
      each instruction's text and length, and no error. */
  lemma DisassembleProgram(prog: seq<Instruction>)
    requires forall k :: 0 <= k < |prog| ==> WellFormed(prog[k])
    ensures DecodeAll(EncodeAll(prog)) == Listing(TextAll(prog), LengthAll(prog), None)
  {
    var buf := EncodeAll(prog);
    assert buf[0..] == buf;
    DecodeInstructionAdvances();
    DecodeInstructionDecodesEncodings();
    DecodeFromProgram(DecodeInstruction, buf, 0, prog);
  }
}
