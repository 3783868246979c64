/** The 8086 MOV disassembler: opcode classification, bit-field extraction,
    operand rendering for the register/memory and immediate-to-register forms,
    and the loop that decodes a whole buffer one instruction at a time. */
module Disassembler {
  import opened Decimal
  import opened Registers

  type Byte = b: int | 0 <= b < 256

  /** The instruction kinds the classifier knows. */
  datatype OpCode = OpNone | Mov | MovImm

  /** The fields of a register/memory MOV (opcode 100010dw, then mod reg r/m). */
  datatype MovFields = MovFields(d: int, w: int, mod: int, reg: int, rm: int) {
    predicate Valid() {
      0 <= d < 2 && 0 <= w < 2 && 0 <= mod < 4 && 0 <= reg < 8 && 0 <= rm < 8
    }
  }

  /** The fields of an immediate-to-register MOV (opcode 1011wreg). */
  datatype MovImmFields = MovImmFields(w: int, reg: int) {
    predicate Valid() {
      0 <= w < 2 && 0 <= reg < 8
    }
  }

  /** One decoded instruction: its text and the number of bytes it occupies. */
  datatype DecodingOutput = DecodingOutput(decoded: string, bytesConsumed: nat)

  datatype DecodeError =
    | UnsupportedOpcode(opcode: Byte)
    | Truncated(needed: nat, available: nat)

  datatype Result<T> = Ok(value: T) | Err(error: DecodeError)

  datatype Option<T> = None | Some(value: T)

  // ---------------------------------------------------------------------------
  // Classification and field extraction
  // ---------------------------------------------------------------------------

  /** Immediate-to-register moves are the bytes B0..BF, register/memory moves
      the bytes 88..8B; every other byte is unsupported. */
  function GetOpCode(b: Byte): (op: OpCode)
    ensures op == MovImm <==> 0xB0 <= b <= 0xBF
    ensures op == Mov <==> 0x88 <= b <= 0x8B
  {
    if (b / 16) % 16 == 0xB then MovImm        // (byte >> 4) & 0xf
    else if (b / 4) % 64 == 0x22 then Mov      // (byte >> 2) & 0x3f
    else OpNone
  }

  /** d and w are the two low bits of the opcode byte; mod, reg and r/m split
      the second byte into 2 + 3 + 3 bits. */
  function MovGetFields(b0: Byte, b1: Byte): (f: MovFields)
    ensures f.Valid()
    ensures b0 % 4 == 2 * f.d + f.w
    ensures b1 == 64 * f.mod + 8 * f.reg + f.rm
  {
    MovFields((b0 / 2) % 2, b0 % 2, (b1 / 64) % 4, (b1 / 8) % 8, b1 % 8)
  }

  /** w is bit 3 and reg the three low bits of the opcode byte. */
  function MovImmGetFields(b0: Byte): (f: MovImmFields)
    ensures f.Valid()
    ensures b0 % 16 == 8 * f.w + f.reg
  {
    MovImmFields((b0 / 8) % 2, b0 % 8)
  }

  // ---------------------------------------------------------------------------
  // Register/memory MOV
  // ---------------------------------------------------------------------------

  /** mod 00 with r/m 110 encodes a bare 16-bit address instead of base registers. */
  predicate IsDirectAddress(f: MovFields) {
    f.mod == 0 && f.rm == 6
  }

  /** Two header bytes plus one displacement byte in mode 01 and two in mode 10
      or for a direct address. */
  function MovLength(f: MovFields): (n: nat) {
    2 + (if f.mod == 1 then 1 else if f.mod == 2 || IsDirectAddress(f) then 2 else 0)
  }

  /** The displacement, read unsigned: one byte in mode 01, two little-endian
      bytes in mode 10 or for a direct address, none otherwise. */
  function MovDisplacement(buf: seq<Byte>, f: MovFields): (disp: nat)
    requires f.Valid() && |buf| >= MovLength(f)
    ensures f.mod == 1 ==> disp == buf[2]
    ensures (f.mod == 2 || IsDirectAddress(f)) ==> disp < 65536 && disp % 256 == buf[2] && disp / 256 == buf[3]
    ensures (f.mod == 3 || (f.mod == 0 && !IsDirectAddress(f))) ==> disp == 0
  {
    if f.mod == 1 then buf[2]
    else if f.mod == 2 || IsDirectAddress(f) then buf[2] as int + buf[3] as int * 256  // buf[2] | buf[3] << 8
    else 0
  }

  /** The number of occurrences of c in s. */
  function Occurrences(s: string, c: char): (count: nat)
    decreases |s|
  {
    if s == [] then 0 else (if s[0] == c then 1 else 0) + Occurrences(s[1..], c)
  }

  lemma {:induction false} OccurrencesAppend(a: string, b: string, c: char)
    ensures Occurrences(a + b, c) == Occurrences(a, c) + Occurrences(b, c)
    decreases |a|
  {
    if a == [] {
      assert a + b == b;
    } else {
      var ab := a + b;
      assert ab != [] && ab[0] == a[0] && ab[1..] == a[1..] + b;
      OccurrencesAppend(a[1..], b, c);
    }
  }

  lemma {:induction false} OccurrencesAbsent(s: string, c: char)
    requires forall i :: 0 <= i < |s| ==> s[i] != c
    ensures Occurrences(s, c) == 0
    decreases |s|
  {
    if s != [] {
      OccurrencesAbsent(s[1..], c);
    }
  }

  /** "+ " followed by the text of a term, as the source appends it. */
  function PlusTerm(t: string): (term: string) {
    "+ " + t
  }

  /** The first term of a memory operand: the first base register, or the
      address itself for a direct address. */
  function BaseTerm(f: MovFields, disp: nat): (t: string)
    requires f.Valid()
  {
    if IsDirectAddress(f) then NatToString(disp) else GetRegisterString(GetEACalculationRegisters(f.rm).0)
  }

  /** "+ " and the second base register, when the r/m field names two. */
  function IndexTerm(f: MovFields): (t: string)
    requires f.Valid()
  {
    var base2 := GetEACalculationRegisters(f.rm).1;
    if base2 != RegNone then PlusTerm(GetRegisterString(base2)) else ""
  }

  /** "+ " and the displacement, when it is non-zero. */
  function DisplacementTerm(disp: nat): (t: string) {
    if disp != 0 then PlusTerm(NatToString(disp)) else ""
  }

  /** The memory operand: "[" base1, then "+ " base2 when there is a second
      base, then "+ " displacement when it is non-zero, then "]". For a direct
      address the address itself stands in for base1. */
  function EffectiveAddressText(f: MovFields, disp: nat): (s: string)
    requires f.Valid() && f.mod != 3
    ensures |s| >= 3 && s[0] == '[' && s[|s| - 1] == ']'
  {
    "[" + BaseTerm(f, disp) + IndexTerm(f) + DisplacementTerm(disp) + "]"
  }

  /** A memory operand holds one "+" per term after the first: one for a
      second base register and one for a non-zero displacement. */
  lemma EffectiveAddressPlusSigns(f: MovFields, disp: nat)
    requires f.Valid() && f.mod != 3
    ensures Occurrences(EffectiveAddressText(f, disp), '+') == (if f.rm < 4 then 1 else 0) + (if disp != 0 then 1 else 0)
  {
    EffectiveAddressCount(BaseTerm(f, disp), IndexTerm(f), DisplacementTerm(disp), GetEACalculationRegisters(f.rm).1, disp);
  }

  /** A non-zero displacement closes the operand as "+ " and its decimal text. */
  lemma EffectiveAddressEndsWithDisplacement(f: MovFields, disp: nat)
    requires f.Valid() && f.mod != 3 && disp != 0
    ensures var s := EffectiveAddressText(f, disp);
      var t := NatToString(disp);
      |s| >= |t| + 3 && s[|s| - |t| - 3..] == PlusTerm(t) + "]"
  {
    var head := "[" + BaseTerm(f, disp) + IndexTerm(f);
    assert EffectiveAddressText(f, disp) == head + (PlusTerm(NatToString(disp)) + "]");
  }

  lemma EffectiveAddressCount(first: string, second: string, third: string, base2: Register, disp: nat)
    requires AllDigits(first) || (|first| == 2 && 'a' <= first[0] <= 'z' && 'a' <= first[1] <= 'z')
    requires second == if base2 != RegNone then PlusTerm(GetRegisterString(base2)) else ""
    requires third == if disp != 0 then PlusTerm(NatToString(disp)) else ""
    ensures Occurrences("[" + first + second + third + "]", '+')
         == (if base2 != RegNone then 1 else 0) + (if disp != 0 then 1 else 0)
  {
    OccurrencesAbsent(first, '+');
    OccurrencesAbsent("[", '+');
    OccurrencesAbsent("]", '+');
    if base2 != RegNone {
      OccurrencesAbsent(GetRegisterString(base2), '+');
      OccurrencesAppend("+ ", GetRegisterString(base2), '+');
    } else {
      OccurrencesAbsent(second, '+');
    }
    if disp != 0 {
      OccurrencesAbsent(NatToString(disp), '+');
      OccurrencesAppend("+ ", NatToString(disp), '+');
    } else {
      OccurrencesAbsent(third, '+');
    }
    OccurrencesAppend("[", first, '+');
    OccurrencesAppend("[" + first, second, '+');
    OccurrencesAppend("[" + first + second, third, '+');
    OccurrencesAppend("[" + first + second + third, "]", '+');
  }

  /** The rendered line "mov <dst>, <src>". */
  function Line(dst: string, src: string): (line: string) {
    "mov " + dst + ", " + src
  }

  /** The texts of the reg operand and of the r/m operand, before the direction
      bit orders them. */
  function MovOperandTexts(f: MovFields, disp: nat): (texts: (string, string))
    requires f.Valid()
  {
    var regText := GetRegisterString(GetRegister(f.reg, f.w));
    var rmText := if f.mod == 3 then GetRegisterString(GetRegister(f.rm, f.w)) else EffectiveAddressText(f, disp);
    (regText, rmText)
  }

  /** With d = 0 the r/m operand is the destination; d = 1 swaps the two. */
  function MovText(f: MovFields, disp: nat): (line: string)
    requires f.Valid()
  {
    var (regText, rmText) := MovOperandTexts(f, disp);
    if f.d == 1 then Line(regText, rmText) else Line(rmText, regText)
  }

  /** Decodes a register/memory MOV at the head of buf. The count consumed is
      read off the second byte: 2 in register mode (C0..FF) or mode 00 without
      a direct address, 3 in mode 01 (40..7F), 4 in mode 10 (80..BF) or for a
      direct address (mode 00, r/m 110); too few bytes is a truncation error. */
  function MovInstructionDecoding(buf: seq<Byte>): (r: Result<DecodingOutput>)
    requires |buf| > 0
    ensures |buf| < 2 ==> r == Err(Truncated(2, |buf|))
    ensures |buf| >= 2 ==>
      var n := if buf[1] >= 0xC0 then 2 else if buf[1] >= 0x80 then 4
               else if buf[1] >= 0x40 then 3 else if buf[1] % 8 == 6 then 4 else 2;
      (r.Ok? <==> n <= |buf|) &&
      (r.Ok? ==> r.value.bytesConsumed == n) &&
      (r.Err? ==> r.error == Truncated(n, |buf|))
  {
    if |buf| < 2 then Err(Truncated(2, |buf|))
    else
      var f := MovGetFields(buf[0], buf[1]);
      var n := MovLength(f);
      if |buf| < n then Err(Truncated(n, |buf|))
      else Ok(DecodingOutput(MovText(f, MovDisplacement(buf, f)), n))
  }

  // ---------------------------------------------------------------------------
  // Immediate-to-register MOV
  // ---------------------------------------------------------------------------

  /** The immediate: the byte after the opcode when w = 0, the two
      little-endian bytes after it when w = 1. */
  function MovImmData(buf: seq<Byte>, f: MovImmFields): (data: nat)
    requires f.Valid() && |buf| >= 2 + f.w
    ensures f.w == 0 ==> data == buf[1]
    ensures f.w == 1 ==> data < 65536 && data % 256 == buf[1] && data / 256 == buf[2]
  {
    if f.w == 1 then buf[1] as int + buf[2] as int * 256  // buf[1] | buf[2] << 8
    else buf[1]
  }

  /** The destination is always the register (reg, w); the source is the
      immediate in decimal. */
  function MovImmText(f: MovImmFields, data: nat): (line: string)
    requires f.Valid()
  {
    Line(GetRegisterString(GetRegister(f.reg, f.w)), NatToString(data))
  }

  /** Decodes an immediate-to-register MOV at the head of buf: 2 bytes when
      bit 3 of the opcode is clear, 3 when it is set. */
  function MovImmInstructionDecoding(buf: seq<Byte>): (r: Result<DecodingOutput>)
    requires |buf| > 0
    ensures var n := if buf[0] % 16 >= 8 then 3 else 2;
      (r.Ok? <==> n <= |buf|) &&
      (r.Ok? ==> r.value.bytesConsumed == n) &&
      (r.Err? ==> r.error == Truncated(n, |buf|))
  {
    var f := MovImmGetFields(buf[0]);
    var n := 2 + f.w;
    if |buf| < n then Err(Truncated(n, |buf|))
    else Ok(DecodingOutput(MovImmText(f, MovImmData(buf, f)), n))
  }

  // ---------------------------------------------------------------------------
  // The decode loop
  // ---------------------------------------------------------------------------

  /** One iteration of the loop: classify the head byte and dispatch. */
  function DecodeInstruction(buf: seq<Byte>): (r: Result<DecodingOutput>)
    requires |buf| > 0
    ensures r.Ok? ==> 2 <= r.value.bytesConsumed <= |buf|
    ensures r == Err(UnsupportedOpcode(buf[0])) <==> !(0xB0 <= buf[0] <= 0xBF || 0x88 <= buf[0] <= 0x8B)
  {
    match GetOpCode(buf[0])
    case Mov => MovInstructionDecoding(buf)
    case MovImm => MovImmInstructionDecoding(buf)
    case OpNone => Err(UnsupportedOpcode(buf[0]))
  }

  /** The lines of a run, the bytes each line consumed, and the error that
      stopped the run, if any. */
  datatype Listing = Listing(lines: seq<string>, consumed: seq<nat>, error: Option<DecodeError>)

  function Sum(s: seq<nat>): (total: nat) {
    if s == [] then 0 else s[0] + Sum(s[1..])
  }

  /** What the loop needs of an instruction decoder: it accepts every
      non-empty rest of the buffer, and a decoded instruction occupies at
      least two of the bytes that remain and at most all of them. */
  ghost predicate Advances(decode: seq<Byte> --> Result<DecodingOutput>) {
    forall b: seq<Byte> {:trigger decode.requires(b)} {:trigger decode(b)} :: |b| > 0 ==>
      decode.requires(b) && (decode(b).Ok? ==> 2 <= decode(b).value.bytesConsumed <= |b|)
  }

  lemma DecodeInstructionAdvances()
    ensures Advances(DecodeInstruction)
  {
    forall b: seq<Byte> | |b| > 0
      ensures DecodeInstruction(b).Ok? ==> 2 <= DecodeInstruction(b).value.bytesConsumed <= |b|
    {
    }
  }

  /** Decoding a buffer from a cursor, one instruction after another, until
      the cursor reaches the end or an instruction fails to decode. */
  function DecodeFrom(decode: seq<Byte> --> Result<DecodingOutput>, buf: seq<Byte>, cursor: nat): (listing: Listing)
    requires Advances(decode) && cursor <= |buf|
    decreases |buf| - cursor
  {
    if cursor == |buf| then Listing([], [], None)
    else match decode(buf[cursor..])
      case Err(e) => Listing([], [], Some(e))
      case Ok(out) =>
        var rest := DecodeFrom(decode, buf, cursor + out.bytesConsumed);
        Listing([out.decoded] + rest.lines, [out.bytesConsumed] + rest.consumed, rest.error)
  }

  /** Decoding a whole buffer with the MOV decoder. */
  function DecodeAll(buf: seq<Byte>): (listing: Listing) {
    DecodeInstructionAdvances();
    DecodeFrom(DecodeInstruction, buf, 0)
  }

  lemma SumCons(a: nat, t: seq<nat>)
    ensures Sum([a] + t) == a + Sum(t)
  {
    assert ([a] + t)[1..] == t;
  }

  /** One line per instruction, each consuming at least two bytes; the counts
      add up to the bytes left after the cursor exactly when no error stops
      the run. */
  lemma {:induction false} DecodeFromConsumption(decode: seq<Byte> --> Result<DecodingOutput>, buf: seq<Byte>, cursor: nat)
    requires Advances(decode) && cursor <= |buf|
    ensures var l := DecodeFrom(decode, buf, cursor);
      |l.lines| == |l.consumed| &&
      (forall i :: 0 <= i < |l.consumed| ==> l.consumed[i] >= 2) &&
      (l.error.None? <==> cursor + Sum(l.consumed) == |buf|) &&
      cursor + Sum(l.consumed) <= |buf|
    decreases |buf| - cursor
  {
    if cursor < |buf| && decode(buf[cursor..]).Ok? {
      var n := decode(buf[cursor..]).value.bytesConsumed;
      DecodeFromConsumption(decode, buf, cursor + n);
      SumCons(n, DecodeFrom(decode, buf, cursor + n).consumed);
    }
  }

  /** For a whole run: the counts add up to the buffer's length exactly when
      no error stops it. */
  lemma DecodeAllConsumption(buf: seq<Byte>)
    ensures var l := DecodeAll(buf);
      |l.lines| == |l.consumed| &&
      (forall i :: 0 <= i < |l.consumed| ==> l.consumed[i] >= 2) &&
      (l.error.None? <==> Sum(l.consumed) == |buf|)
  {
    DecodeInstructionAdvances();
    DecodeFromConsumption(DecodeInstruction, buf, 0);
  }

  /** Line i of a run is the instruction decoded at the cursor advanced by the
      counts of the lines before it. */
  lemma {:induction false} DecodeFromLine(decode: seq<Byte> --> Result<DecodingOutput>, buf: seq<Byte>, cursor: nat, i: nat)
    requires Advances(decode) && cursor <= |buf| && i < |DecodeFrom(decode, buf, cursor).consumed|
    ensures var l := DecodeFrom(decode, buf, cursor);
      var at := cursor + Sum(l.consumed[..i]);
      i < |l.lines| && at < |buf| &&
      decode(buf[at..]) == Ok(DecodingOutput(l.lines[i], l.consumed[i]))
    decreases i
  {
    DecodeFromConsumption(decode, buf, cursor);
    var l := DecodeFrom(decode, buf, cursor);
    var n := decode(buf[cursor..]).value.bytesConsumed;
    if i == 0 {
      assert l.consumed[..0] == [];
    } else {
      DecodeFromLine(decode, buf, cursor + n, i - 1);
      var prefix := DecodeFrom(decode, buf, cursor + n).consumed[..i - 1];
      assert l.consumed[..i] == [n] + prefix;
      SumCons(n, prefix);
    }
  }

  /** Line i of a whole run is the instruction the MOV decoder finds at the
      offset where the counts of the lines before it end. */
  lemma DecodeAllLine(buf: seq<Byte>, i: nat)
    requires i < |DecodeAll(buf).consumed|
    ensures var l := DecodeAll(buf);
      var at := Sum(l.consumed[..i]);
      i < |l.lines| && at < |buf| &&
      DecodeInstruction(buf[at..]) == Ok(DecodingOutput(l.lines[i], l.consumed[i]))
  {
    DecodeInstructionAdvances();
    DecodeFromLine(DecodeInstruction, buf, 0, i);
  }

  /** The listing a of the lines already emitted followed by the listing b of the rest. */
  function Append(a: Listing, b: Listing): (joined: Listing) {
    Listing(a.lines + b.lines, a.consumed + b.consumed, b.error)
  }

  /** An instruction that fails to decode ends the run with the lines emitted so far. */
  lemma AdvanceError(decode: seq<Byte> --> Result<DecodingOutput>, buf: seq<Byte>, cursor: nat, done: Listing, e: DecodeError)
    requires Advances(decode) && cursor < |buf| && decode(buf[cursor..]) == Err(e)
    ensures Append(done, DecodeFrom(decode, buf, cursor)) == Listing(done.lines, done.consumed, Some(e))
  {
    assert done.lines + [] == done.lines && done.consumed + [] == done.consumed;
  }

  /** A decoded instruction moves from the rest of the run to its emitted part,
      and the cursor moves past its bytes. */
  lemma AdvanceOk(decode: seq<Byte> --> Result<DecodingOutput>, buf: seq<Byte>, cursor: nat, done: Listing, out: DecodingOutput)
    requires Advances(decode) && cursor < |buf| && decode(buf[cursor..]) == Ok(out)
    ensures cursor + out.bytesConsumed <= |buf|
    ensures Append(done, DecodeFrom(decode, buf, cursor))
         == Append(Listing(done.lines + [out.decoded], done.consumed + [out.bytesConsumed], None),
                   DecodeFrom(decode, buf, cursor + out.bytesConsumed))
  {
    var rest := DecodeFrom(decode, buf, cursor + out.bytesConsumed);
    assert done.lines + ([out.decoded] + rest.lines) == (done.lines + [out.decoded]) + rest.lines;
    assert done.consumed + ([out.bytesConsumed] + rest.consumed) == (done.consumed + [out.bytesConsumed]) + rest.consumed;
  }

  /** The loop of the driver, for any instruction decoder: a cursor that
      starts at the head of the buffer and advances by each instruction's
      count until the buffer is exhausted or an instruction fails to decode. */
  method DecodeLoop(decode: seq<Byte> --> Result<DecodingOutput>, buf: seq<Byte>)
      returns (lines: seq<string>, error: Option<DecodeError>)
    requires Advances(decode)
    ensures lines == DecodeFrom(decode, buf, 0).lines
    ensures error == DecodeFrom(decode, buf, 0).error
  {
    lines := [];
    error := None;
    var cursor := 0;
    ghost var done := Listing([], [], None);
    while cursor < |buf|
      invariant cursor <= |buf|
      invariant lines == done.lines
      invariant DecodeFrom(decode, buf, 0) == Append(done, DecodeFrom(decode, buf, cursor))
      decreases |buf| - cursor
    {
      var r := decode(buf[cursor..]);
      if r.Err? {
        AdvanceError(decode, buf, cursor, done, r.error);
        error := Some(r.error);
        return;
      }
      var out := r.value;
      AdvanceOk(decode, buf, cursor, done, out);
      lines := lines + [out.decoded];
      done := Listing(done.lines + [out.decoded], done.consumed + [out.bytesConsumed], None);
      cursor := cursor + out.bytesConsumed;
    }
    assert done.lines + [] == done.lines;
  }

  /** The driver: emits "bits 16", then one line per instruction decoded by
      the loop above with the MOV decoder. */
  method Sim8086(buf: seq<Byte>) returns (output: seq<string>, error: Option<DecodeError>)
    ensures output == ["bits 16"] + DecodeAll(buf).lines
    ensures error == DecodeAll(buf).error
  {
    DecodeInstructionAdvances();
    var lines;
    lines, error := DecodeLoop(DecodeInstruction, buf);
    output := ["bits 16"] + lines;
  }

  // ---------------------------------------------------------------------------
  // Properties of the rendering
  // ---------------------------------------------------------------------------

  /** Setting the direction bit of a register/memory opcode sets d and leaves
      every other field as it was. */
  lemma DirectionBitFields(b0: Byte, b1: Byte)
    requires b0 == 0x88 || b0 == 0x89
    ensures MovGetFields(b0 + 2, b1) == MovGetFields(b0, b1).(d := 1)
  {
  }

  /** With the same operands, d = 0 puts the r/m text first and d = 1 the reg text. */
  lemma DirectionBitText(f: MovFields, disp: nat)
    requires f.Valid() && f.d == 0
    ensures var texts := MovOperandTexts(f, disp);
      MovOperandTexts(f.(d := 1), disp) == texts &&
      MovText(f, disp) == Line(texts.1, texts.0) &&
      MovText(f.(d := 1), disp) == Line(texts.0, texts.1)
  {
    assert BaseTerm(f.(d := 1), disp) == BaseTerm(f, disp);
    assert IndexTerm(f.(d := 1)) == IndexTerm(f);
  }

  /** The bytes consumed and the errors of a register/memory MOV depend only
      on the second byte and the bytes available, not on the direction bit. */
  lemma DirectionBitCount(buf: seq<Byte>)
    requires |buf| > 0 && (buf[0] == 0x88 || buf[0] == 0x89)
    ensures var r := MovInstructionDecoding(buf);
      var r' := MovInstructionDecoding(buf[0 := buf[0] + 2]);
      (r.Ok? <==> r'.Ok?) && (r.Err? ==> r' == r) &&
      (r.Ok? ==> r'.value.bytesConsumed == r.value.bytesConsumed)
  {
    var buf' := buf[0 := buf[0] + 2];
    if |buf| >= 2 {
      assert buf'[1] == buf[1];
    }
  }

  /** A decoded register/memory MOV reads as the rendering of its fields and
      its displacement. */
  lemma MovDecodedText(buf: seq<Byte>)
    requires |buf| > 0 && MovInstructionDecoding(buf).Ok?
    ensures |buf| >= 2 && |buf| >= MovLength(MovGetFields(buf[0], buf[1]))
    ensures var f := MovGetFields(buf[0], buf[1]);
      MovInstructionDecoding(buf).value.decoded == MovText(f, MovDisplacement(buf, f))
  {
  }

  /** The texts decoded with the direction bit clear and set are the same two
      operands in opposite order. */
  lemma DirectionBitOperands(buf: seq<Byte>) returns (dst: string, src: string)
    requires |buf| > 0 && (buf[0] == 0x88 || buf[0] == 0x89)
    requires MovInstructionDecoding(buf).Ok? && MovInstructionDecoding(buf[0 := buf[0] + 2]).Ok?
    ensures MovInstructionDecoding(buf).value.decoded == Line(dst, src)
    ensures MovInstructionDecoding(buf[0 := buf[0] + 2]).value.decoded == Line(src, dst)
  {
    var buf' := buf[0 := buf[0] + 2];
    MovDecodedText(buf);
    MovDecodedText(buf');
    var f := MovGetFields(buf[0], buf[1]);
    assert buf'[0] == buf[0] + 2 && buf'[1] == buf[1];
    DirectionBitFields(buf[0], buf[1]);
    var disp := MovDisplacement(buf, f);
    assert MovDisplacement(buf', f.(d := 1)) == disp;
    DirectionBitText(f, disp);
    dst, src := MovOperandTexts(f, disp).1, MovOperandTexts(f, disp).0;
  }

  /** Setting the direction bit swaps the destination and source texts and
      changes nothing else: the same bytes are consumed, the same errors arise. */
  lemma DirectionBitSwap(buf: seq<Byte>)
    requires |buf| > 0 && (buf[0] == 0x88 || buf[0] == 0x89)
    ensures var r := MovInstructionDecoding(buf);
      var r' := MovInstructionDecoding(buf[0 := buf[0] + 2]);
      (r.Ok? <==> r'.Ok?) && (r.Err? ==> r' == r) &&
      (r.Ok? ==> r'.value.bytesConsumed == r.value.bytesConsumed &&
                 exists dst, src :: r.value.decoded == Line(dst, src) && r'.value.decoded == Line(src, dst))
  {
    DirectionBitCount(buf);
    if MovInstructionDecoding(buf).Ok? {
      var dst, src := DirectionBitOperands(buf);
    }
  }

  /** A direct address prints as "[0]" when it is zero and otherwise twice, as
      the address and again as a displacement: "[X+ X]". */
  lemma DirectAddressText(f: MovFields, disp: nat)
    requires f.Valid() && IsDirectAddress(f)
    ensures EffectiveAddressText(f, disp)
         == if disp == 0 then "[0]" else "[" + NatToString(disp) + "+ " + NatToString(disp) + "]"
  {
  }

  /** Every line fits the 32-character String32 buffer it is written into,
      terminating NUL included. */
  lemma DecodedLineFits(buf: seq<Byte>)
    requires |buf| > 0
    ensures DecodeInstruction(buf).Ok? ==> |DecodeInstruction(buf).value.decoded| < 32
  {
    if DecodeInstruction(buf).Ok? {
      if GetOpCode(buf[0]) == Mov {
        var f := MovGetFields(buf[0], buf[1]);
        var disp := MovDisplacement(buf, f);
        SixteenBitLength(disp);
        if f.mod != 3 {
          var (base1, base2) := GetEACalculationRegisters(f.rm);
          assert |EffectiveAddressText(f, disp)| <= 15;
        }
      } else {
        var f := MovImmGetFields(buf[0]);
        SixteenBitLength(MovImmData(buf, f));
      }
    }
  }
}
