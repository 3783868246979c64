/** Concrete listings: byte sequences and the lines the disassembler prints
    for them, including the spacing of memory operands and the error cases.
    Each is obtained from the encoding of the instruction it holds. */
module Scenarios {
  import opened Decimal
  import opened Disassembler
  import opened Encoding

  /** The bytes of a well-formed instruction decode to its text and length. */
  lemma DecodesTo(i: Instruction, bytes: seq<Byte>, text: string)
    requires WellFormed(i) && Encode(i) == bytes && Text(i) == text
    ensures DecodeInstruction(bytes) == Ok(DecodingOutput(text, |bytes|))
  {
    DecodeEncode(i, []);
    assert Encode(i) + [] == Encode(i);
  }

  /** 89 D8: register to register, d = 0 so the r/m register is the destination. */
  lemma RegisterToRegister()
    ensures DecodeInstruction([0x89, 0xD8]) == Ok(DecodingOutput("mov ax, bx", 2))
  {
    DecodesTo(RegMemMove(MovFields(0, 1, 3, 3, 0), 0), [0x89, 0xD8], "mov ax, bx");
  }

  /** 8B 00: two base registers, no space between the first base and "+". */
  lemma TwoBaseRegisters()
    ensures DecodeInstruction([0x8B, 0x00]) == Ok(DecodingOutput("mov ax, [bx+ si]", 2))
  {
    var f := MovFields(1, 1, 0, 0, 0);
    assert EffectiveAddressText(f, 0) == "[bx+ si]";
    DecodesTo(RegMemMove(f, 0), [0x8B, 0x00], "mov ax, [bx+ si]");
  }

  /** 8B 4E 02: one base register and an 8-bit displacement. */
  lemma ByteDisplacement()
    ensures DecodeInstruction([0x8B, 0x4E, 0x02]) == Ok(DecodingOutput("mov cx, [bp+ 2]", 3))
  {
    var f := MovFields(1, 1, 1, 1, 6);
    assert NatToString(2) == "2";
    assert EffectiveAddressText(f, 2) == "[bp+ 2]";
    DecodesTo(RegMemMove(f, 2), [0x8B, 0x4E, 0x02], "mov cx, [bp+ 2]");
  }

  /** 8B 46 00: a zero displacement is not printed. */
  lemma ZeroDisplacement()
    ensures DecodeInstruction([0x8B, 0x46, 0x00]) == Ok(DecodingOutput("mov ax, [bp]", 3))
  {
    var f := MovFields(1, 1, 1, 0, 6);
    assert EffectiveAddressText(f, 0) == "[bp]";
    DecodesTo(RegMemMove(f, 0), [0x8B, 0x46, 0x00], "mov ax, [bp]");
  }

  /** 8B 16 00 00: the direct address 0 prints once. */
  lemma DirectAddressZero()
    ensures DecodeInstruction([0x8B, 0x16, 0x00, 0x00]) == Ok(DecodingOutput("mov dx, [0]", 4))
  {
    var f := MovFields(1, 1, 0, 2, 6);
    assert NatToString(0) == "0";
    assert EffectiveAddressText(f, 0) == "[0]";
    DecodesTo(RegMemMove(f, 0), [0x8B, 0x16, 0x00, 0x00], "mov dx, [0]");
  }

  lemma DecimalText4660()
    ensures NatToString(4660) == "4660"
  {
    assert NatToString(4) == "4" && NatToString(46) == "46" && NatToString(466) == "466";
  }

  lemma DirectAddressOperandText()
    ensures EffectiveAddressText(MovFields(1, 1, 0, 2, 6), 4660) == "[4660+ 4660]"
  {
    DecimalText4660();
    DirectAddressText(MovFields(1, 1, 0, 2, 6), 4660);
  }

  lemma DirectAddressLine()
    ensures Line("dx", "[4660+ 4660]") == "mov dx, [4660+ 4660]"
  {
  }

  lemma DirectAddressTwiceText()
    ensures MovText(MovFields(1, 1, 0, 2, 6), 4660) == "mov dx, [4660+ 4660]"
  {
    DirectAddressOperandText();
    DirectAddressLine();
    assert MovText(MovFields(1, 1, 0, 2, 6), 4660) == Line("dx", "[4660+ 4660]");
  }

  /** 8B 16 34 12: a non-zero direct address prints twice, joined by "+ ". */
  lemma DirectAddressTwice()
    ensures DecodeInstruction([0x8B, 0x16, 0x34, 0x12]) == Ok(DecodingOutput("mov dx, [4660+ 4660]", 4))
  {
    DirectAddressTwiceText();
    DecodesTo(RegMemMove(MovFields(1, 1, 0, 2, 6), 4660), [0x8B, 0x16, 0x34, 0x12], "mov dx, [4660+ 4660]");
  }

  lemma WordDisplacementText()
    ensures MovText(MovFields(0, 1, 2, 0, 7), 1000) == "mov [bx+ 1000], ax"
  {
    var f := MovFields(0, 1, 2, 0, 7);
    assert NatToString(1000) == "1000" by {
      assert NatToString(1) == "1" && NatToString(10) == "10" && NatToString(100) == "100";
    }
    assert BaseTerm(f, 1000) == "bx";
    assert IndexTerm(f) == "";
    assert DisplacementTerm(1000) == "+ 1000";
    assert EffectiveAddressText(f, 1000) == "[bx+ 1000]";
  }

  /** 89 87 E8 03: a 16-bit displacement with the r/m operand as destination. */
  lemma WordDisplacement()
    ensures DecodeInstruction([0x89, 0x87, 0xE8, 0x03]) == Ok(DecodingOutput("mov [bx+ 1000], ax", 4))
  {
    WordDisplacementText();
    DecodesTo(RegMemMove(MovFields(0, 1, 2, 0, 7), 1000), [0x89, 0x87, 0xE8, 0x03], "mov [bx+ 1000], ax");
  }

  /** B9 0C 00: a 16-bit immediate, printed in decimal. */
  lemma WordImmediate()
    ensures DecodeInstruction([0xB9, 0x0C, 0x00]) == Ok(DecodingOutput("mov cx, 12", 3))
  {
    assert NatToString(12) == "12" by {
      assert NatToString(1) == "1";
    }
    DecodesTo(ImmToRegMove(MovImmFields(1, 1), 12), [0xB9, 0x0C, 0x00], "mov cx, 12");
  }

  /** B1 0C: an 8-bit immediate. */
  lemma ByteImmediate()
    ensures DecodeInstruction([0xB1, 0x0C]) == Ok(DecodingOutput("mov cl, 12", 2))
  {
    assert NatToString(12) == "12" by {
      assert NatToString(1) == "1";
    }
    DecodesTo(ImmToRegMove(MovImmFields(0, 1), 12), [0xB1, 0x0C], "mov cl, 12");
  }

  /** 90 is outside both MOV forms. */
  lemma Unsupported()
    ensures DecodeInstruction([0x90]) == Err(UnsupportedOpcode(0x90))
  {
  }

  /** Instructions cut off by the end of the buffer. */
  lemma CutOff()
    ensures DecodeInstruction([0x8B]) == Err(Truncated(2, 1))
    ensures DecodeInstruction([0x8B, 0x4E]) == Err(Truncated(3, 2))
    ensures DecodeInstruction([0xB9, 0x0C]) == Err(Truncated(3, 2))
  {
  }

  /** The buffer 89 D8 B9 0C 00 lists as "bits 16", then one line per
      instruction with its byte count, and no error. */
  lemma TwoInstructionListing()
    ensures DecodeAll([0x89, 0xD8, 0xB9, 0x0C, 0x00]) == Listing(["mov ax, bx", "mov cx, 12"], [2, 3], None)
    ensures ["bits 16"] + DecodeAll([0x89, 0xD8, 0xB9, 0x0C, 0x00]).lines == ["bits 16", "mov ax, bx", "mov cx, 12"]
  {
    var prog := [RegMemMove(MovFields(0, 1, 3, 3, 0), 0), ImmToRegMove(MovImmFields(1, 1), 12)];
    assert WellFormed(prog[0]) && WellFormed(prog[1]);
    assert NatToString(12) == "12" by {
      assert NatToString(1) == "1";
    }
    assert Text(prog[0]) == "mov ax, bx" && Text(prog[1]) == "mov cx, 12";
    assert TextAll(prog) == ["mov ax, bx", "mov cx, 12"] by {
      assert prog[1..][1..] == [];
    }
    assert EncodeAll(prog) == [0x89, 0xD8, 0xB9, 0x0C, 0x00] by {
      assert prog[1..][1..] == [];
    }
    assert LengthAll(prog) == [2, 3] by {
      assert prog[1..][1..] == [];
    }
    DisassembleProgram(prog);
  }
}
