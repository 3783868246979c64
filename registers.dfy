/** The static register tables of the disassembler: the reg/r/m register table,
    the effective-address base-register table and the register names. */
module Registers {

  /** The source's RegisterE: a "none" sentinel and the sixteen named registers. */
  datatype Register =
    | RegNone
    | AL | AX | CL | CX | DL | DX | BL | BX
    | AH | CH | DH | BH | SP | BP | SI | DI

  /** The eight 8-bit registers. */
  predicate IsByteRegister(r: Register) {
    r.AL? || r.CL? || r.DL? || r.BL? || r.AH? || r.CH? || r.DH? || r.BH?
  }

  /** The eight 16-bit registers. */
  predicate IsWordRegister(r: Register) {
    r.AX? || r.CX? || r.DX? || r.BX? || r.SP? || r.BP? || r.SI? || r.DI?
  }

  /** The register a 3-bit reg (or r/m) field names at width w. */
  function GetRegister(reg: int, w: int): (r: Register)
    requires 0 <= reg < 8 && 0 <= w < 2
    ensures r != RegNone
    ensures IsByteRegister(r) <==> w == 0
    ensures IsWordRegister(r) <==> w == 1
  {
    var registers := [[AL, AX], [CL, CX], [DL, DX], [BL, BX], [AH, SP], [CH, BP], [DH, SI], [BH, DI]];
    registers[reg][w]
  }

  /** The (reg, w) encoding of a named register: the inverse of GetRegister. */
  function RegisterCode(r: Register): (code: (int, int))
    requires r != RegNone
    ensures 0 <= code.0 < 8 && 0 <= code.1 < 2
  {
    match r
    case AL => (0, 0) case CL => (1, 0) case DL => (2, 0) case BL => (3, 0)
    case AH => (4, 0) case CH => (5, 0) case DH => (6, 0) case BH => (7, 0)
    case AX => (0, 1) case CX => (1, 1) case DX => (2, 1) case BX => (3, 1)
    case SP => (4, 1) case BP => (5, 1) case SI => (6, 1) case DI => (7, 1)
  }

  /** GetRegister is one-to-one: the field values are recovered from the register. */
  lemma GetRegisterInjective(reg: int, w: int)
    requires 0 <= reg < 8 && 0 <= w < 2
    ensures RegisterCode(GetRegister(reg, w)) == (reg, w)
  {
    assert reg == 0 || reg == 1 || reg == 2 || reg == 3 || reg == 4 || reg == 5 || reg == 6 || reg == 7;
  }

  /** GetRegister is onto: every named register is reached by some (reg, w). */
  lemma GetRegisterSurjective(r: Register)
    requires r != RegNone
    ensures GetRegister(RegisterCode(r).0, RegisterCode(r).1) == r
  {
  }

  /** The two base registers of the memory operand an r/m field selects;
      the second is RegNone for the single-base forms. */
  function GetEACalculationRegisters(rm: int): (bases: (Register, Register))
    requires 0 <= rm < 8
    ensures bases.0 == BX || bases.0 == BP || bases.0 == SI || bases.0 == DI
    ensures bases.1 == RegNone <==> rm >= 4
    ensures bases.1 != RegNone ==> (bases.0 == BX || bases.0 == BP) && (bases.1 == SI || bases.1 == DI)
  {
    var encoding := [(BX, SI), (BX, DI), (BP, SI), (BP, DI), (SI, RegNone), (DI, RegNone), (BP, RegNone), (BX, RegNone)];
    encoding[rm]
  }

  /** The assembler name of a register; RegNone names nothing. */
  function GetRegisterString(r: Register): (s: string)
    ensures s == [] <==> r == RegNone
    ensures r != RegNone ==> |s| == 2 && 'a' <= s[0] <= 'z' && 'a' <= s[1] <= 'z'
  {
    match r
    case AL => "al" case AX => "ax" case CL => "cl" case CX => "cx"
    case DL => "dl" case DX => "dx" case BL => "bl" case BX => "bx"
    case AH => "ah" case CH => "ch" case DH => "dh" case BH => "bh"
    case SP => "sp" case BP => "bp" case SI => "si" case DI => "di"
    case RegNone => ""
  }

  /** No two registers share a name, so a rendered name identifies its register. */
  lemma GetRegisterStringInjective(a: Register, b: Register)
    ensures GetRegisterString(a) == GetRegisterString(b) ==> a == b
  {
    if GetRegisterString(a) == GetRegisterString(b) && a != RegNone {
      var s := GetRegisterString(a);
      assert s[0] == GetRegisterString(b)[0] && s[1] == GetRegisterString(b)[1];
    }
  }
}
