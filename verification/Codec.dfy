/** Instruction encoders of the assembler and the decoder of the emulator.

Both sides transcribe the formats of sections 2.2 and 2.3 of The RISC-V Instruction Set Manual,
Volume I (document version 20191213), independently of each other: the encoders shift and combine
fields, the decoder shifts and masks them out again.  The main results are that each undoes the other.
*/
module Codec {
  import opened Words

  datatype Option<+T> = None | Some(value: T)

  // ----- assembler side: class Encoder -----

  function EncodeR(funct7: u32, rs2: u32, rs1: u32, funct3: u32, rd: u32, opcode: u32): u32
  {
    Or32(Or32(Or32(Or32(Or32(Shl(funct7, 25), Shl(rs2, 20)), Shl(rs1, 15)), Shl(funct3, 12)), Shl(rd, 7)), opcode)
  }

  function EncodeI(imm: i32, rs1: u32, funct3: u32, rd: u32, opcode: u32): u32
  {
    Or32(Or32(Or32(Or32(Shl(And32(Wrap(imm), 0xFFF), 20), Shl(rs1, 15)), Shl(funct3, 12)), Shl(rd, 7)), opcode)
  }

  function EncodeS(imm: i32, rs2: u32, rs1: u32, funct3: u32, opcode: u32): u32
  {
    Or32(Or32(Or32(Or32(Or32(Shl(And32(Wrap(imm), 0xFE0), 20), Shl(rs2, 20)), Shl(rs1, 15)), Shl(funct3, 12)),
              Shl(And32(Wrap(imm), 0x1F), 7)), opcode)
  }

  function EncodeB(imm: i32, rs2: u32, rs1: u32, funct3: u32, opcode: u32): u32
  {
    var u := Wrap(Sra(imm, 1));
    Or32(Or32(Or32(Or32(Or32(Or32(Or32(
      Shl(And32(Shr(u, 11), 0x1), 31),
      Shl(And32(Shr(u, 4), 0x3F), 25)),
      Shl(rs2, 20)), Shl(rs1, 15)),
      Shl(funct3, 12)),
      Shl(And32(u, 0xF), 8)),
      Shl(And32(Shr(u, 10), 0x1), 7)),
      opcode)
  }

  function EncodeU(imm: i32, rd: u32, opcode: u32): u32
  {
    Or32(Or32(And32(Wrap(imm), 0xFFFF_F000), Shl(rd, 7)), opcode)
  }

  function EncodeJ(imm: i32, rd: u32, opcode: u32): u32
  {
    var u := Wrap(Sra(imm, 1));
    Or32(Or32(Or32(Or32(Or32(
      Shl(And32(Shr(u, 19), 0x1), 31),
      Shl(And32(u, 0x3FF), 21)),
      Shl(And32(Shr(u, 10), 0x1), 20)),
      Shl(And32(Shr(u, 11), 0xFF), 12)),
      Shl(rd, 7)),
      opcode)
  }

  // ----- emulator side: class Instruction -----

  datatype Format = RType | IType | SType | BType | UType | JType

  datatype Instr = Instr(format: Format, raw: u32, opcode: u32, rd: u32, funct3: u32,
                         rs1: u32, rs2: u32, funct7: u32, imm: i32)

  function SignExtend(value: u32, bits: int): i32
  {
    if bits <= 0 || bits >= 32 then
      Signed(value)
    else
      var mask := Shl(1, bits - 1);
      WrapSigned(Signed(Xor32(value, mask)) - Signed(mask))
  }

  function ExtractBImm(w: u32): i32
  {
    var imm := Or32(Or32(Or32(
      Shl(And32(Shr(w, 31), 0x1), 12),
      Shl(And32(Shr(w, 7), 0x1), 11)),
      Shl(And32(Shr(w, 25), 0x3F), 5)),
      Shl(And32(Shr(w, 8), 0xF), 1));
    SignExtend(imm, 13)
  }

  function ExtractJImm(w: u32): i32
  {
    var imm := Or32(Or32(Or32(
      Shl(And32(Shr(w, 31), 0x1), 20),
      Shl(And32(Shr(w, 12), 0xFF), 12)),
      Shl(And32(Shr(w, 20), 0x1), 11)),
      Shl(And32(Shr(w, 21), 0x3FF), 1));
    SignExtend(imm, 21)
  }

  function ExtractSImm(w: u32): i32
  {
    SignExtend(Or32(Shl(And32(Shr(w, 25), 0x7F), 5), And32(Shr(w, 7), 0x1F)), 12)
  }

  /** The format selected by a major opcode; an opcode outside the table is not decoded. */
  function FormatOf(opcode: u32): Option<Format>
  {
    match opcode
    case 0x33 => Some(RType)
    case 0x03 => Some(IType)
    case 0x13 => Some(IType)
    case 0x67 => Some(IType)
    case 0x73 => Some(IType)
    case 0x23 => Some(SType)
    case 0x63 => Some(BType)
    case 0x37 => Some(UType)
    case 0x17 => Some(UType)
    case 0x6F => Some(JType)
    case _ => None
  }

  function ImmOf(format: Format, w: u32): i32
  {
    match format
    case RType => 0
    case IType => SignExtend(And32(Shr(w, 20), 0xFFF), 12)
    case SType => ExtractSImm(w)
    case BType => ExtractBImm(w)
    case UType => Signed(And32(w, 0xFFFF_F000))
    case JType => ExtractJImm(w)
  }

  function DecodeWord(w: u32): Option<Instr>
  {
    var opcode := And32(w, 0x7F);
    match FormatOf(opcode)
    case None => None
    case Some(format) =>
      Some(Instr(format, w, opcode,
                 And32(Shr(w, 7), 0x1F), And32(Shr(w, 12), 0x7), And32(Shr(w, 15), 0x1F),
                 And32(Shr(w, 20), 0x1F), And32(Shr(w, 25), 0x7F), ImmOf(format, w)))
  }

  /** The decoded-instruction object of the emulator. */
  class Instruction {
    var format: Format
    var raw: u32
    var imm: i32
    var opcode: u32
    var rd: u32
    var rs1: u32
    var rs2: u32
    var funct3: u32
    var funct7: u32

    constructor ()
    {
      format, raw, imm, opcode := RType, 0, 0, 0;
      rd, rs1, rs2, funct3, funct7 := 0, 0, 0, 0, 0;
    }

    function Fields(): Instr
      reads this
    {
      Instr(format, raw, opcode, rd, funct3, rs1, rs2, funct7, imm)
    }

    method Decode(instruction: u32) returns (ok: bool)
      modifies this
      ensures ok == DecodeWord(instruction).Some?
      ensures ok ==> Fields() == DecodeWord(instruction).value
    {
      hide And32, Shr, Or32, Shl, SignExtend, ExtractBImm, ExtractJImm;
      raw := instruction;
      imm := 0;
      opcode := And32(instruction, 0x7F);
      rd := And32(Shr(instruction, 7), 0x1F);
      funct3 := And32(Shr(instruction, 12), 0x7);
      rs1 := And32(Shr(instruction, 15), 0x1F);
      rs2 := And32(Shr(instruction, 20), 0x1F);
      funct7 := And32(Shr(instruction, 25), 0x7F);
      match opcode {
      case 0x33 =>
        format := RType;
        imm := 0;
      case 0x03 | 0x13 | 0x67 | 0x73 =>
        format := IType;
        imm := SignExtend(And32(Shr(instruction, 20), 0xFFF), 12);
      case 0x23 =>
        format := SType;
        imm := SignExtend(Or32(Shl(And32(Shr(instruction, 25), 0x7F), 5), And32(Shr(instruction, 7), 0x1F)), 12);
      case 0x63 =>
        format := BType;
        imm := ExtractBImm(instruction);
      case 0x37 | 0x17 =>
        format := UType;
        imm := Signed(And32(instruction, 0xFFFF_F000));
      case 0x6F =>
        format := JType;
        imm := ExtractJImm(instruction);
      case _ =>
        return false;
      }
      return true;
    }
  }

  // ----- arithmetic reading of the shift-and-mask code -----

  /** Combining a field with what has been packed above it is addition. */
  lemma OrField(acc: u32, f: u32, k: nat, weight: nat, above: nat, unit: nat)
    requires weight == Pow2(k) && unit == Pow2(above)
    requires acc % unit == 0 && f * weight < unit && acc + unit <= 0x1_0000_0000
    ensures Or32(acc, Shl(f, k)) == acc + f * weight
  {
    hide Pow2;
    ShlValue(f, k, weight);
    OrDisjoint(acc, f * weight, above);
  }

  lemma SignExtendValue(v: u32, bits: int)
    requires 1 <= bits < 32 && v < 2 * Pow2(bits - 1)
    ensures SignExtend(v, bits) == if v < Pow2(bits - 1) then v else v - 2 * Pow2(bits - 1)
  {
    Pow2Values();
    Pow2Monotonic(bits - 1, 30);
    assert Pow2(31) == 2 * Pow2(30);
    ShlValue(1, bits - 1, Pow2(bits - 1));
    XorTop(v, bits - 1);
  }

  ghost predicate InRange(rs2: u32, rs1: u32, funct3: u32, rd: u32, opcode: u32)
  {
    rs2 < 32 && rs1 < 32 && funct3 < 8 && rd < 32 && opcode < 128
  }

  /** Adding the three fields that the R, S and B formats share below bit 25. */
  lemma MiddleFields(top: nat, rs2: u32, rs1: u32, f3: u32)
    requires top < 128 && rs2 < 32 && rs1 < 32 && f3 < 8
    ensures Or32(Or32(Or32(top * 0x200_0000, Shl(rs2, 20)), Shl(rs1, 15)), Shl(f3, 12))
         == top * 0x200_0000 + rs2 * 0x10_0000 + rs1 * 0x8000 + f3 * 0x1000
  {
    hide Pow2, Shl, Or32;
    Pow2Values();
    var a := top * 0x200_0000;
    OrField(a, rs2, 20, 0x10_0000, 25, 0x200_0000);
    var b := a + rs2 * 0x10_0000;
    OrField(b, rs1, 15, 0x8000, 20, 0x10_0000);
    var c := b + rs1 * 0x8000;
    OrField(c, f3, 12, 0x1000, 15, 0x8000);
  }

  lemma OrOpcode(acc: u32, opcode: u32)
    requires acc % 128 == 0 && opcode < 128
    ensures Or32(acc, opcode) == acc + opcode
  {
    Pow2Values();
    OrDisjoint(acc, opcode, 7);
  }

  /** Adding the destination field and the opcode below bit 12. */
  lemma LowFields(high: nat, rd: u32, opcode: u32)
    requires high < 0x10_0000 && rd < 32 && opcode < 128
    ensures Or32(Or32(high * 0x1000, Shl(rd, 7)), opcode) == high * 0x1000 + rd * 0x80 + opcode
  {
    hide Pow2, Shl, Or32;
    Pow2Values();
    OrField(high * 0x1000, rd, 7, 0x80, 12, 0x1000);
    OrOpcode((high * 32 + rd) * 0x80, opcode);
  }

  /** The 32-bit word made of six fields in the positions common to the R, I, S and B formats. */
  ghost function Packed(f7: int, rs2: int, rs1: int, f3: int, rd: int, opcode: int): int
  {
    f7 * 0x200_0000 + rs2 * 0x10_0000 + rs1 * 0x8000 + f3 * 0x1000 + rd * 0x80 + opcode
  }

  /** `x & (2^b - 1)` for the field widths in use. */
  lemma MaskValue(x: u32)
    ensures And32(x, 0x1) == x % 2 && And32(x, 0x7) == x % 8 && And32(x, 0xF) == x % 16
    ensures And32(x, 0x1F) == x % 32 && And32(x, 0x3F) == x % 64 && And32(x, 0x7F) == x % 128
    ensures And32(x, 0xFF) == x % 256 && And32(x, 0x3FF) == x % 1024 && And32(x, 0xFFF) == x % 4096
  {
    hide Pow2, And;
    Pow2Values();
    AndMask(x, 1); AndMask(x, 3); AndMask(x, 4); AndMask(x, 5); AndMask(x, 6); AndMask(x, 7);
    AndMask(x, 8); AndMask(x, 10); AndMask(x, 12);
  }

  /** `x & mask` for the two masks whose low bits are zero. */
  lemma HighMaskValue(x: u32)
    ensures And32(x, 0xFE0) == x / 32 % 128 * 32
    ensures And32(x, 0xFFFF_F000) == x / 4096 * 4096
  {
    hide Pow2, And;
    Pow2Values();
    AndHigh(x, 127, 5);
    AndMask(x / 32, 7);
    AndHigh(x, 0xF_FFFF, 12);
    AndMask(x / 4096, 20);
  }

  lemma ShrValues(w: u32)
    ensures Shr(w, 7) == w / 0x80 && Shr(w, 12) == w / 0x1000 && Shr(w, 15) == w / 0x8000
    ensures Shr(w, 20) == w / 0x10_0000 && Shr(w, 25) == w / 0x200_0000 && Shr(w, 31) == w / 0x8000_0000
    ensures Shr(w, 8) == w / 0x100 && Shr(w, 21) == w / 0x20_0000 && Shr(w, 4) == w / 0x10
    ensures Shr(w, 10) == w / 0x400 && Shr(w, 11) == w / 0x800 && Shr(w, 19) == w / 0x8_0000
  {
    hide Pow2;
    Pow2Values();
  }

  // ----- the words the encoders produce -----

  lemma EncodeRValue(f7: u32, rs2: u32, rs1: u32, f3: u32, rd: u32, opcode: u32)
    requires f7 < 128 && InRange(rs2, rs1, f3, rd, opcode)
    ensures EncodeR(f7, rs2, rs1, f3, rd, opcode) == Packed(f7, rs2, rs1, f3, rd, opcode)
  {
    hide Pow2, Shl, Or32;
    Pow2Values();
    ShlValue(f7, 25, 0x200_0000);
    MiddleFields(f7, rs2, rs1, f3);
    LowFields(f7 * 0x2000 + rs2 * 0x100 + rs1 * 8 + f3, rd, opcode);
  }

  lemma EncodeIValue(imm: i32, rs1: u32, f3: u32, rd: u32, opcode: u32)
    requires InRange(0, rs1, f3, rd, opcode)
    ensures var v := Wrap(imm) % 4096;
      EncodeI(imm, rs1, f3, rd, opcode) == Packed(v / 32, v % 32, rs1, f3, rd, opcode)
  {
    hide Pow2, Shl, Or32, And32, Wrap;
    Pow2Values();
    MaskValue(Wrap(imm));
    var v := Wrap(imm) % 4096;
    ShlValue(v, 20, 0x10_0000);
    OrField(v * 0x10_0000, rs1, 15, 0x8000, 20, 0x10_0000);
    OrField(v * 0x10_0000 + rs1 * 0x8000, f3, 12, 0x1000, 15, 0x8000);
    LowFields(v * 0x100 + rs1 * 8 + f3, rd, opcode);
  }

  lemma EncodeSValue(imm: i32, rs2: u32, rs1: u32, f3: u32, opcode: u32)
    requires InRange(rs2, rs1, f3, 0, opcode)
    ensures var v := Wrap(imm) % 4096;
      EncodeS(imm, rs2, rs1, f3, opcode) == Packed(v / 32, rs2, rs1, f3, v % 32, opcode)
  {
    hide Pow2, Shl, Or32, And32, Packed;
    MaskValue(Wrap(imm));
    HighMaskValue(Wrap(imm));
    var w := Wrap(imm);
    SplitLow12(w);
    PackS(w / 32 % 128, rs2, rs1, f3, w % 32, opcode);
  }

  /** The two pieces of a 12-bit immediate, taken directly or after reduction to 12 bits. */
  lemma SplitLow12(w: nat)
    ensures w % 4096 / 32 == w / 32 % 128 && w % 4096 % 32 == w % 32
  {
    DivDiv(w, 32, 128);
    DivModUnique(w, 4096, w / 4096, w / 32 % 128 * 32 + w % 32);
    DivModUnique(w % 4096, 32, w / 32 % 128, w % 32);
  }

  lemma PackS(hi: u32, rs2: u32, rs1: u32, f3: u32, lo: u32, opcode: u32)
    requires hi < 128 && InRange(rs2, rs1, f3, lo, opcode)
    ensures Or32(Or32(Or32(Or32(Or32(Shl(hi * 32, 20), Shl(rs2, 20)), Shl(rs1, 15)), Shl(f3, 12)), Shl(lo, 7)), opcode)
         == Packed(hi, rs2, rs1, f3, lo, opcode)
  {
    hide Pow2, Shl, Or32;
    Pow2Values();
    ShlValue(hi * 32, 20, 0x10_0000);
    MiddleFields(hi, rs2, rs1, f3);
    LowFields(hi * 0x2000 + rs2 * 0x100 + rs1 * 8 + f3, lo, opcode);
  }

  lemma EncodeBValue(imm: i32, rs2: u32, rs1: u32, f3: u32, opcode: u32)
    requires InRange(rs2, rs1, f3, 0, opcode)
    ensures var u := Wrap(imm / 2);
      EncodeB(imm, rs2, rs1, f3, opcode)
      == Packed(u / 0x800 % 2 * 64 + u / 0x10 % 64, rs2, rs1, f3, u % 16 * 2 + u / 0x400 % 2, opcode)
  {
    hide Pow2, Shl, Shr, Or32, And32, Packed;
    Pow2Values();
    var u := Wrap(imm / 2);
    assert Sra(imm, 1) == imm / 2;
    ShrValues(u);
    MaskValue(u); MaskValue(u / 0x800); MaskValue(u / 0x10); MaskValue(u / 0x400);
    PackB(u / 0x800 % 2, u / 0x10 % 64, rs2, rs1, f3, u % 16, u / 0x400 % 2, opcode);
  }

  lemma PackB(hi: u32, mid: u32, rs2: u32, rs1: u32, f3: u32, lo: u32, b11: u32, opcode: u32)
    requires hi < 2 && mid < 64 && lo < 16 && b11 < 2 && InRange(rs2, rs1, f3, 0, opcode)
    ensures Or32(Or32(Or32(Or32(Or32(Or32(Or32(Shl(hi, 31), Shl(mid, 25)), Shl(rs2, 20)), Shl(rs1, 15)),
                 Shl(f3, 12)), Shl(lo, 8)), Shl(b11, 7)), opcode)
         == Packed(hi * 64 + mid, rs2, rs1, f3, lo * 2 + b11, opcode)
  {
    hide Pow2, Shl, Or32;
    Pow2Values();
    ShlValue(hi, 31, 0x8000_0000);
    OrField(hi * 0x8000_0000, mid, 25, 0x200_0000, 31, 0x8000_0000);
    MiddleFields(hi * 64 + mid, rs2, rs1, f3);
    var d := (hi * 64 + mid) * 0x200_0000 + rs2 * 0x10_0000 + rs1 * 0x8000 + f3 * 0x1000;
    OrField(d, lo, 8, 0x100, 12, 0x1000);
    OrField(d + lo * 0x100, b11, 7, 0x80, 8, 0x100);
    OrOpcode(d + lo * 0x100 + b11 * 0x80, opcode);
  }

  lemma EncodeUValue(imm: i32, rd: u32, opcode: u32)
    requires InRange(0, 0, 0, rd, opcode)
    ensures EncodeU(imm, rd, opcode) == Wrap(imm) / 4096 * 4096 + rd * 0x80 + opcode
  {
    hide Or32, And32, Shl;
    HighMaskValue(Wrap(imm));
    LowFields(Wrap(imm) / 4096, rd, opcode);
  }

  /** The J-format word: immediate bits 20, 10-1, 11 and 19-12 from the top, then `rd` and the opcode. */
  ghost function PackedJ(hi: int, low: int, b11: int, mid: int, rd: int, opcode: int): int
  {
    hi * 0x8000_0000 + low * 0x20_0000 + b11 * 0x10_0000 + mid * 0x1000 + rd * 0x80 + opcode
  }

  lemma EncodeJValue(imm: i32, rd: u32, opcode: u32)
    requires InRange(0, 0, 0, rd, opcode)
    ensures var u := Wrap(imm / 2);
      EncodeJ(imm, rd, opcode)
      == PackedJ(u / 0x8_0000 % 2, u % 1024, u / 0x400 % 2, u / 0x800 % 256, rd, opcode)
  {
    hide Pow2, Shl, Shr, Or32, And32, PackedJ;
    Pow2Values();
    var u := Wrap(imm / 2);
    assert Sra(imm, 1) == imm / 2;
    ShrValues(u);
    MaskValue(u); MaskValue(u / 0x8_0000); MaskValue(u / 0x400); MaskValue(u / 0x800);
    PackJ(u / 0x8_0000 % 2, u % 1024, u / 0x400 % 2, u / 0x800 % 256, rd, opcode);
  }

  lemma PackJ(hi: u32, low: u32, b11: u32, mid: u32, rd: u32, opcode: u32)
    requires hi < 2 && low < 1024 && b11 < 2 && mid < 256 && rd < 32 && opcode < 128
    ensures Or32(Or32(Or32(Or32(Or32(Shl(hi, 31), Shl(low, 21)), Shl(b11, 20)), Shl(mid, 12)), Shl(rd, 7)), opcode)
         == PackedJ(hi, low, b11, mid, rd, opcode)
  {
    hide Pow2, Shl, Or32;
    Pow2Values();
    ShlValue(hi, 31, 0x8000_0000);
    OrField(hi * 0x8000_0000, low, 21, 0x20_0000, 31, 0x8000_0000);
    var a := (hi * 0x400 + low) * 0x20_0000;
    OrField(a, b11, 20, 0x10_0000, 21, 0x20_0000);
    var b := (hi * 0x800 + low * 2 + b11) * 0x10_0000;
    OrField(b, mid, 12, 0x1000, 20, 0x10_0000);
    LowFields(hi * 0x8_0000 + low * 0x200 + b11 * 0x100 + mid, rd, opcode);
  }

  // ----- decoding -----

  /** The six fixed-position fields of a packed word. */
  lemma FieldsOfPacked(w: u32, f7: int, rs2: int, rs1: int, f3: int, rd: int, opcode: int)
    requires 0 <= f7 < 128 && 0 <= rs2 < 32 && 0 <= rs1 < 32 && 0 <= f3 < 8 && 0 <= rd < 32 && 0 <= opcode < 128
    requires w == Packed(f7, rs2, rs1, f3, rd, opcode)
    ensures w / 0x200_0000 == f7 && w / 0x10_0000 == f7 * 32 + rs2
    ensures w / 0x10_0000 % 32 == rs2 && w / 0x8000 % 32 == rs1 && w / 0x1000 % 8 == f3
    ensures w / 0x80 % 32 == rd && w % 128 == opcode
  {
    var v20 := f7 * 32 + rs2;
    var v15 := v20 * 32 + rs1;
    var v12 := v15 * 8 + f3;
    var v7 := v12 * 32 + rd;
    DivModUnique(w, 128, v7, opcode);
    DivModUnique(w, 0x1000, v12, rd * 0x80 + opcode);
    DivModUnique(w, 0x8000, v15, f3 * 0x1000 + rd * 0x80 + opcode);
    DivModUnique(w, 0x10_0000, v20, rs1 * 0x8000 + f3 * 0x1000 + rd * 0x80 + opcode);
    DivModUnique(w, 0x200_0000, f7, rs2 * 0x10_0000 + rs1 * 0x8000 + f3 * 0x1000 + rd * 0x80 + opcode);
    DivModUnique(v7, 32, v12, rd);
    DivModUnique(v12, 8, v15, f3);
    DivModUnique(v15, 32, v20, rs1);
    DivModUnique(v20, 32, f7, rs2);
  }

  /** Every word is packed from its own fields. */
  lemma PackedOfFields(w: u32)
    ensures w == Packed(w / 0x200_0000, w / 0x10_0000 % 32, w / 0x8000 % 32, w / 0x1000 % 8, w / 0x80 % 32, w % 128)
    ensures w / 0x200_0000 < 128
  {
    DivDiv(w, 0x80, 32);
    DivDiv(w, 0x1000, 8);
    DivDiv(w, 0x8000, 32);
    DivDiv(w, 0x10_0000, 32);
  }

  lemma DivDiv(w: nat, a: nat, b: nat)
    requires a > 0 && b > 0
    ensures a * b > 0 && w / (a * b) == (w / a) / b
    ensures w / a == b * (w / (a * b)) + w / a % b
  {
    var q, m, r := w / a / b, w / a % b, w % a;
    var v := b * q + m;
    assert w == a * v + r;
    assert a * v == (a * b) * q + a * m;
    MulMonotonic(a, m, b - 1);
    assert a * (b - 1) == a * b - a;
    DivModUnique(w, a * b, q, a * m + r);
  }

  /** What `DecodeWord` extracts, with shifts and masks read as division and remainder. */
  lemma DecodeFields(w: u32)
    ensures DecodeWord(w) == match FormatOf(w % 128)
      case None => None
      case Some(format) =>
        Some(Instr(format, w, w % 128, w / 0x80 % 32, w / 0x1000 % 8, w / 0x8000 % 32,
                   w / 0x10_0000 % 32, w / 0x200_0000, ImmOf(format, w)))
  {
    hide And32, Shr, ImmOf, FormatOf;
    ShrValues(w);
    assert w / 0x200_0000 < 128;
    MaskValue(w); MaskValue(w / 0x80); MaskValue(w / 0x1000); MaskValue(w / 0x8000);
    MaskValue(w / 0x10_0000); MaskValue(w / 0x200_0000);
  }

  // ----- immediates -----

  /** Two's-complement reading of a value below `2 * half`. */
  ghost function Center(v: int, half: int): int
  {
    if v < half then v else v - 2 * half
  }

  lemma ImmIValue(w: u32)
    ensures ImmOf(IType, w) == Center(w / 0x10_0000, 0x800)
  {
    hide And32, Shr, SignExtend, Pow2;
    Pow2Values();
    ShrValues(w);
    MaskValue(w / 0x10_0000);
    SignExtendValue(w / 0x10_0000, 12);
  }

  lemma ImmSValue(w: u32)
    ensures ImmOf(SType, w) == Center(w / 0x200_0000 * 32 + w / 0x80 % 32, 0x800)
  {
    hide And32, Or32, Shr, Shl, SignExtend, Pow2;
    ShrValues(w);
    var hi, lo := w / 0x200_0000, w / 0x80 % 32;
    assert hi < 128;
    MaskValue(hi);
    MaskValue(w / 0x80);
    OrImmS(hi, lo);
  }

  lemma OrImmS(hi: u32, lo: u32)
    requires hi < 128 && lo < 32
    ensures SignExtend(Or32(Shl(hi, 5), lo), 12) == Center(hi * 32 + lo, 0x800)
  {
    hide Shl, SignExtend, Pow2;
    Pow2Values();
    ShlValue(hi, 5, 32);
    OrDisjoint(hi * 32, lo, 5);
    SignExtendValue(hi * 32 + lo, 12);
  }

  lemma ImmBValue(w: u32)
    ensures ImmOf(BType, w)
         == Center(w / 0x8000_0000 * 0x1000 + w / 0x80 % 2 * 0x800 + w / 0x200_0000 % 64 * 32 + w / 0x100 % 16 * 2, 0x1000)
  {
    hide And32, Or32, Shr, Shl, SignExtend, Pow2;
    Pow2Values();
    ShrValues(w);
    var hi := w / 0x8000_0000;
    assert hi < 2;
    MaskValue(hi);
    MaskValue(w / 0x80); MaskValue(w / 0x200_0000); MaskValue(w / 0x100);
    OrImmB(hi, w / 0x80 % 2, w / 0x200_0000 % 64, w / 0x100 % 16);
  }

  lemma OrImmB(hi: u32, b11: u32, mid: u32, lo: u32)
    requires hi < 2 && b11 < 2 && mid < 64 && lo < 16
    ensures SignExtend(Or32(Or32(Or32(Shl(hi, 12), Shl(b11, 11)), Shl(mid, 5)), Shl(lo, 1)), 13)
         == Center(hi * 0x1000 + b11 * 0x800 + mid * 32 + lo * 2, 0x1000)
  {
    hide Or32, Shl, SignExtend, Pow2;
    Pow2Values();
    ShlValue(hi, 12, 0x1000);
    OrField(hi * 0x1000, b11, 11, 0x800, 12, 0x1000);
    OrField((hi * 2 + b11) * 0x800, mid, 5, 32, 11, 0x800);
    OrField((hi * 128 + b11 * 64 + mid) * 32, lo, 1, 2, 5, 32);
    SignExtendValue(hi * 0x1000 + b11 * 0x800 + mid * 32 + lo * 2, 13);
  }

  lemma ImmJValue(w: u32)
    ensures ImmOf(JType, w)
         == Center(w / 0x8000_0000 * 0x10_0000 + w / 0x1000 % 256 * 0x1000 + w / 0x10_0000 % 2 * 0x800
                   + w / 0x20_0000 % 1024 * 2, 0x10_0000)
  {
    hide And32, Or32, Shr, Shl, SignExtend, Pow2;
    Pow2Values();
    ShrValues(w);
    var hi := w / 0x8000_0000;
    assert hi < 2;
    MaskValue(hi);
    MaskValue(w / 0x1000); MaskValue(w / 0x10_0000); MaskValue(w / 0x20_0000);
    OrImmJ(hi, w / 0x1000 % 256, w / 0x10_0000 % 2, w / 0x20_0000 % 1024);
  }

  lemma OrImmJ(hi: u32, mid: u32, b11: u32, low: u32)
    requires hi < 2 && mid < 256 && b11 < 2 && low < 1024
    ensures SignExtend(Or32(Or32(Or32(Shl(hi, 20), Shl(mid, 12)), Shl(b11, 11)), Shl(low, 1)), 21)
         == Center(hi * 0x10_0000 + mid * 0x1000 + b11 * 0x800 + low * 2, 0x10_0000)
  {
    hide Or32, Shl, SignExtend, Pow2;
    Pow2Values();
    ShlValue(hi, 20, 0x10_0000);
    OrField(hi * 0x10_0000, mid, 12, 0x1000, 20, 0x10_0000);
    OrField((hi * 256 + mid) * 0x1000, b11, 11, 0x800, 12, 0x1000);
    OrField((hi * 512 + mid * 2 + b11) * 0x800, low, 1, 2, 11, 0x800);
    SignExtendValue(hi * 0x10_0000 + mid * 0x1000 + b11 * 0x800 + low * 2, 21);
  }

  lemma ImmUValue(w: u32)
    ensures ImmOf(UType, w) == Signed(w / 4096 * 4096)
  {
    HighMaskValue(w);
  }

  // ----- the decoder inverts every encoder -----

  lemma DecodeEncodeR(f7: u32, rs2: u32, rs1: u32, f3: u32, rd: u32)
    requires f7 < 128 && InRange(rs2, rs1, f3, rd, 0x33)
    ensures var w := EncodeR(f7, rs2, rs1, f3, rd, 0x33);
      DecodeWord(w) == Some(Instr(RType, w, 0x33, rd, f3, rs1, rs2, f7, 0))
  {
    hide EncodeR, Packed, DecodeWord;
    var w := EncodeR(f7, rs2, rs1, f3, rd, 0x33);
    EncodeRValue(f7, rs2, rs1, f3, rd, 0x33);
    FieldsOfPacked(w, f7, rs2, rs1, f3, rd, 0x33);
    DecodeFields(w);
  }

  /** Reducing a signed 12-bit immediate to its bits and reading them back. */
  lemma Center12(imm: i32)
    requires -0x800 <= imm < 0x800
    ensures Center(Wrap(imm) % 0x1000, 0x800) == imm
  {
    if imm < 0 {
      DivModUnique(imm + 0x1_0000_0000, 0x1000, 0xfffff, imm + 0x1000);
    }
  }

  lemma DecodeEncodeI(imm: i32, rs1: u32, f3: u32, rd: u32, opcode: u32)
    requires -0x800 <= imm < 0x800 && InRange(0, rs1, f3, rd, opcode)
    requires FormatOf(opcode) == Some(IType)
    ensures var w := EncodeI(imm, rs1, f3, rd, opcode);
      DecodeWord(w) == Some(Instr(IType, w, opcode, rd, f3, rs1, Wrap(imm) % 32, Wrap(imm) / 32 % 128, imm))
  {
    hide EncodeI, Packed, DecodeWord, ImmOf;
    var w, v := EncodeI(imm, rs1, f3, rd, opcode), Wrap(imm) % 4096;
    EncodeIValue(imm, rs1, f3, rd, opcode);
    SplitLow12(Wrap(imm));
    FieldsOfPacked(w, v / 32, v % 32, rs1, f3, rd, opcode);
    DecodeFields(w);
    ImmIValue(w);
    Center12(imm);
  }

  /** The shift-immediate instructions are packed by `EncodeR` but carry an I-format opcode. */
  lemma DecodeEncodeShift(f7: u32, shamt: u32, rs1: u32, f3: u32, rd: u32)
    requires f7 < 64 && InRange(shamt, rs1, f3, rd, 0x13)
    ensures var w := EncodeR(f7, shamt, rs1, f3, rd, 0x13);
      DecodeWord(w) == Some(Instr(IType, w, 0x13, rd, f3, rs1, shamt, f7, f7 * 32 + shamt))
  {
    hide EncodeR, Packed, DecodeWord, ImmOf;
    var w := EncodeR(f7, shamt, rs1, f3, rd, 0x13);
    EncodeRValue(f7, shamt, rs1, f3, rd, 0x13);
    FieldsOfPacked(w, f7, shamt, rs1, f3, rd, 0x13);
    DecodeFields(w);
    ImmIValue(w);
  }

  lemma DecodeEncodeS(imm: i32, rs2: u32, rs1: u32, f3: u32)
    requires -0x800 <= imm < 0x800 && InRange(rs2, rs1, f3, 0, 0x23)
    ensures var w := EncodeS(imm, rs2, rs1, f3, 0x23);
      DecodeWord(w) == Some(Instr(SType, w, 0x23, Wrap(imm) % 32, f3, rs1, rs2, Wrap(imm) / 32 % 128, imm))
  {
    hide EncodeS, Packed, DecodeWord, ImmOf;
    var w, v := EncodeS(imm, rs2, rs1, f3, 0x23), Wrap(imm) % 4096;
    EncodeSValue(imm, rs2, rs1, f3, 0x23);
    SplitLow12(Wrap(imm));
    FieldsOfPacked(w, v / 32, rs2, rs1, f3, v % 32, 0x23);
    DecodeFields(w);
    ImmSValue(w);
    Center12(imm);
  }

  /** The scrambled branch offset: `u` halves cut into four pieces and put together again. */
  lemma BranchPieces(u: nat)
    ensures u % 0x1000 == u / 0x800 % 2 * 0x800 + u / 0x400 % 2 * 0x400 + u / 0x10 % 64 * 0x10 + u % 16
  {
    DivDiv(u, 16, 64);
    DivDiv(u, 0x400, 2);
    DivDiv(u, 0x800, 2);
  }

  lemma JumpPieces(u: nat)
    ensures u % 0x10_0000
         == u / 0x8_0000 % 2 * 0x8_0000 + u / 0x800 % 256 * 0x800 + u / 0x400 % 2 * 0x400 + u % 0x400
  {
    DivDiv(u, 0x400, 2);
    DivDiv(u, 0x800, 256);
    DivDiv(u, 0x8_0000, 2);
  }

  lemma DecodeEncodeB(imm: i32, rs2: u32, rs1: u32, f3: u32)
    requires -0x1000 <= imm <= 0xFFE && imm % 2 == 0 && InRange(rs2, rs1, f3, 0, 0x63)
    ensures var w := EncodeB(imm, rs2, rs1, f3, 0x63);
      var d := DecodeWord(w);
      d.Some? && d.value.format == BType && d.value.opcode == 0x63
      && d.value.funct3 == f3 && d.value.rs1 == rs1 && d.value.rs2 == rs2 && d.value.imm == imm
  {
    hide EncodeB, Packed, DecodeWord, ImmOf;
    var w, u := EncodeB(imm, rs2, rs1, f3, 0x63), Wrap(imm / 2);
    var hi, mid, lo, b11 := u / 0x800 % 2, u / 0x10 % 64, u % 16, u / 0x400 % 2;
    EncodeBValue(imm, rs2, rs1, f3, 0x63);
    FieldsOfPacked(w, hi * 64 + mid, rs2, rs1, f3, lo * 2 + b11, 0x63);
    DecodeFields(w);
    ImmBValue(w);
    BranchBits(w, hi, mid, lo, b11);
    BranchPieces(u);
    CenterHalf13(imm);
  }

  /** The four pieces of the branch offset sit in the `funct7` and `rd` positions. */
  lemma BranchBits(w: u32, hi: int, mid: int, lo: int, b11: int)
    requires 0 <= hi < 2 && 0 <= mid < 64 && 0 <= lo < 16 && 0 <= b11 < 2
    requires w / 0x200_0000 == hi * 64 + mid && w / 0x80 % 32 == lo * 2 + b11
    ensures w / 0x8000_0000 == hi && w / 0x200_0000 % 64 == mid && w / 0x100 % 16 == lo && w / 0x80 % 2 == b11
  {
    DivDiv(w, 0x200_0000, 64);
    DivModUnique(hi * 64 + mid, 64, hi, mid);
    DivDiv(w, 0x80, 2);
    var v := w / 0x80;
    assert v == v / 32 * 32 + (lo * 2 + b11);
    DivModUnique(v, 2, v / 32 * 16 + lo, b11);
    DivModUnique(v / 32 * 16 + lo, 16, v / 32, lo);
  }

  /** Halving an even offset, reducing it to its bits, and reading them back. */
  lemma CenterHalf13(imm: i32)
    requires imm % 2 == 0 && -0x1000 <= imm < 0x1000
    ensures Center(2 * (Wrap(imm / 2) % 0x1000), 0x1000) == imm
  {
  }

  lemma CenterHalf21(imm: i32)
    requires imm % 2 == 0 && -0x10_0000 <= imm < 0x10_0000
    ensures Center(2 * (Wrap(imm / 2) % 0x10_0000), 0x10_0000) == imm
  {
  }

  /** The parts of a U- or J-format word. */
  lemma UpperParts(w: u32, v: int, rd: int, opcode: int)
    requires 0 <= v && 0 <= rd < 32 && 0 <= opcode < 128 && w == v * 0x1000 + rd * 0x80 + opcode
    ensures w / 0x1000 == v && w / 0x80 % 32 == rd && w % 128 == opcode
  {
    DivModUnique(w, 0x80, v * 32 + rd, opcode);
    DivModUnique(w, 0x1000, v, rd * 0x80 + opcode);
    DivModUnique(v * 32 + rd, 32, v, rd);
  }

  lemma DecodeEncodeU(imm: i32, rd: u32, opcode: u32)
    requires imm % 0x1000 == 0 && rd < 32 && FormatOf(opcode) == Some(UType)
    ensures var w := EncodeU(imm, rd, opcode);
      var d := DecodeWord(w);
      d.Some? && d.value.format == UType && d.value.opcode == opcode && d.value.rd == rd && d.value.imm == imm
  {
    hide EncodeU, DecodeWord, ImmOf;
    var w, v := EncodeU(imm, rd, opcode), Wrap(imm) / 4096;
    assert v * 4096 == Wrap(imm);
    EncodeUValue(imm, rd, opcode);
    UpperParts(w, v, rd, opcode);
    DecodeFields(w);
    ImmUValue(w);
  }

  lemma DecodeEncodeJ(imm: i32, rd: u32)
    requires -0x10_0000 <= imm <= 0xF_FFFE && imm % 2 == 0 && rd < 32
    ensures var w := EncodeJ(imm, rd, 0x6F);
      var d := DecodeWord(w);
      d.Some? && d.value.format == JType && d.value.opcode == 0x6F && d.value.rd == rd && d.value.imm == imm
  {
    hide EncodeJ, DecodeWord, ImmOf;
    var w, u := EncodeJ(imm, rd, 0x6F), Wrap(imm / 2);
    var hi, low, b11, mid := u / 0x8_0000 % 2, u % 0x400, u / 0x400 % 2, u / 0x800 % 256;
    EncodeJValue(imm, rd, 0x6F);
    var v := ((hi * 0x400 + low) * 2 + b11) * 256 + mid;
    UpperParts(w, v, rd, 0x6F);
    JumpBits(w, hi, low, b11, mid);
    DecodeFields(w);
    ImmJValue(w);
    JumpPieces(u);
    CenterHalf21(imm);
  }

  lemma JumpBits(w: u32, hi: int, low: int, b11: int, mid: int)
    requires 0 <= hi < 2 && 0 <= low < 0x400 && 0 <= b11 < 2 && 0 <= mid < 256
    requires w / 0x1000 == ((hi * 0x400 + low) * 2 + b11) * 256 + mid
    ensures w / 0x8000_0000 == hi && w / 0x20_0000 % 1024 == low
    ensures w / 0x10_0000 % 2 == b11 && w / 0x1000 % 256 == mid
  {
    var v20 := (hi * 0x400 + low) * 2 + b11;
    DivDiv(w, 0x1000, 256);
    DivModUnique(w / 0x1000, 256, v20, mid);
    DivDiv(w, 0x10_0000, 2);
    DivModUnique(v20, 2, hi * 0x400 + low, b11);
    DivDiv(w, 0x20_0000, 0x400);
    DivModUnique(hi * 0x400 + low, 0x400, hi, low);
  }

  // ----- the encoders invert the decoder -----

  /** Re-encoding a decoded instruction with the encoder of its format. */
  function Reencode(d: Instr): u32
  {
    match d.format
    case RType => EncodeR(d.funct7, d.rs2, d.rs1, d.funct3, d.rd, d.opcode)
    case IType => EncodeI(d.imm, d.rs1, d.funct3, d.rd, d.opcode)
    case SType => EncodeS(d.imm, d.rs2, d.rs1, d.funct3, d.opcode)
    case BType => EncodeB(d.imm, d.rs2, d.rs1, d.funct3, d.opcode)
    case UType => EncodeU(d.imm, d.rd, d.opcode)
    case JType => EncodeJ(d.imm, d.rd, d.opcode)
  }

  /** No bit of a decodable word is lost. */
  lemma EncodeDecode(w: u32)
    requires DecodeWord(w).Some?
    ensures Reencode(DecodeWord(w).value) == w
  {
    hide EncodeR, EncodeI, EncodeS, EncodeB, EncodeU, EncodeJ, DecodeWord, ImmOf, FormatOf;
    DecodeFields(w);
    PackedOfFields(w);
    var f7, rs2, rs1, f3, rd, opcode :=
      w / 0x200_0000, w / 0x10_0000 % 32, w / 0x8000 % 32, w / 0x1000 % 8, w / 0x80 % 32, w % 128;
    match DecodeWord(w).value.format
    case RType => EncodeRValue(f7, rs2, rs1, f3, rd, opcode);
    case IType => ReencodeI(w);
    case SType => ReencodeS(w);
    case BType => ReencodeB(w);
    case UType => ReencodeU(w);
    case JType => ReencodeJ(w);
  }

  lemma ReencodeI(w: u32)
    ensures EncodeI(ImmOf(IType, w), w / 0x8000 % 32, w / 0x1000 % 8, w / 0x80 % 32, w % 128) == w
  {
    hide EncodeI, ImmOf, Packed;
    ImmIValue(w);
    PackedOfFields(w);
    var v := w / 0x10_0000;
    LowBitsOfCenter12(v);
    DivDiv(w, 0x10_0000, 32);
    EncodeIValue(ImmOf(IType, w), w / 0x8000 % 32, w / 0x1000 % 8, w / 0x80 % 32, w % 128);
  }

  /** Centring keeps the low bits: for a 12-bit value, and for doubled 12- and 20-bit values. */
  lemma LowBitsOfCenter12(v: int)
    requires 0 <= v < 0x1000
    ensures Wrap(Center(v, 0x800)) % 0x1000 == v
  {
  }

  lemma LowBitsOfCenter13(h: int)
    requires 0 <= h < 0x1000
    ensures Wrap(Center(2 * h, 0x1000) / 2) % 0x1000 == h
  {
  }

  lemma LowBitsOfCenter21(h: int)
    requires 0 <= h < 0x10_0000
    ensures Wrap(Center(2 * h, 0x10_0000) / 2) % 0x10_0000 == h
  {
  }

  lemma ReencodeS(w: u32)
    ensures EncodeS(ImmOf(SType, w), w / 0x10_0000 % 32, w / 0x8000 % 32, w / 0x1000 % 8, w % 128) == w
  {
    hide EncodeS, ImmOf, Packed;
    ImmSValue(w);
    PackedOfFields(w);
    var hi, lo := w / 0x200_0000, w / 0x80 % 32;
    LowBitsOfCenter12(hi * 32 + lo);
    DivModUnique(hi * 32 + lo, 32, hi, lo);
    EncodeSValue(ImmOf(SType, w), w / 0x10_0000 % 32, w / 0x8000 % 32, w / 0x1000 % 8, w % 128);
  }

  lemma ReencodeB(w: u32)
    ensures EncodeB(ImmOf(BType, w), w / 0x10_0000 % 32, w / 0x8000 % 32, w / 0x1000 % 8, w % 128) == w
  {
    hide EncodeB, ImmOf, Packed;
    PackedOfFields(w);
    BranchImmBits(w);
    FieldOfPair(w);
    EncodeBValue(ImmOf(BType, w), w / 0x10_0000 % 32, w / 0x8000 % 32, w / 0x1000 % 8, w % 128);
  }

  /** The decoded branch offset, halved, still has the scattered bits of the word as its pieces. */
  lemma BranchImmBits(w: u32)
    ensures var u := Wrap(ImmOf(BType, w) / 2);
      u / 0x800 % 2 == w / 0x8000_0000 && u / 0x400 % 2 == w / 0x80 % 2
      && u / 0x10 % 64 == w / 0x200_0000 % 64 && u % 16 == w / 0x100 % 16
  {
    hide ImmOf;
    ImmBValue(w);
    var hi, b11, mid, lo := w / 0x8000_0000, w / 0x80 % 2, w / 0x200_0000 % 64, w / 0x100 % 16;
    LowBitsOfCenter13(hi * 0x800 + b11 * 0x400 + mid * 16 + lo);
    PiecesOfBranch(Wrap(ImmOf(BType, w) / 2), hi, b11, mid, lo);
  }

  /** The `funct7` and `rd` positions of a word, as pairs of the pieces above. */
  lemma FieldOfPair(w: u32)
    ensures w / 0x80 % 32 == w / 0x100 % 16 * 2 + w / 0x80 % 2
    ensures w / 0x200_0000 == w / 0x8000_0000 * 64 + w / 0x200_0000 % 64
  {
    DivDiv(w, 0x200_0000, 64);
    DivDiv(w, 0x80, 2);
    DivDiv(w, 0x80, 32);
    DivDiv(w, 0x100, 16);
  }

  lemma PiecesOfBranch(u: nat, hi: int, b11: int, mid: int, lo: int)
    requires 0 <= hi < 2 && 0 <= b11 < 2 && 0 <= mid < 64 && 0 <= lo < 16
    requires u % 0x1000 == hi * 0x800 + b11 * 0x400 + mid * 16 + lo
    ensures u / 0x800 % 2 == hi && u / 0x400 % 2 == b11 && u / 0x10 % 64 == mid && u % 16 == lo
  {
    BranchPieces(u);
  }

  lemma ReencodeU(w: u32)
    ensures EncodeU(ImmOf(UType, w), w / 0x80 % 32, w % 128) == w
  {
    hide EncodeU, ImmOf;
    ImmUValue(w);
    DivDiv(w, 0x80, 32);
    EncodeUValue(ImmOf(UType, w), w / 0x80 % 32, w % 128);
  }

  lemma ReencodeJ(w: u32)
    ensures EncodeJ(ImmOf(JType, w), w / 0x80 % 32, w % 128) == w
  {
    hide EncodeJ, ImmOf, PackedJ;
    ImmJValue(w);
    var hi, mid, b11, low := w / 0x8000_0000, w / 0x1000 % 256, w / 0x10_0000 % 2, w / 0x20_0000 % 1024;
    LowBitsOfCenter21(hi * 0x8_0000 + mid * 0x800 + b11 * 0x400 + low);
    PiecesOfJump(Wrap(ImmOf(JType, w) / 2), hi, mid, b11, low);
    PackedJOfFields(w);
    EncodeJValue(ImmOf(JType, w), w / 0x80 % 32, w % 128);
  }

  lemma PiecesOfJump(u: nat, hi: int, mid: int, b11: int, low: int)
    requires 0 <= hi < 2 && 0 <= mid < 256 && 0 <= b11 < 2 && 0 <= low < 0x400
    requires u % 0x10_0000 == hi * 0x8_0000 + mid * 0x800 + b11 * 0x400 + low
    ensures u / 0x8_0000 % 2 == hi && u / 0x800 % 256 == mid && u / 0x400 % 2 == b11 && u % 0x400 == low
  {
    JumpPieces(u);
  }

  lemma PackedJOfFields(w: u32)
    ensures w == PackedJ(w / 0x8000_0000, w / 0x20_0000 % 1024, w / 0x10_0000 % 2, w / 0x1000 % 256,
                         w / 0x80 % 32, w % 128)
  {
    DivDiv(w, 0x80, 32);
    DivDiv(w, 0x1000, 256);
    DivDiv(w, 0x10_0000, 2);
    DivDiv(w, 0x20_0000, 0x400);
  }

  /** Two different words never decode to the same format, operands and immediate. */
  lemma DecodeInjective(w: u32, w': u32)
    requires DecodeWord(w).Some? && DecodeWord(w').Some?
    requires DecodeWord(w).value.(raw := 0) == DecodeWord(w').value.(raw := 0)
    ensures w == w'
  {
    hide EncodeR, EncodeI, EncodeS, EncodeB, EncodeU, EncodeJ, DecodeWord;
    EncodeDecode(w);
    EncodeDecode(w');
  }

  // ----- immediates out of range -----

  /** The immediates a format can hold. */
  predicate ImmInRange(format: Format, imm: int)
  {
    match format
    case RType => imm == 0
    case IType => -0x800 <= imm < 0x800
    case SType => -0x800 <= imm < 0x800
    case BType => -0x1000 <= imm < 0x1000 && imm % 2 == 0
    case UType => imm % 0x1000 == 0
    case JType => -0x10_0000 <= imm < 0x10_0000 && imm % 2 == 0
  }

  lemma BranchRange(hi: int, b11: int, mid: int, lo: int)
    requires 0 <= hi < 2 && 0 <= b11 < 2 && 0 <= mid < 64 && 0 <= lo < 16
    ensures ImmInRange(BType, Center(hi * 0x1000 + b11 * 0x800 + mid * 32 + lo * 2, 0x1000))
  {
  }

  lemma JumpRange(hi: int, mid: int, b11: int, low: int)
    requires 0 <= hi < 2 && 0 <= mid < 256 && 0 <= b11 < 2 && 0 <= low < 1024
    ensures ImmInRange(JType, Center(hi * 0x10_0000 + mid * 0x1000 + b11 * 0x800 + low * 2, 0x10_0000))
  {
  }

  lemma StoreRange(hi: int, lo: int)
    requires 0 <= hi < 128 && 0 <= lo < 32
    ensures ImmInRange(SType, Center(hi * 32 + lo, 0x800))
  {
  }

  /** Whatever the word, every format reads an immediate of its own range. */
  lemma DecodedImmInRange(format: Format, w: u32)
    ensures ImmInRange(format, ImmOf(format, w))
  {
    hide ImmOf, Center, ImmInRange;
    match format
    case RType => RegisterImm(w);
    case IType =>
      ImmIValue(w);
      ImmediateRange(w / 0x10_0000);
    case SType =>
      ImmSValue(w);
      StoreRange(w / 0x200_0000, w / 0x80 % 32);
    case BType =>
      ImmBValue(w);
      BranchRange(w / 0x8000_0000, w / 0x80 % 2, w / 0x200_0000 % 64, w / 0x100 % 16);
    case UType =>
      ImmUValue(w);
      UpperMultiple(w);
    case JType =>
      ImmJValue(w);
      JumpRange(w / 0x8000_0000, w / 0x1000 % 256, w / 0x10_0000 % 2, w / 0x20_0000 % 1024);
  }

  lemma ImmediateRange(v: int)
    requires 0 <= v < 0x1000
    ensures ImmInRange(IType, Center(v, 0x800))
  {
  }

  lemma RegisterImm(w: u32)
    ensures ImmInRange(RType, ImmOf(RType, w))
  {
  }

  lemma UpperMultiple(w: u32)
    ensures ImmInRange(UType, Signed(w / 4096 * 4096))
  {
  }

  lemma PackedLow(f7: int, rs2: int, rs1: int, f3: int, rd: int, opcode: int)
    requires 0 <= opcode < 128
    ensures Packed(f7, rs2, rs1, f3, rd, opcode) % 128 == opcode
  {
    DivModUnique(Packed(f7, rs2, rs1, f3, rd, opcode), 128,
                 f7 * 0x4_0000 + rs2 * 0x2000 + rs1 * 0x100 + f3 * 0x20 + rd, opcode);
  }

  lemma PackedJLow(hi: int, low: int, b11: int, mid: int, rd: int, opcode: int)
    requires 0 <= opcode < 128
    ensures PackedJ(hi, low, b11, mid, rd, opcode) % 128 == opcode
  {
    DivModUnique(PackedJ(hi, low, b11, mid, rd, opcode), 128,
                 hi * 0x100_0000 + low * 0x4000 + b11 * 0x2000 + mid * 0x20 + rd, opcode);
  }

  lemma UpperLow(upper: int, rd: int, opcode: int)
    requires 0 <= opcode < 128
    ensures (upper * 4096 + rd * 0x80 + opcode) % 128 == opcode
  {
    DivModUnique(upper * 4096 + rd * 0x80 + opcode, 128, upper * 32 + rd, opcode);
  }

  /** The encoders leave the opcode in the low seven bits, in or out of range. */
  lemma OpcodeKept(i: Instr)
    requires FormatOf(i.opcode) == Some(i.format) && i.funct7 < 128 && InRange(i.rs2, i.rs1, i.funct3, i.rd, i.opcode)
    ensures Reencode(i) % 128 == i.opcode
  {
    hide EncodeR, EncodeI, EncodeS, EncodeB, EncodeU, EncodeJ, FormatOf, Packed, PackedJ, Wrap;
    var opcode := i.opcode;
    match i.format
    case RType =>
      EncodeRValue(i.funct7, i.rs2, i.rs1, i.funct3, i.rd, opcode);
      PackedLow(i.funct7, i.rs2, i.rs1, i.funct3, i.rd, opcode);
    case IType =>
      EncodeIValue(i.imm, i.rs1, i.funct3, i.rd, opcode);
      var v := Wrap(i.imm) % 4096;
      PackedLow(v / 32, v % 32, i.rs1, i.funct3, i.rd, opcode);
    case SType =>
      EncodeSValue(i.imm, i.rs2, i.rs1, i.funct3, opcode);
      var v := Wrap(i.imm) % 4096;
      PackedLow(v / 32, i.rs2, i.rs1, i.funct3, v % 32, opcode);
    case BType =>
      EncodeBValue(i.imm, i.rs2, i.rs1, i.funct3, opcode);
      var u := Wrap(i.imm / 2);
      PackedLow(u / 0x800 % 2 * 64 + u / 0x10 % 64, i.rs2, i.rs1, i.funct3, u % 16 * 2 + u / 0x400 % 2, opcode);
    case UType =>
      EncodeUValue(i.imm, i.rd, opcode);
      UpperLow(Wrap(i.imm) / 4096, i.rd, opcode);
    case JType =>
      EncodeJValue(i.imm, i.rd, opcode);
      var u := Wrap(i.imm / 2);
      PackedJLow(u / 0x8_0000 % 2, u % 1024, u / 0x400 % 2, u / 0x800 % 256, i.rd, opcode);
  }

  /** The encoders truncate silently: an immediate comes back from the decoder if and only if its format can
      hold it. */
  lemma ImmediateExact(i: Instr)
    requires FormatOf(i.opcode) == Some(i.format) && i.funct7 < 128 && InRange(i.rs2, i.rs1, i.funct3, i.rd, i.opcode)
    ensures var d := DecodeWord(Reencode(i));
      d.Some? && d.value.format == i.format && (d.value.imm == i.imm <==> ImmInRange(i.format, i.imm))
  {
    hide EncodeR, EncodeI, EncodeS, EncodeB, EncodeU, EncodeJ, DecodeWord, ImmOf;
    var w := Reencode(i);
    OpcodeKept(i);
    DecodeFields(w);
    DecodedImmInRange(i.format, w);
    if ImmInRange(i.format, i.imm) {
      match i.format
      case RType => DecodeEncodeR(i.funct7, i.rs2, i.rs1, i.funct3, i.rd);
      case IType => DecodeEncodeI(i.imm, i.rs1, i.funct3, i.rd, i.opcode);
      case SType => DecodeEncodeS(i.imm, i.rs2, i.rs1, i.funct3);
      case BType => DecodeEncodeB(i.imm, i.rs2, i.rs1, i.funct3);
      case UType => DecodeEncodeU(i.imm, i.rd, i.opcode);
      case JType => DecodeEncodeJ(i.imm, i.rd);
    }
  }
}
