/**
 The instruction encoders of src/dm.c, and the decoders the ISA gives for the same
 formats (RISC-V Unprivileged ISA, sections 2.2 and 2.3 for the formats and their
 immediates, 2.4 for ADDI, 2.5 for BNE, 2.6 for loads and stores).
 */
module RiscV {
  import opened Words

  function Store(sizeLog2: word, src: word, base: word): word {
    var funct3 := sizeLog2 & 0x7;
    var rs2 := (src & 0x1f) << 20;
    var rs1 := (base & 0x1f) << 15;
    (funct3 << 12) | rs2 | rs1 | 0x23
  }

  function Load(funct3: word, dest: word, base: word): word {
    var rs1 := (base & 0x1f) << 15;
    var rd := (dest & 0x1f) << 7;
    ((funct3 & 0x7) << 12) | rs1 | rd | 0x03
  }

  /** `immediate` is the two's complement image of a C int32_t. */
  function Addi(dest: word, src: word, immediate: word): word {
    var imm := immediate & 0xfff;
    var rs1 := (src & 0x1f) << 15;
    var rd := (dest & 0x1f) << 7;
    (imm << 20) | rs1 | rd | 0x13
  }

  function Bne(src1: word, src2: word, immediate: word): word {
    var imm12 := (immediate >> 12) & 0x1;
    var imm11 := (immediate >> 11) & 0x1;
    var imm10to5 := (immediate >> 5) & 0x3f;
    var imm4to1 := (immediate >> 1) & 0xf;
    var rs1 := (src1 & 0x1f) << 15;
    var rs2 := (src2 & 0x1f) << 20;
    (imm12 << 31) | (imm10to5 << 25) | rs2 | rs1 | (0x1 << 12) | (imm4to1 << 8) | (imm11 << 7) | 0x63
  }

  function Ebreak(): word { 0x0010_0073 }

  // Decoding, written from the ISA's instruction formats and not from the encoders.

  datatype Instruction =
    | StoreI(width: word, rs2: word, rs1: word, offset: word)
    | LoadI(kind: word, rd: word, rs1: word, offset: word)
    | AddImm(rd: word, rs1: word, immediate: word)
    | BranchNe(rs1: word, rs2: word, offset: word)
    | Break
    | Unknown

  /** Bit `bits - 1` of v copied into every higher bit. */
  function SignExtend(v: word, signBit: word): word {
    (v ^ signBit) - signBit
  }

  function ImmI(i: word): word { SignExtend(i >> 20, 0x800) }

  function ImmS(i: word): word { SignExtend(((i >> 25) << 5) | ((i >> 7) & 0x1f), 0x800) }

  /** Section 2.3: imm[12] is bit 31, imm[11] bit 7, imm[10:5] bits 30 to 25, imm[4:1] bits 11 to 8. */
  function ImmB(i: word): word {
    SignExtend(((i >> 31) << 12) | (((i >> 7) & 0x1) << 11) | (((i >> 25) & 0x3f) << 5) | (((i >> 8) & 0xf) << 1),
               0x1000)
  }

  function Opcode(i: word): word { i & 0x7f }
  function Rd(i: word): word { (i >> 7) & 0x1f }
  function Funct3(i: word): word { (i >> 12) & 0x7 }
  function Rs1(i: word): word { (i >> 15) & 0x1f }
  function Rs2(i: word): word { (i >> 20) & 0x1f }

  function Decode(i: word): Instruction {
    if Opcode(i) == 0x23 && Funct3(i) <= 2 then StoreI(Funct3(i), Rs2(i), Rs1(i), ImmS(i))
    else if Opcode(i) == 0x03 && (Funct3(i) <= 2 || Funct3(i) == 4 || Funct3(i) == 5) then
      LoadI(Funct3(i), Rd(i), Rs1(i), ImmI(i))
    else if Opcode(i) == 0x13 && Funct3(i) == 0 then AddImm(Rd(i), Rs1(i), ImmI(i))
    else if Opcode(i) == 0x63 && Funct3(i) == 1 then BranchNe(Rs1(i), Rs2(i), ImmB(i))
    else if i == 0x0010_0073 then Break
    else Unknown
  }

  /** A 12-bit signed value, as an int32_t. */
  predicate Fits12(imm: word) { imm <= 0x7ff || imm >= 0xffff_f800 }

  /** An even 13-bit signed value, as an int32_t. */
  predicate FitsBranch(imm: word) { (imm <= 0xfff || imm >= 0xffff_f000) && imm & 0x1 == 0 }

  lemma StoreDecodes(width: word, src: word, base: word)
    requires width <= 2 && src < 32 && base < 32
    ensures Decode(Store(width, src, base)) == StoreI(width, src, base, 0)
  {}

  lemma LoadDecodes(kind: word, dest: word, base: word)
    requires kind <= 2 || kind == 4 || kind == 5
    requires dest < 32 && base < 32
    ensures Decode(Load(kind, dest, base)) == LoadI(kind, dest, base, 0)
  {}

  lemma AddiFields(dest: word, src: word, imm: word)
    requires dest < 32 && src < 32
    ensures var i := Addi(dest, src, imm);
      Opcode(i) == 0x13 && Funct3(i) == 0 && Rd(i) == dest && Rs1(i) == src && i >> 20 == imm & 0xfff
  {}

  lemma Extend12(imm: word)
    ensures SignExtend(imm & 0xfff, 0x800) == imm <==> Fits12(imm)
  {}

  lemma AddiDecodes(dest: word, src: word, imm: word)
    requires dest < 32 && src < 32
    ensures Decode(Addi(dest, src, imm)) == AddImm(dest, src, imm) <==> Fits12(imm)
  {
    AddiFields(dest, src, imm);
    Extend12(imm);
    hide Addi, Opcode, Funct3, Rd, Rs1, SignExtend, Fits12;
    assert Decode(Addi(dest, src, imm)) == AddImm(dest, src, ImmI(Addi(dest, src, imm)));
  }

  lemma BneFields(src1: word, src2: word, imm: word)
    requires src1 < 32 && src2 < 32
    ensures var i := Bne(src1, src2, imm);
      Opcode(i) == 0x63 && Funct3(i) == 1 && Rs1(i) == src1 && Rs2(i) == src2
  {}

  lemma BneImmediate(src1: word, src2: word, imm: word)
    requires src1 < 32 && src2 < 32
    ensures ImmB(Bne(src1, src2, imm)) == SignExtend(imm & 0x1ffe, 0x1000)
  {}

  lemma ExtendBranch(imm: word)
    ensures SignExtend(imm & 0x1ffe, 0x1000) == imm <==> FitsBranch(imm)
  {}

  lemma BneDecodes(src1: word, src2: word, imm: word)
    requires src1 < 32 && src2 < 32
    ensures Decode(Bne(src1, src2, imm)) == BranchNe(src1, src2, imm) <==> FitsBranch(imm)
  {
    BneFields(src1, src2, imm);
    BneImmediate(src1, src2, imm);
    ExtendBranch(imm);
    hide Bne, ImmB, Opcode, Funct3, Rs1, Rs2, SignExtend, FitsBranch;
    assert Decode(Bne(src1, src2, imm)) == BranchNe(src1, src2, ImmB(Bne(src1, src2, imm)));
  }

  /** Words of different formats have different opcodes. */
  lemma FormatsNeverCollide(a: word, b: word, c: word, a': word, b': word, c': word)
    ensures Store(c, a, b) != Load(c', a', b') && Store(c, a, b) != Addi(a', b', c')
    ensures Store(c, a, b) != Bne(a', b', c')
    ensures Load(c, a, b) != Addi(a', b', c') && Load(c, a, b) != Bne(a', b', c') && Addi(a, b, c) != Bne(a', b', c')
    ensures Ebreak() !in {Store(c, a, b), Load(c, a, b), Addi(a, b, c), Bne(a, b, c)}
  {
    StoreOpcode(a, b, c);
    LoadOpcode(a', b', c');
    LoadOpcode(a, b, c);
    AddiOpcode(a, b, c);
    AddiOpcode(a', b', c');
    BneOpcode(a, b, c);
    BneOpcode(a', b', c');
    assert Opcode(Ebreak()) == 0x73;
    hide Store, Load, Addi, Bne, Ebreak, Opcode;
  }

  lemma StoreOpcode(a: word, b: word, c: word)
    ensures Opcode(Store(c, a, b)) == 0x23
  {}

  lemma LoadOpcode(a: word, b: word, c: word)
    ensures Opcode(Load(c, a, b)) == 0x03
  {}

  lemma AddiOpcode(a: word, b: word, c: word)
    ensures Opcode(Addi(a, b, c)) == 0x13
  {}

  lemma BneOpcode(a: word, b: word, c: word)
    ensures Opcode(Bne(a, b, c)) == 0x63
  {}

  /** Distinct operands give distinct words. */
  lemma EncodersInjective(a: word, b: word, c: word, a': word, b': word, c': word)
    requires a < 32 && b < 32 && a' < 32 && b' < 32
    ensures c <= 2 && c' <= 2 && Store(c, a, b) == Store(c', a', b') ==> (a, b, c) == (a', b', c')
    ensures (c <= 2 || c == 4 || c == 5) && (c' <= 2 || c' == 4 || c' == 5) && Load(c, a, b) == Load(c', a', b') ==>
      (a, b, c) == (a', b', c')
    ensures Fits12(c) && Fits12(c') && Addi(a, b, c) == Addi(a', b', c') ==> (a, b, c) == (a', b', c')
    ensures FitsBranch(c) && FitsBranch(c') && Bne(a, b, c) == Bne(a', b', c') ==> (a, b, c) == (a', b', c')
  {
    hide Store, Load, Addi, Bne, Fits12, FitsBranch;
    StoreInjective(a, b, c, a', b', c');
    LoadInjective(a, b, c, a', b', c');
    AddiInjective(a, b, c, a', b', c');
    BneInjective(a, b, c, a', b', c');
  }

  lemma StoreInjective(a: word, b: word, c: word, a': word, b': word, c': word)
    requires a < 32 && b < 32 && a' < 32 && b' < 32
    ensures c <= 2 && c' <= 2 && Store(c, a, b) == Store(c', a', b') ==> (a, b, c) == (a', b', c')
  {
    hide Store, Decode;
    if c <= 2 && c' <= 2 {
      StoreDecodes(c, a, b);
      StoreDecodes(c', a', b');
    }
  }

  lemma LoadInjective(a: word, b: word, c: word, a': word, b': word, c': word)
    requires a < 32 && b < 32 && a' < 32 && b' < 32
    ensures (c <= 2 || c == 4 || c == 5) && (c' <= 2 || c' == 4 || c' == 5) && Load(c, a, b) == Load(c', a', b') ==>
      (a, b, c) == (a', b', c')
  {
    hide Load, Decode;
    if (c <= 2 || c == 4 || c == 5) && (c' <= 2 || c' == 4 || c' == 5) {
      LoadDecodes(c, a, b);
      LoadDecodes(c', a', b');
    }
  }

  lemma AddiInjective(a: word, b: word, c: word, a': word, b': word, c': word)
    requires a < 32 && b < 32 && a' < 32 && b' < 32
    ensures Fits12(c) && Fits12(c') && Addi(a, b, c) == Addi(a', b', c') ==> (a, b, c) == (a', b', c')
  {
    hide Addi, Decode, Fits12;
    AddiDecodes(a, b, c);
    AddiDecodes(a', b', c');
  }

  lemma BneInjective(a: word, b: word, c: word, a': word, b': word, c': word)
    requires a < 32 && b < 32 && a' < 32 && b' < 32
    ensures FitsBranch(c) && FitsBranch(c') && Bne(a, b, c) == Bne(a', b', c') ==> (a, b, c) == (a', b', c')
  {
    hide Bne, Decode, FitsBranch;
    BneDecodes(a, b, c);
    BneDecodes(a', b', c');
  }
}
