/** Instruction words as fields of bits: what the front end moves around is wiring, not arithmetic. */
module Words {

  const O := false
  const I := true

  datatype B2 = B2(b1: bool, b0: bool)
  datatype B3 = B3(b2: bool, b1: bool, b0: bool)
  datatype B5 = B5(b4: bool, b3: bool, b2: bool, b1: bool, b0: bool)
  datatype B7 = B7(b6: bool, b5: bool, b4: bool, b3: bool, b2: bool, b1: bool, b0: bool)

  /** A half-word: bits 15-13, 12, 11-7, 6-2 and 1-0, the fields of a compressed instruction. */
  datatype Half = Half(f: B3, x: bool, r: B5, s: B5, q: B2)

  datatype Word = Word(high: Half, low: Half)

  /** The low two bits announce a 32-bit instruction. */
  predicate Wide(h: Half) {
    h.q.b1 && h.q.b0
  }

  /** A word from the six fields of a 32-bit instruction, bits 31-25, 24-20, 19-15, 14-12, 11-7, 6-0. */
  function Fields(top: B7, rs2: B5, rs1: B5, funct3: B3, rd: B5, opcode: B7): Word {
    Word(Half(B3(top.b6, top.b5, top.b4), top.b3, B5(top.b2, top.b1, top.b0, rs2.b4, rs2.b3),
              B5(rs2.b2, rs2.b1, rs2.b0, rs1.b4, rs1.b3), B2(rs1.b2, rs1.b1)),
         Half(B3(rs1.b0, funct3.b2, funct3.b1), funct3.b0, rd,
              B5(opcode.b6, opcode.b5, opcode.b4, opcode.b3, opcode.b2), B2(opcode.b1, opcode.b0)))
  }

  const ZERO7 := B7(O, O, O, O, O, O, O)
  const ALT7 := B7(O, I, O, O, O, O, O)
  const ZERO_HALF := Half(B3(O, O, O), O, B5(O, O, O, O, O), B5(O, O, O, O, O), B2(O, O))
  const X0 := B5(O, O, O, O, O)
  const X1 := B5(O, O, O, O, I)
  const X2 := B5(O, O, O, I, O)
  const OP_IMM := B7(O, O, I, O, O, I, I)
  const OP := B7(O, I, I, O, O, I, I)
  const LOAD := B7(O, O, O, O, O, I, I)
  const LOAD_FP := B7(O, O, O, O, I, I, I)
  const STORE := B7(O, I, O, O, O, I, I)
  const STORE_FP := B7(O, I, O, O, I, I, I)
  const LUI := B7(O, I, I, O, I, I, I)
  const BRANCH := B7(I, I, O, O, O, I, I)
  const JAL := B7(I, I, O, I, I, I, I)
  const JALR := B7(I, I, O, O, I, I, I)
  const SYSTEM := B7(I, I, I, O, O, I, I)
}
