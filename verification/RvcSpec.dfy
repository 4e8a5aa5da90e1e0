/** The C extension as chapter 16 of the RISC-V Unprivileged ISA defines it for RV32: compressed
    instructions by name, their 16-bit encodings, and the base instructions they stand for. */
module RvcSpec {
  import opened Words

  /** An immediate value by its bits, numbered as the standard numbers them. */
  type Imm = nat -> bool

  /** Base instructions by format, the fields before the immediate being opcode and funct. */
  datatype Base =
    | IFormat(opcode: B7, funct3: B3, rd: B5, rs1: B5, imm: Imm)
    | SFormat(opcode: B7, funct3: B3, rs1: B5, rs2: B5, imm: Imm)
    | BFormat(opcode: B7, funct3: B3, rs1: B5, rs2: B5, imm: Imm)
    | UFormat(opcode: B7, rd: B5, imm: Imm)
    | JFormat(opcode: B7, rd: B5, imm: Imm)
    | RFormat(opcode: B7, funct3: B3, funct7: B7, rd: B5, rs1: B5, rs2: B5)

  // The formats of section 2.3.

  function IType(opcode: B7, funct3: B3, rd: B5, rs1: B5, m: Imm): Word {
    Fields(B7(m(11), m(10), m(9), m(8), m(7), m(6), m(5)), B5(m(4), m(3), m(2), m(1), m(0)), rs1, funct3, rd, opcode)
  }

  function SType(opcode: B7, funct3: B3, rs1: B5, rs2: B5, m: Imm): Word {
    Fields(B7(m(11), m(10), m(9), m(8), m(7), m(6), m(5)), rs2, rs1, funct3, B5(m(4), m(3), m(2), m(1), m(0)), opcode)
  }

  function BType(opcode: B7, funct3: B3, rs1: B5, rs2: B5, m: Imm): Word {
    Fields(B7(m(12), m(10), m(9), m(8), m(7), m(6), m(5)), rs2, rs1, funct3, B5(m(4), m(3), m(2), m(1), m(11)), opcode)
  }

  function UType(opcode: B7, rd: B5, m: Imm): Word {
    Fields(B7(m(31), m(30), m(29), m(28), m(27), m(26), m(25)), B5(m(24), m(23), m(22), m(21), m(20)),
           B5(m(19), m(18), m(17), m(16), m(15)), B3(m(14), m(13), m(12)), rd, opcode)
  }

  function JType(opcode: B7, rd: B5, m: Imm): Word {
    Fields(B7(m(20), m(10), m(9), m(8), m(7), m(6), m(5)), B5(m(4), m(3), m(2), m(1), m(11)),
           B5(m(19), m(18), m(17), m(16), m(15)), B3(m(14), m(13), m(12)), rd, opcode)
  }

  /** The 32-bit encoding. */
  function Encode32(b: Base): Word {
    match b
    case IFormat(opcode, funct3, rd, rs1, imm) => IType(opcode, funct3, rd, rs1, imm)
    case SFormat(opcode, funct3, rs1, rs2, imm) => SType(opcode, funct3, rs1, rs2, imm)
    case BFormat(opcode, funct3, rs1, rs2, imm) => BType(opcode, funct3, rs1, rs2, imm)
    case UFormat(opcode, rd, imm) => UType(opcode, rd, imm)
    case JFormat(opcode, rd, imm) => JType(opcode, rd, imm)
    case RFormat(opcode, funct3, funct7, rd, rs1, rs2) => Fields(funct7, rs2, rs1, funct3, rd, opcode)
  }

  const ADDR := B3(O, O, O)
  const SHIFTL := B3(O, O, I)
  const SHIFTR := B3(I, O, I)
  const XORR := B3(I, O, O)
  const ORR := B3(I, I, O)
  const ANDR := B3(I, I, I)
  const SINGLE := B3(O, I, O)
  const DOUBLE := B3(O, I, I)
  const EQ := B3(O, O, O)
  const NE := B3(O, O, I)

  datatype Rvc =
    | CAddi4spn(rd: B5, imm: Imm)
    | CFld(rd: B5, rs1: B5, imm: Imm) | CLw(rd: B5, rs1: B5, imm: Imm) | CFlw(rd: B5, rs1: B5, imm: Imm)
    | CFsd(rs2: B5, rs1: B5, imm: Imm) | CSw(rs2: B5, rs1: B5, imm: Imm) | CFsw(rs2: B5, rs1: B5, imm: Imm)
    | CAddi(rd: B5, imm: Imm) | CJal(imm: Imm) | CJ(imm: Imm) | CLi(rd: B5, imm: Imm)
    | CAddi16sp(imm: Imm) | CLui(rd: B5, imm: Imm)
    | CSrli(rd: B5, shamt: B5) | CSrai(rd: B5, shamt: B5) | CAndi(rd: B5, imm: Imm)
    | CSub(rd: B5, rs2: B5) | CXor(rd: B5, rs2: B5) | COr(rd: B5, rs2: B5) | CAnd(rd: B5, rs2: B5)
    | CBeqz(rs1: B5, imm: Imm) | CBnez(rs1: B5, imm: Imm)
    | CSlli(rd: B5, shamt: B5)
    | CFldsp(rd: B5, imm: Imm) | CLwsp(rd: B5, imm: Imm) | CFlwsp(rd: B5, imm: Imm)
    | CJr(rs1: B5) | CMv(rd: B5, rs2: B5) | CEbreak | CJalr(rs1: B5) | CAdd(rd: B5, rs2: B5)
    | CFsdsp(rs2: B5, imm: Imm) | CSwsp(rs2: B5, imm: Imm) | CFswsp(rs2: B5, imm: Imm)

  /** Registers x8 to x15. */
  predicate IsPopular(r: B5) {
    !r.b4 && r.b3
  }

  /** Multiple of 2^low, sign-extended from bit `sign`. */
  ghost predicate SignedImm(m: Imm, sign: nat, low: nat) {
    (forall k: nat :: sign <= k < 32 ==> m(k) == m(sign)) && (forall k: nat :: k < low ==> !m(k))
  }

  /** Non-negative multiple of 2^low below 2^width. */
  ghost predicate UnsignedImm(m: Imm, width: nat, low: nat) {
    forall k: nat :: k < 32 && (k < low || width <= k) ==> !m(k)
  }

  ghost predicate NonZero(m: Imm, low: nat, high: nat) {
    exists k: nat :: low <= k <= high && m(k)
  }

  /** Operands that have an encoding: HINTs included, reserved code points not. */
  ghost predicate Legal(fp: bool, c: Rvc) {
    match c
    case CAddi4spn(rd, m) => IsPopular(rd) && UnsignedImm(m, 10, 2) && NonZero(m, 2, 9)
    case CFld(rd, rs1, m) => fp && IsPopular(rd) && IsPopular(rs1) && UnsignedImm(m, 8, 3)
    case CLw(rd, rs1, m) => IsPopular(rd) && IsPopular(rs1) && UnsignedImm(m, 7, 2)
    case CFlw(rd, rs1, m) => fp && IsPopular(rd) && IsPopular(rs1) && UnsignedImm(m, 7, 2)
    case CFsd(rs2, rs1, m) => fp && IsPopular(rs2) && IsPopular(rs1) && UnsignedImm(m, 8, 3)
    case CSw(rs2, rs1, m) => IsPopular(rs2) && IsPopular(rs1) && UnsignedImm(m, 7, 2)
    case CFsw(rs2, rs1, m) => fp && IsPopular(rs2) && IsPopular(rs1) && UnsignedImm(m, 7, 2)
    case CAddi(rd, m) => SignedImm(m, 5, 0)
    case CJal(m) => SignedImm(m, 11, 1)
    case CJ(m) => SignedImm(m, 11, 1)
    case CLi(rd, m) => SignedImm(m, 5, 0)
    case CAddi16sp(m) => SignedImm(m, 9, 4) && NonZero(m, 4, 9)
    case CLui(rd, m) => rd != X2 && SignedImm(m, 17, 12) && NonZero(m, 12, 17)
    case CSrli(rd, shamt) => IsPopular(rd)
    case CSrai(rd, shamt) => IsPopular(rd)
    case CAndi(rd, m) => IsPopular(rd) && SignedImm(m, 5, 0)
    case CSub(rd, rs2) => IsPopular(rd) && IsPopular(rs2)
    case CXor(rd, rs2) => IsPopular(rd) && IsPopular(rs2)
    case COr(rd, rs2) => IsPopular(rd) && IsPopular(rs2)
    case CAnd(rd, rs2) => IsPopular(rd) && IsPopular(rs2)
    case CBeqz(rs1, m) => IsPopular(rs1) && SignedImm(m, 8, 1)
    case CBnez(rs1, m) => IsPopular(rs1) && SignedImm(m, 8, 1)
    case CSlli(rd, shamt) => true
    case CFldsp(rd, m) => fp && UnsignedImm(m, 9, 3)
    case CLwsp(rd, m) => rd != X0 && UnsignedImm(m, 8, 2)
    case CFlwsp(rd, m) => fp && UnsignedImm(m, 8, 2)
    case CJr(rs1) => rs1 != X0
    case CMv(rd, rs2) => rs2 != X0
    case CEbreak => true
    case CJalr(rs1) => rs1 != X0
    case CAdd(rd, rs2) => rs2 != X0
    case CFsdsp(rs2, m) => fp && UnsignedImm(m, 9, 3)
    case CSwsp(rs2, m) => UnsignedImm(m, 8, 2)
    case CFswsp(rs2, m) => fp && UnsignedImm(m, 8, 2)
  }

  const Q0 := B2(O, O)
  const Q1 := B2(O, I)
  const Q2 := B2(I, O)

  /** A popular register in the low three bits of a field under two other bits. */
  function Under(high: bool, low: bool, r: B5): B5 {
    B5(high, low, r.b2, r.b1, r.b0)
  }

  function Low5(m: Imm): B5 {
    B5(m(4), m(3), m(2), m(1), m(0))
  }

  /** The 16-bit encodings of the tables in section 16.8. */
  function Encode16(c: Rvc): Half {
    match c
    case CAddi4spn(rd, m) => Half(B3(O, O, O), m(5), B5(m(4), m(9), m(8), m(7), m(6)), Under(m(2), m(3), rd), Q0)
    case CFld(rd, rs1, m) => Half(B3(O, O, I), m(5), Under(m(4), m(3), rs1), Under(m(7), m(6), rd), Q0)
    case CLw(rd, rs1, m) => Half(B3(O, I, O), m(5), Under(m(4), m(3), rs1), Under(m(2), m(6), rd), Q0)
    case CFlw(rd, rs1, m) => Half(B3(O, I, I), m(5), Under(m(4), m(3), rs1), Under(m(2), m(6), rd), Q0)
    case CFsd(rs2, rs1, m) => Half(B3(I, O, I), m(5), Under(m(4), m(3), rs1), Under(m(7), m(6), rs2), Q0)
    case CSw(rs2, rs1, m) => Half(B3(I, I, O), m(5), Under(m(4), m(3), rs1), Under(m(2), m(6), rs2), Q0)
    case CFsw(rs2, rs1, m) => Half(B3(I, I, I), m(5), Under(m(4), m(3), rs1), Under(m(2), m(6), rs2), Q0)
    case CAddi(rd, m) => Half(B3(O, O, O), m(5), rd, Low5(m), Q1)
    case CJal(m) => Half(B3(O, O, I), m(11), B5(m(4), m(9), m(8), m(10), m(6)), B5(m(7), m(3), m(2), m(1), m(5)), Q1)
    case CJ(m) => Half(B3(I, O, I), m(11), B5(m(4), m(9), m(8), m(10), m(6)), B5(m(7), m(3), m(2), m(1), m(5)), Q1)
    case CLi(rd, m) => Half(B3(O, I, O), m(5), rd, Low5(m), Q1)
    case CAddi16sp(m) => Half(B3(O, I, I), m(9), X2, B5(m(4), m(6), m(8), m(7), m(5)), Q1)
    case CLui(rd, m) => Half(B3(O, I, I), m(17), rd, B5(m(16), m(15), m(14), m(13), m(12)), Q1)
    case CSrli(rd, shamt) => Half(B3(I, O, O), O, Under(O, O, rd), shamt, Q1)
    case CSrai(rd, shamt) => Half(B3(I, O, O), O, Under(O, I, rd), shamt, Q1)
    case CAndi(rd, m) => Half(B3(I, O, O), m(5), Under(I, O, rd), Low5(m), Q1)
    case CSub(rd, rs2) => Half(B3(I, O, O), O, Under(I, I, rd), Under(O, O, rs2), Q1)
    case CXor(rd, rs2) => Half(B3(I, O, O), O, Under(I, I, rd), Under(O, I, rs2), Q1)
    case COr(rd, rs2) => Half(B3(I, O, O), O, Under(I, I, rd), Under(I, O, rs2), Q1)
    case CAnd(rd, rs2) => Half(B3(I, O, O), O, Under(I, I, rd), Under(I, I, rs2), Q1)
    case CBeqz(rs1, m) => Half(B3(I, I, O), m(8), Under(m(4), m(3), rs1), B5(m(7), m(6), m(2), m(1), m(5)), Q1)
    case CBnez(rs1, m) => Half(B3(I, I, I), m(8), Under(m(4), m(3), rs1), B5(m(7), m(6), m(2), m(1), m(5)), Q1)
    case CSlli(rd, shamt) => Half(B3(O, O, O), O, rd, shamt, Q2)
    case CFldsp(rd, m) => Half(B3(O, O, I), m(5), rd, B5(m(4), m(3), m(8), m(7), m(6)), Q2)
    case CLwsp(rd, m) => Half(B3(O, I, O), m(5), rd, B5(m(4), m(3), m(2), m(7), m(6)), Q2)
    case CFlwsp(rd, m) => Half(B3(O, I, I), m(5), rd, B5(m(4), m(3), m(2), m(7), m(6)), Q2)
    case CJr(rs1) => Half(B3(I, O, O), O, rs1, X0, Q2)
    case CMv(rd, rs2) => Half(B3(I, O, O), O, rd, rs2, Q2)
    case CEbreak => Half(B3(I, O, O), I, X0, X0, Q2)
    case CJalr(rs1) => Half(B3(I, O, O), I, rs1, X0, Q2)
    case CAdd(rd, rs2) => Half(B3(I, O, O), I, rd, rs2, Q2)
    case CFsdsp(rs2, m) => Half(B3(I, O, I), m(5), B5(m(4), m(3), m(8), m(7), m(6)), rs2, Q2)
    case CSwsp(rs2, m) => Half(B3(I, I, O), m(5), B5(m(4), m(3), m(2), m(7), m(6)), rs2, Q2)
    case CFswsp(rs2, m) => Half(B3(I, I, I), m(5), B5(m(4), m(3), m(2), m(7), m(6)), rs2, Q2)
  }

  /** The base instruction a compressed one stands for. */
  function Expand(c: Rvc): Base {
    match c
    // addi rd, x2, imm
    case CAddi4spn(rd, m) => IFormat(OP_IMM, ADDR, rd, X2, m)
    // loads and stores
    case CFld(rd, rs1, m) => IFormat(LOAD_FP, DOUBLE, rd, rs1, m)
    case CLw(rd, rs1, m) => IFormat(LOAD, SINGLE, rd, rs1, m)
    case CFlw(rd, rs1, m) => IFormat(LOAD_FP, SINGLE, rd, rs1, m)
    case CFsd(rs2, rs1, m) => SFormat(STORE_FP, DOUBLE, rs1, rs2, m)
    case CSw(rs2, rs1, m) => SFormat(STORE, SINGLE, rs1, rs2, m)
    case CFsw(rs2, rs1, m) => SFormat(STORE_FP, SINGLE, rs1, rs2, m)
    // addi rd, rd, imm
    case CAddi(rd, m) => IFormat(OP_IMM, ADDR, rd, rd, m)
    case CJal(m) => JFormat(JAL, X1, m)
    case CJ(m) => JFormat(JAL, X0, m)
    case CLi(rd, m) => IFormat(OP_IMM, ADDR, rd, X0, m)
    case CAddi16sp(m) => IFormat(OP_IMM, ADDR, X2, X2, m)
    case CLui(rd, m) => UFormat(LUI, rd, m)
    // the shift amount stands where R-format has rs2
    case CSrli(rd, shamt) => RFormat(OP_IMM, SHIFTR, ZERO7, rd, rd, shamt)
    case CSrai(rd, shamt) => RFormat(OP_IMM, SHIFTR, ALT7, rd, rd, shamt)
    case CAndi(rd, m) => IFormat(OP_IMM, ANDR, rd, rd, m)
    case CSub(rd, rs2) => RFormat(OP, ADDR, ALT7, rd, rd, rs2)
    case CXor(rd, rs2) => RFormat(OP, XORR, ZERO7, rd, rd, rs2)
    case COr(rd, rs2) => RFormat(OP, ORR, ZERO7, rd, rd, rs2)
    case CAnd(rd, rs2) => RFormat(OP, ANDR, ZERO7, rd, rd, rs2)
    case CBeqz(rs1, m) => BFormat(BRANCH, EQ, rs1, X0, m)
    case CBnez(rs1, m) => BFormat(BRANCH, NE, rs1, X0, m)
    case CSlli(rd, shamt) => RFormat(OP_IMM, SHIFTL, ZERO7, rd, rd, shamt)
    case CFldsp(rd, m) => IFormat(LOAD_FP, DOUBLE, rd, X2, m)
    case CLwsp(rd, m) => IFormat(LOAD, SINGLE, rd, X2, m)
    case CFlwsp(rd, m) => IFormat(LOAD_FP, SINGLE, rd, X2, m)
    // jalr x0, 0(rs1) and jalr x1, 0(rs1)
    case CJr(rs1) => RFormat(JALR, ADDR, ZERO7, X0, rs1, X0)
    case CMv(rd, rs2) => RFormat(OP, ADDR, ZERO7, rd, X0, rs2)
    case CEbreak => RFormat(SYSTEM, ADDR, ZERO7, X0, X0, X1)
    case CJalr(rs1) => RFormat(JALR, ADDR, ZERO7, X1, rs1, X0)
    case CAdd(rd, rs2) => RFormat(OP, ADDR, ZERO7, rd, rd, rs2)
    case CFsdsp(rs2, m) => SFormat(STORE_FP, DOUBLE, X2, rs2, m)
    case CSwsp(rs2, m) => SFormat(STORE, SINGLE, X2, rs2, m)
    case CFswsp(rs2, m) => SFormat(STORE_FP, SINGLE, X2, rs2, m)
  }
}
