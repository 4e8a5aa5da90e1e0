/** The compressed-instruction decoder of rtl/cv32e40p_compressed_decoder.sv. */
module CompressedDecoder {
  import opened Words

  /** The 32-bit expansion and the illegal flag. */
  datatype Decoded = Decoded(instr: Word, illegal: bool)

  const ILLEGAL := Decoded(Fields(ZERO7, X0, X0, B3(O, O, O), X0, ZERO7), true)

  function Ok(instr: Word): Decoded {
    Decoded(instr, false)
  }

  /** Ok when the floating-point unit with its own registers is there, illegal otherwise. */
  function Float(fp: bool, instr: Word): Decoded {
    if fp then Ok(instr) else ILLEGAL
  }

  /** One of the eight registers the low three bits of a field can name. */
  function Popular(field: B5): B5 {
    B5(O, I, field.b2, field.b1, field.b0)
  }

  /** Quadrant 0. `fp` stands for FPU = 1 with ZFINX = 0. */
  function Quadrant0(fp: bool, i: Half): Decoded {
    if i.f == B3(O, O, O) then
      Decoded(Fields(B7(O, O, i.r.b3, i.r.b2, i.r.b1, i.r.b0, i.x), B5(i.r.b4, i.s.b3, i.s.b4, O, O), X2,
                     B3(O, O, O), Popular(i.s), OP_IMM),
              !i.x && i.r == X0 && !i.s.b4 && !i.s.b3)
    else if i.f == B3(O, O, I) then
      Float(fp, Fields(B7(O, O, O, O, i.s.b4, i.s.b3, i.x), B5(i.r.b4, i.r.b3, O, O, O), Popular(i.r),
                       B3(O, I, I), Popular(i.s), LOAD_FP))
    else if i.f == B3(O, I, O) then
      Ok(Fields(B7(O, O, O, O, O, i.s.b3, i.x), B5(i.r.b4, i.r.b3, i.s.b4, O, O), Popular(i.r), B3(O, I, O),
                Popular(i.s), LOAD))
    else if i.f == B3(O, I, I) then
      Float(fp, Fields(B7(O, O, O, O, O, i.s.b3, i.x), B5(i.r.b4, i.r.b3, i.s.b4, O, O), Popular(i.r),
                       B3(O, I, O), Popular(i.s), LOAD_FP))
    else if i.f == B3(I, O, I) then
      Float(fp, Fields(B7(O, O, O, O, i.s.b4, i.s.b3, i.x), Popular(i.s), Popular(i.r), B3(O, I, I),
                       B5(i.r.b4, i.r.b3, O, O, O), STORE_FP))
    else if i.f == B3(I, I, O) then
      Ok(Fields(B7(O, O, O, O, O, i.s.b3, i.x), Popular(i.s), Popular(i.r), B3(O, I, O),
                B5(i.r.b4, i.r.b3, i.s.b4, O, O), STORE))
    else if i.f == B3(I, I, I) then
      Float(fp, Fields(B7(O, O, O, O, O, i.s.b3, i.x), Popular(i.s), Popular(i.r), B3(O, I, O),
                       B5(i.r.b4, i.r.b3, i.s.b4, O, O), STORE_FP))
    else ILLEGAL
  }

  /** Quadrant 1. */
  function Quadrant1(i: Half): Decoded {
    if i.f == B3(O, O, O) then
      Ok(Fields(B7(i.x, i.x, i.x, i.x, i.x, i.x, i.x), i.s, i.r, B3(O, O, O), i.r, OP_IMM))
    else if !i.f.b1 && i.f.b0 then
      Ok(Fields(B7(i.x, i.r.b1, i.r.b3, i.r.b2, i.s.b4, i.r.b0, i.s.b0),
                B5(i.r.b4, i.s.b3, i.s.b2, i.s.b1, i.x), B5(i.x, i.x, i.x, i.x, i.x),
                B3(i.x, i.x, i.x), B5(O, O, O, O, !i.f.b2), JAL))
    else if i.f == B3(O, I, O) then
      Ok(Fields(B7(i.x, i.x, i.x, i.x, i.x, i.x, i.x), i.s, X0, B3(O, O, O), i.r, OP_IMM))
    else if i.f == B3(O, I, I) then
      if !i.x && i.s == X0 then ILLEGAL
      else if i.r == X2 then
        Ok(Fields(B7(i.x, i.x, i.x, i.s.b2, i.s.b1, i.s.b3, i.s.b0), B5(i.s.b4, O, O, O, O), X2, B3(O, O, O),
                  X2, OP_IMM))
      else
        Ok(Fields(B7(i.x, i.x, i.x, i.x, i.x, i.x, i.x), B5(i.x, i.x, i.x, i.x, i.x),
                  B5(i.x, i.x, i.x, i.s.b4, i.s.b3), B3(i.s.b2, i.s.b1, i.s.b0), i.r, LUI))
    else if i.f == B3(I, O, O) then Arithmetic(i)
    else
      Ok(Fields(B7(i.x, i.x, i.x, i.x, i.s.b4, i.s.b3, i.s.b0), X0, Popular(i.r), B3(O, O, i.f.b0),
                B5(i.r.b4, i.r.b3, i.s.b2, i.s.b1, i.x), BRANCH))
  }

  /** Shifts and operations on the popular registers. */
  function Arithmetic(i: Half): Decoded {
    if !i.r.b4 then
      Decoded(Fields(B7(O, i.r.b3, O, O, O, O, O), i.s, Popular(i.r), B3(I, O, I), Popular(i.r), OP_IMM), i.x)
    else if i.r.b4 && !i.r.b3 then
      Ok(Fields(B7(i.x, i.x, i.x, i.x, i.x, i.x, i.x), i.s, Popular(i.r), B3(I, I, I), Popular(i.r), OP_IMM))
    else
      if i.x then ILLEGAL
      else if !i.s.b4 && !i.s.b3 then Ok(Fields(B7(O, I, O, O, O, O, O), Popular(i.s), Popular(i.r), B3(O, O, O),
                                            Popular(i.r), OP))
      else if !i.s.b4 then Ok(Fields(ZERO7, Popular(i.s), Popular(i.r), B3(I, O, O), Popular(i.r), OP))
      else if !i.s.b3 then Ok(Fields(ZERO7, Popular(i.s), Popular(i.r), B3(I, I, O), Popular(i.r), OP))
      else Ok(Fields(ZERO7, Popular(i.s), Popular(i.r), B3(I, I, I), Popular(i.r), OP))
  }

  /** Quadrant 2. */
  function Quadrant2(fp: bool, i: Half): Decoded {
    if i.f == B3(O, O, O) then
      Decoded(Fields(ZERO7, i.s, i.r, B3(O, O, I), i.r, OP_IMM), i.x)
    else if i.f == B3(O, O, I) then
      Float(fp, Fields(B7(O, O, O, i.s.b2, i.s.b1, i.s.b0, i.x), B5(i.s.b4, i.s.b3, O, O, O), X2, B3(O, I, I),
                       i.r, LOAD_FP))
    else if i.f == B3(O, I, O) then
      Decoded(Fields(B7(O, O, O, O, i.s.b1, i.s.b0, i.x), B5(i.s.b4, i.s.b3, i.s.b2, O, O), X2, B3(O, I, O), i.r, LOAD),
              i.r == X0)
    else if i.f == B3(O, I, I) then
      Float(fp, Fields(B7(O, O, O, O, i.s.b1, i.s.b0, i.x), B5(i.s.b4, i.s.b3, i.s.b2, O, O), X2, B3(O, I, O),
                       i.r, LOAD_FP))
    else if i.f == B3(I, O, O) then Registers(i)
    else if i.f == B3(I, O, I) then
      Float(fp, Fields(B7(O, O, O, i.r.b2, i.r.b1, i.r.b0, i.x), i.s, X2, B3(O, I, I),
                       B5(i.r.b4, i.r.b3, O, O, O), STORE_FP))
    else if i.f == B3(I, I, O) then
      Ok(Fields(B7(O, O, O, O, i.r.b1, i.r.b0, i.x), i.s, X2, B3(O, I, O), B5(i.r.b4, i.r.b3, i.r.b2, O, O), STORE))
    else
      Float(fp, Fields(B7(O, O, O, O, i.r.b1, i.r.b0, i.x), i.s, X2, B3(O, I, O),
                       B5(i.r.b4, i.r.b3, i.r.b2, O, O), STORE_FP))
  }

  /** Jumps through registers, moves, additions and the breakpoint. */
  function Registers(i: Half): Decoded {
    if !i.x then
      if i.s == X0 then Decoded(Fields(ZERO7, X0, i.r, B3(O, O, O), X0, JALR), i.r == X0)
      else Ok(Fields(ZERO7, i.s, X0, B3(O, O, O), i.r, OP))
    else if i.s == X0 then
      if i.r == X0 then Ok(Fields(ZERO7, X1, X0, B3(O, O, O), X0, SYSTEM))
      else Ok(Fields(ZERO7, X0, i.r, B3(O, O, O), X1, JALR))
    else
      Ok(Fields(ZERO7, i.s, i.r, B3(O, O, O), i.r, OP))
  }

  /** The whole decoder. */
  function Decompress(fp: bool, w: Word): Decoded {
    if w.low.q == B2(O, O) then Quadrant0(fp, w.low)
    else if w.low.q == B2(O, I) then Quadrant1(w.low)
    else if w.low.q == B2(I, O) then Quadrant2(fp, w.low)
    else Ok(w)
  }

  predicate IsCompressed(w: Word) {
    !Wide(w.low)
  }
}
