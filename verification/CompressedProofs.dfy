/** The decoder against the standard, on every half-word. */
module CompressedProofs {
  import opened Words
  import opened RvcSpec
  import opened CompressedDecoder

  /** The decoder turns `c` and whatever half-word follows it into the base instruction `c` stands for. */
  ghost predicate Expands(fp: bool, c: Rvc, next: Half) {
    !Wide(Encode16(c)) && Decompress(fp, Word(next, Encode16(c))) == Ok(Encode32(Expand(c)))
  }

  lemma StackAddress(fp: bool, c: Rvc, next: Half)
    requires Legal(fp, c) && c.CAddi4spn?
    ensures Expands(fp, c, next)
  {
  }

  lemma WordLoad(fp: bool, c: Rvc, next: Half)
    requires Legal(fp, c) && c.CLw?
    ensures Expands(fp, c, next)
  {
  }

  lemma FloatLoad(fp: bool, c: Rvc, next: Half)
    requires Legal(fp, c) && c.CFlw?
    ensures Expands(fp, c, next)
  {
  }

  lemma DoubleLoad(fp: bool, c: Rvc, next: Half)
    requires Legal(fp, c) && c.CFld?
    ensures Expands(fp, c, next)
  {
  }

  lemma WordStore(fp: bool, c: Rvc, next: Half)
    requires Legal(fp, c) && c.CSw?
    ensures Expands(fp, c, next)
  {
  }

  lemma FloatStore(fp: bool, c: Rvc, next: Half)
    requires Legal(fp, c) && c.CFsw?
    ensures Expands(fp, c, next)
  {
  }

  lemma DoubleStore(fp: bool, c: Rvc, next: Half)
    requires Legal(fp, c) && c.CFsd?
    ensures Expands(fp, c, next)
  {
  }

  lemma Immediates(fp: bool, c: Rvc, next: Half)
    requires Legal(fp, c) && (c.CAddi? || c.CLi? || c.CAndi?)
    ensures Expands(fp, c, next)
  {
  }

  lemma JumpAndLink(fp: bool, c: Rvc, next: Half)
    requires Legal(fp, c) && c.CJal?
    ensures Expands(fp, c, next)
  {
  }

  lemma PlainJump(fp: bool, c: Rvc, next: Half)
    requires Legal(fp, c) && c.CJ?
    ensures Expands(fp, c, next)
  {
  }

  lemma StackMove(fp: bool, c: Rvc, next: Half)
    requires Legal(fp, c) && c.CAddi16sp?
    ensures Expands(fp, c, next)
  {
  }

  lemma UpperImmediate(fp: bool, c: Rvc, next: Half)
    requires Legal(fp, c) && c.CLui?
    ensures Expands(fp, c, next)
  {
  }

  lemma Shifts(fp: bool, c: Rvc, next: Half)
    requires Legal(fp, c) && (c.CSrli? || c.CSrai? || c.CSlli?)
    ensures Expands(fp, c, next)
  {
  }

  lemma SubXor(fp: bool, c: Rvc, next: Half)
    requires Legal(fp, c) && (c.CSub? || c.CXor?)
    ensures Expands(fp, c, next)
  {
  }

  lemma OrAnd(fp: bool, c: Rvc, next: Half)
    requires Legal(fp, c) && (c.COr? || c.CAnd?)
    ensures Expands(fp, c, next)
  {
  }

  lemma BranchIfZero(fp: bool, c: Rvc, next: Half)
    requires Legal(fp, c) && c.CBeqz?
    ensures Expands(fp, c, next)
  {
  }

  lemma BranchIfNotZero(fp: bool, c: Rvc, next: Half)
    requires Legal(fp, c) && c.CBnez?
    ensures Expands(fp, c, next)
  {
  }

  lemma WordStackLoads(fp: bool, c: Rvc, next: Half)
    requires Legal(fp, c) && (c.CLwsp? || c.CFlwsp?)
    ensures Expands(fp, c, next)
  {
  }

  lemma DoubleStackLoad(fp: bool, c: Rvc, next: Half)
    requires Legal(fp, c) && c.CFldsp?
    ensures Expands(fp, c, next)
  {
  }

  lemma WordStackStores(fp: bool, c: Rvc, next: Half)
    requires Legal(fp, c) && (c.CSwsp? || c.CFswsp?)
    ensures Expands(fp, c, next)
  {
  }

  lemma DoubleStackStore(fp: bool, c: Rvc, next: Half)
    requires Legal(fp, c) && c.CFsdsp?
    ensures Expands(fp, c, next)
  {
  }

  lemma RegisterJumps(fp: bool, c: Rvc, next: Half)
    requires Legal(fp, c) && (c.CJr? || c.CJalr? || c.CEbreak?)
    ensures Expands(fp, c, next)
  {
  }

  lemma RegisterMoves(fp: bool, c: Rvc, next: Half)
    requires Legal(fp, c) && (c.CMv? || c.CAdd?)
    ensures Expands(fp, c, next)
  {
  }

  predicate IsMemory(c: Rvc) {
    || c.CLw?
    || c.CFlw?
    || c.CFld?
    || c.CSw?
    || c.CFsw?
    || c.CFsd?
  }

  lemma MemoryExpands(fp: bool, c: Rvc, next: Half)
    requires Legal(fp, c) && IsMemory(c)
    ensures Expands(fp, c, next)
  {
    if c.CLw? {
      WordLoad(fp, c, next);
    } else if c.CFlw? {
      FloatLoad(fp, c, next);
    } else if c.CFld? {
      DoubleLoad(fp, c, next);
    } else if c.CSw? {
      WordStore(fp, c, next);
    } else if c.CFsw? {
      FloatStore(fp, c, next);
    } else {
      DoubleStore(fp, c, next);
    }
  }

  predicate IsStack(c: Rvc) {
    || c.CAddi4spn?
    || c.CLwsp? || c.CFlwsp?
    || c.CFldsp?
    || c.CSwsp? || c.CFswsp?
    || c.CFsdsp?
  }

  lemma StackExpands(fp: bool, c: Rvc, next: Half)
    requires Legal(fp, c) && IsStack(c)
    ensures Expands(fp, c, next)
  {
    if c.CAddi4spn? {
      StackAddress(fp, c, next);
    } else if c.CLwsp? || c.CFlwsp? {
      WordStackLoads(fp, c, next);
    } else if c.CFldsp? {
      DoubleStackLoad(fp, c, next);
    } else if c.CSwsp? || c.CFswsp? {
      WordStackStores(fp, c, next);
    } else {
      DoubleStackStore(fp, c, next);
    }
  }

  predicate IsFlow(c: Rvc) {
    || c.CJal?
    || c.CJ?
    || c.CBeqz?
    || c.CBnez?
    || c.CJr? || c.CJalr? || c.CEbreak?
  }

  lemma FlowExpands(fp: bool, c: Rvc, next: Half)
    requires Legal(fp, c) && IsFlow(c)
    ensures Expands(fp, c, next)
  {
    if c.CJal? {
      JumpAndLink(fp, c, next);
    } else if c.CJ? {
      PlainJump(fp, c, next);
    } else if c.CBeqz? {
      BranchIfZero(fp, c, next);
    } else if c.CBnez? {
      BranchIfNotZero(fp, c, next);
    } else {
      RegisterJumps(fp, c, next);
    }
  }

  lemma ComputationExpands(fp: bool, c: Rvc, next: Half)
    requires Legal(fp, c) && !IsMemory(c) && !IsStack(c) && !IsFlow(c)
    ensures Expands(fp, c, next)
  {
    if c.CAddi? || c.CLi? || c.CAndi? {
      Immediates(fp, c, next);
    } else if c.CAddi16sp? {
      StackMove(fp, c, next);
    } else if c.CLui? {
      UpperImmediate(fp, c, next);
    } else if c.CSrli? || c.CSrai? || c.CSlli? {
      Shifts(fp, c, next);
    } else if c.CSub? || c.CXor? {
      SubXor(fp, c, next);
    } else if c.COr? || c.CAnd? {
      OrAnd(fp, c, next);
    } else {
      RegisterMoves(fp, c, next);
    }
  }

  /** Every legal compressed instruction expands as chapter 16 says. */
  lemma DecompressExpands(fp: bool, c: Rvc, next: Half)
    requires Legal(fp, c)
    ensures Expands(fp, c, next)
  {
    if IsMemory(c) {
      MemoryExpands(fp, c, next);
    } else if IsStack(c) {
      StackExpands(fp, c, next);
    } else if IsFlow(c) {
      FlowExpands(fp, c, next);
    } else {
      ComputationExpands(fp, c, next);
    }
  }

  // ------------------------------------------------ the converse: nothing else is accepted

  /** `m` with bit `n` replaced. */
  lemma Put(m: Imm, n: nat, b: bool) returns (r: Imm)
    ensures r(n) == b && forall k: nat :: k != n ==> r(k) == m(k)
  {
    r := k => if k < 0 || k == n then b else m(k);
  }

  /** Zeros below `low`, copies of `sign` from there on. */
  lemma Extension(low: nat, sign: bool) returns (r: Imm)
    ensures forall k: nat :: r(k) == (k >= low && sign)
  {
    r := k => k >= low && sign;
  }

  // The immediate behind each layout.

  lemma StackAddOffset(h: Half) returns (m: Imm)
    ensures UnsignedImm(m, 10, 2)
    ensures m(2) == h.s.b4 && m(3) == h.s.b3 && m(4) == h.r.b4 && m(5) == h.x && m(6) == h.r.b0
         && m(7) == h.r.b1 && m(8) == h.r.b2 && m(9) == h.r.b3
  {
    m := Extension(2, O);
    m := Put(m, 2, h.s.b4);
    m := Put(m, 3, h.s.b3);
    m := Put(m, 4, h.r.b4);
    m := Put(m, 5, h.x);
    m := Put(m, 6, h.r.b0);
    m := Put(m, 7, h.r.b1);
    m := Put(m, 8, h.r.b2);
    m := Put(m, 9, h.r.b3);
  }

  lemma WordOffset(h: Half) returns (m: Imm)
    ensures UnsignedImm(m, 7, 2)
    ensures m(2) == h.s.b4 && m(3) == h.r.b3 && m(4) == h.r.b4 && m(5) == h.x && m(6) == h.s.b3
  {
    m := Extension(2, O);
    m := Put(m, 2, h.s.b4);
    m := Put(m, 3, h.r.b3);
    m := Put(m, 4, h.r.b4);
    m := Put(m, 5, h.x);
    m := Put(m, 6, h.s.b3);
  }

  lemma DoubleOffset(h: Half) returns (m: Imm)
    ensures UnsignedImm(m, 8, 3)
    ensures m(3) == h.r.b3 && m(4) == h.r.b4 && m(5) == h.x && m(6) == h.s.b3 && m(7) == h.s.b4
  {
    m := Extension(3, O);
    m := Put(m, 3, h.r.b3);
    m := Put(m, 4, h.r.b4);
    m := Put(m, 5, h.x);
    m := Put(m, 6, h.s.b3);
    m := Put(m, 7, h.s.b4);
  }

  lemma SixBits(h: Half) returns (m: Imm)
    ensures SignedImm(m, 5, 0)
    ensures m(0) == h.s.b0 && m(1) == h.s.b1 && m(2) == h.s.b2 && m(3) == h.s.b3 && m(4) == h.s.b4
         && m(5) == h.x
  {
    m := Extension(0, h.x);
    m := Put(m, 0, h.s.b0);
    m := Put(m, 1, h.s.b1);
    m := Put(m, 2, h.s.b2);
    m := Put(m, 3, h.s.b3);
    m := Put(m, 4, h.s.b4);
  }

  lemma JumpOffset(h: Half) returns (m: Imm)
    ensures SignedImm(m, 11, 1)
    ensures m(1) == h.s.b1 && m(2) == h.s.b2 && m(3) == h.s.b3 && m(4) == h.r.b4 && m(5) == h.s.b0
         && m(6) == h.r.b0 && m(7) == h.s.b4 && m(8) == h.r.b2 && m(9) == h.r.b3 && m(10) == h.r.b1
         && m(11) == h.x
  {
    m := Extension(1, h.x);
    m := Put(m, 1, h.s.b1);
    m := Put(m, 2, h.s.b2);
    m := Put(m, 3, h.s.b3);
    m := Put(m, 4, h.r.b4);
    m := Put(m, 5, h.s.b0);
    m := Put(m, 6, h.r.b0);
    m := Put(m, 7, h.s.b4);
    m := Put(m, 8, h.r.b2);
    m := Put(m, 9, h.r.b3);
    m := Put(m, 10, h.r.b1);
  }

  lemma StackMoveOffset(h: Half) returns (m: Imm)
    ensures SignedImm(m, 9, 4)
    ensures m(4) == h.s.b4 && m(5) == h.s.b0 && m(6) == h.s.b3 && m(7) == h.s.b1 && m(8) == h.s.b2
         && m(9) == h.x
  {
    m := Extension(4, h.x);
    m := Put(m, 4, h.s.b4);
    m := Put(m, 5, h.s.b0);
    m := Put(m, 6, h.s.b3);
    m := Put(m, 7, h.s.b1);
    m := Put(m, 8, h.s.b2);
  }

  lemma UpperOffset(h: Half) returns (m: Imm)
    ensures SignedImm(m, 17, 12)
    ensures m(12) == h.s.b0 && m(13) == h.s.b1 && m(14) == h.s.b2 && m(15) == h.s.b3 && m(16) == h.s.b4
         && m(17) == h.x
  {
    m := Extension(12, h.x);
    m := Put(m, 12, h.s.b0);
    m := Put(m, 13, h.s.b1);
    m := Put(m, 14, h.s.b2);
    m := Put(m, 15, h.s.b3);
    m := Put(m, 16, h.s.b4);
  }

  lemma BranchOffset(h: Half) returns (m: Imm)
    ensures SignedImm(m, 8, 1)
    ensures m(1) == h.s.b1 && m(2) == h.s.b2 && m(3) == h.r.b3 && m(4) == h.r.b4 && m(5) == h.s.b0
         && m(6) == h.s.b3 && m(7) == h.s.b4 && m(8) == h.x
  {
    m := Extension(1, h.x);
    m := Put(m, 1, h.s.b1);
    m := Put(m, 2, h.s.b2);
    m := Put(m, 3, h.r.b3);
    m := Put(m, 4, h.r.b4);
    m := Put(m, 5, h.s.b0);
    m := Put(m, 6, h.s.b3);
    m := Put(m, 7, h.s.b4);
  }

  lemma WordLoadOffset(h: Half) returns (m: Imm)
    ensures UnsignedImm(m, 8, 2)
    ensures m(2) == h.s.b2 && m(3) == h.s.b3 && m(4) == h.s.b4 && m(5) == h.x && m(6) == h.s.b0
         && m(7) == h.s.b1
  {
    m := Extension(2, O);
    m := Put(m, 2, h.s.b2);
    m := Put(m, 3, h.s.b3);
    m := Put(m, 4, h.s.b4);
    m := Put(m, 5, h.x);
    m := Put(m, 6, h.s.b0);
    m := Put(m, 7, h.s.b1);
  }

  lemma DoubleLoadOffset(h: Half) returns (m: Imm)
    ensures UnsignedImm(m, 9, 3)
    ensures m(3) == h.s.b3 && m(4) == h.s.b4 && m(5) == h.x && m(6) == h.s.b0 && m(7) == h.s.b1
         && m(8) == h.s.b2
  {
    m := Extension(3, O);
    m := Put(m, 3, h.s.b3);
    m := Put(m, 4, h.s.b4);
    m := Put(m, 5, h.x);
    m := Put(m, 6, h.s.b0);
    m := Put(m, 7, h.s.b1);
    m := Put(m, 8, h.s.b2);
  }

  lemma WordStoreOffset(h: Half) returns (m: Imm)
    ensures UnsignedImm(m, 8, 2)
    ensures m(2) == h.r.b2 && m(3) == h.r.b3 && m(4) == h.r.b4 && m(5) == h.x && m(6) == h.r.b0
         && m(7) == h.r.b1
  {
    m := Extension(2, O);
    m := Put(m, 2, h.r.b2);
    m := Put(m, 3, h.r.b3);
    m := Put(m, 4, h.r.b4);
    m := Put(m, 5, h.x);
    m := Put(m, 6, h.r.b0);
    m := Put(m, 7, h.r.b1);
  }

  lemma DoubleStoreOffset(h: Half) returns (m: Imm)
    ensures UnsignedImm(m, 9, 3)
    ensures m(3) == h.r.b3 && m(4) == h.r.b4 && m(5) == h.x && m(6) == h.r.b0 && m(7) == h.r.b1
         && m(8) == h.r.b2
  {
    m := Extension(3, O);
    m := Put(m, 3, h.r.b3);
    m := Put(m, 4, h.r.b4);
    m := Put(m, 5, h.x);
    m := Put(m, 6, h.r.b0);
    m := Put(m, 7, h.r.b1);
    m := Put(m, 8, h.r.b2);
  }

  lemma StackAddressParses(fp: bool, h: Half) returns (c: Rvc)
    requires h.q == Q0 && h.f == B3(O, O, O) && !Quadrant0(fp, h).illegal
    ensures Legal(fp, c) && Encode16(c) == h
  {
    var m := StackAddOffset(h);
    assert m(2) || m(3) || m(4) || m(5) || m(6) || m(7) || m(8) || m(9);
    c := CAddi4spn(Popular(h.s), m);
  }

  lemma LoadParses(fp: bool, h: Half) returns (c: Rvc)
    requires h.q == Q0 && !h.f.b2 && h.f != B3(O, O, O) && !Quadrant0(fp, h).illegal
    ensures Legal(fp, c) && Encode16(c) == h
  {
    if h.f == B3(O, O, I) {
      var m := DoubleOffset(h);
      c := CFld(Popular(h.s), Popular(h.r), m);
    } else if h.f == B3(O, I, O) {
      var m := WordOffset(h);
      c := CLw(Popular(h.s), Popular(h.r), m);
    } else {
      var m := WordOffset(h);
      c := CFlw(Popular(h.s), Popular(h.r), m);
    }
  }

  lemma StoreParses(fp: bool, h: Half) returns (c: Rvc)
    requires h.q == Q0 && h.f.b2 && !Quadrant0(fp, h).illegal
    ensures Legal(fp, c) && Encode16(c) == h
  {
    if h.f == B3(I, O, I) {
      var m := DoubleOffset(h);
      c := CFsd(Popular(h.s), Popular(h.r), m);
    } else if h.f == B3(I, I, O) {
      var m := WordOffset(h);
      c := CSw(Popular(h.s), Popular(h.r), m);
    } else {
      var m := WordOffset(h);
      c := CFsw(Popular(h.s), Popular(h.r), m);
    }
  }

  lemma ImmediateParses(fp: bool, h: Half) returns (c: Rvc)
    requires h.q == Q1 && (h.f == B3(O, O, O) || h.f == B3(O, I, O))
    ensures Legal(fp, c) && Encode16(c) == h
  {
    if h.f == B3(O, O, O) {
      var m := SixBits(h);
      c := CAddi(h.r, m);
    } else {
      var m := SixBits(h);
      c := CLi(h.r, m);
    }
  }

  lemma JumpParses(fp: bool, h: Half) returns (c: Rvc)
    requires h.q == Q1 && (h.f == B3(O, O, I) || h.f == B3(I, O, I))
    ensures Legal(fp, c) && Encode16(c) == h
  {
    if h.f == B3(O, O, I) {
      var m := JumpOffset(h);
      c := CJal(m);
    } else {
      var m := JumpOffset(h);
      c := CJ(m);
    }
  }

  lemma StackMoveParses(fp: bool, h: Half) returns (c: Rvc)
    requires h.q == Q1 && h.f == B3(O, I, I) && h.r == X2 && !Quadrant1(h).illegal
    ensures Legal(fp, c) && Encode16(c) == h
  {
    var m := StackMoveOffset(h);
    assert m(4) || m(5) || m(6) || m(7) || m(8) || m(9);
    c := CAddi16sp(m);
  }

  lemma UpperParses(fp: bool, h: Half) returns (c: Rvc)
    requires h.q == Q1 && h.f == B3(O, I, I) && h.r != X2 && !Quadrant1(h).illegal
    ensures Legal(fp, c) && Encode16(c) == h
  {
    var m := UpperOffset(h);
    assert m(12) || m(13) || m(14) || m(15) || m(16) || m(17);
    c := CLui(h.r, m);
  }

  lemma ShiftParses(fp: bool, h: Half) returns (c: Rvc)
    requires h.q == Q1 && h.f == B3(I, O, O) && !(h.r.b4 && h.r.b3) && !Arithmetic(h).illegal
    ensures Legal(fp, c) && Encode16(c) == h
  {
    if h.r.b4 {
      var m := SixBits(h);
      c := CAndi(Popular(h.r), m);
    } else {
      if h.r.b3 {
        c := CSrai(Popular(h.r), h.s);
      } else {
        c := CSrli(Popular(h.r), h.s);
      }
    }
  }

  lemma SubXorParses(fp: bool, h: Half) returns (c: Rvc)
    requires h.q == Q1 && h.f == B3(I, O, O) && !h.x && h.r.b4 && h.r.b3 && !h.s.b4
    ensures Legal(fp, c) && Encode16(c) == h
  {
    if h.s.b3 {
      c := CXor(Popular(h.r), Popular(h.s));
    } else {
      c := CSub(Popular(h.r), Popular(h.s));
    }
  }

  lemma OrAndParses(fp: bool, h: Half) returns (c: Rvc)
    requires h.q == Q1 && h.f == B3(I, O, O) && !h.x && h.r.b4 && h.r.b3 && h.s.b4
    ensures Legal(fp, c) && Encode16(c) == h
  {
    if h.s.b3 {
      c := CAnd(Popular(h.r), Popular(h.s));
    } else {
      c := COr(Popular(h.r), Popular(h.s));
    }
  }

  lemma BranchParses(fp: bool, h: Half) returns (c: Rvc)
    requires h.q == Q1 && h.f.b2 && h.f.b1
    ensures Legal(fp, c) && Encode16(c) == h
  {
    if h.f == B3(I, I, O) {
      var m := BranchOffset(h);
      c := CBeqz(Popular(h.r), m);
    } else {
      var m := BranchOffset(h);
      c := CBnez(Popular(h.r), m);
    }
  }

  lemma DoubleLoadParses(fp: bool, h: Half) returns (c: Rvc)
    requires h.q == Q2 && !h.f.b2 && !h.f.b1 && !Quadrant2(fp, h).illegal
    ensures Legal(fp, c) && Encode16(c) == h
  {
    if h.f == B3(O, O, O) {
      c := CSlli(h.r, h.s);
    } else {
      var m := DoubleLoadOffset(h);
      c := CFldsp(h.r, m);
    }
  }

  lemma WordStackLoadParses(fp: bool, h: Half) returns (c: Rvc)
    requires h.q == Q2 && h.f == B3(O, I, O) && h.r != X0
    ensures Legal(fp, c) && Encode16(c) == h
  {
    var m := WordLoadOffset(h);
    c := CLwsp(h.r, m);
  }

  lemma FloatStackLoadParses(fp: bool, h: Half) returns (c: Rvc)
    requires h.q == Q2 && h.f == B3(O, I, I) && !Quadrant2(fp, h).illegal
    ensures Legal(fp, c) && Encode16(c) == h
  {
    var m := WordLoadOffset(h);
    c := CFlwsp(h.r, m);
  }

  lemma RegisterFormParses(fp: bool, h: Half) returns (c: Rvc)
    requires h.q == Q2 && h.f == B3(I, O, O) && !Registers(h).illegal
    ensures Legal(fp, c) && Encode16(c) == h
  {
    if !h.x {
      if h.s == X0 {
        c := CJr(h.r);
      } else {
        c := CMv(h.r, h.s);
      }
    } else {
      if h.s != X0 {
        c := CAdd(h.r, h.s);
      } else if h.r == X0 {
        c := CEbreak;
      } else {
        c := CJalr(h.r);
      }
    }
  }

  lemma DoubleStoreParses(fp: bool, h: Half) returns (c: Rvc)
    requires h.q == Q2 && h.f == B3(I, O, I) && !Quadrant2(fp, h).illegal
    ensures Legal(fp, c) && Encode16(c) == h
  {
    var m := DoubleStoreOffset(h);
    c := CFsdsp(h.s, m);
  }

  lemma WordStackStoreParses(fp: bool, h: Half) returns (c: Rvc)
    requires h.q == Q2 && h.f == B3(I, I, O)
    ensures Legal(fp, c) && Encode16(c) == h
  {
    var m := WordStoreOffset(h);
    c := CSwsp(h.s, m);
  }

  lemma FloatStackStoreParses(fp: bool, h: Half) returns (c: Rvc)
    requires h.q == Q2 && h.f == B3(I, I, I) && !Quadrant2(fp, h).illegal
    ensures Legal(fp, c) && Encode16(c) == h
  {
    var m := WordStoreOffset(h);
    c := CFswsp(h.s, m);
  }

  /** The compressed instruction behind an accepted half-word. */
  lemma Parses(fp: bool, h: Half, next: Half) returns (c: Rvc)
    requires !Wide(h) && !Decompress(fp, Word(next, h)).illegal
    ensures Legal(fp, c) && Encode16(c) == h
  {
    if h.q == Q0 {
      if h.f == B3(O, O, O) {
        c := StackAddressParses(fp, h);
      } else if h.f.b2 {
        c := StoreParses(fp, h);
      } else {
        c := LoadParses(fp, h);
      }
    } else if h.q == Q1 {
      if !h.f.b1 && h.f.b0 {
        c := JumpParses(fp, h);
      } else if h.f == B3(O, I, I) && h.r == X2 {
        c := StackMoveParses(fp, h);
      } else if h.f == B3(O, I, I) {
        c := UpperParses(fp, h);
      } else if h.f == B3(I, O, O) {
        if h.r.b4 && h.r.b3 && h.s.b4 {
          c := OrAndParses(fp, h);
        } else if h.r.b4 && h.r.b3 {
          c := SubXorParses(fp, h);
        } else {
          c := ShiftParses(fp, h);
        }
      } else if h.f.b2 {
        c := BranchParses(fp, h);
      } else {
        c := ImmediateParses(fp, h);
      }
    } else if !h.f.b2 && !h.f.b1 {
      c := DoubleLoadParses(fp, h);
    } else if h.f == B3(O, I, O) {
      c := WordStackLoadParses(fp, h);
    } else if !h.f.b2 {
      c := FloatStackLoadParses(fp, h);
    } else if h.f == B3(I, O, O) {
      c := RegisterFormParses(fp, h);
    } else if h.f == B3(I, O, I) {
      c := DoubleStoreParses(fp, h);
    } else if !h.f.b0 {
      c := WordStackStoreParses(fp, h);
    } else {
      c := FloatStackStoreParses(fp, h);
    }
  }

  /** A half-word is accepted exactly when it encodes a legal compressed instruction. */
  lemma AcceptedIffRvc(fp: bool, h: Half, next: Half)
    requires !Wide(h)
    ensures !Decompress(fp, Word(next, h)).illegal <==> exists c :: Legal(fp, c) && Encode16(c) == h
  {
    if !Decompress(fp, Word(next, h)).illegal {
      var c := Parses(fp, h, next);
      assert Legal(fp, c) && Encode16(c) == h;
    }
    forall c | Legal(fp, c) && Encode16(c) == h
      ensures !Decompress(fp, Word(next, h)).illegal
    {
      DecompressExpands(fp, c, next);
    }
  }
}
