// The fixed buffers of the listing: what the assembler emits fits the bytes of one line, and what the
// disassembler prints fits its texts.

module Buffers {
  import opened Bytes
  import opened Operands
  import opened Encoding
  import opened Decoding
  import opened Text
  import opened PrintParse
  import Disassembler

  // ---- instructions as they are emitted ----

  predicate AtMost(e: Option<Emission>, n: nat) { e.Some? ==> |e.value.bytes| <= n }

  lemma FormShort(prefix: seq<byte>, w: bool, regOp: Option<Operand>, rm: Operand, opcode: seq<byte>, reg: int,
                  imm: seq<byte>)
    ensures AtMost(Form(prefix, w, regOp, rm, opcode, reg, imm), 7 + |prefix| + |opcode| + |imm|)
  {
    hide MakeModRm, MakeSib, MakeRex;
  }

  lemma MovShort(dst: Operand, v: int)
    requires dst.Reg?
    ensures AtMost(MovRegImm(dst, v), 14)
  {
    hide MakeModRm, MakeSib, MakeRex;
  }

  lemma AluShort(ext: nat, dst: Operand, v: int)
    requires dst.Reg? && ext < 8
    ensures AtMost(AluRegImm(ext, dst, v), 14)
  {
    hide MakeModRm, MakeSib, MakeRex, ToInt32;
  }

  lemma DispatchShort(i: Instruction, env: Env)
    ensures AtMost(Dispatch(i, env), 14)
  {
    hide Form, MovRegImm, AluRegImm, MakeModRm, MakeRex, ToInt32, ShortDisp, CondCode, RexConflict;
    forall prefix, w, regOp, rm, opcode, reg, imm {
      FormShort(prefix, w, regOp, rm, opcode, reg, imm);
    }
    forall dst: Operand, v | dst.Reg? {
      MovShort(dst, v);
    }
    forall ext: nat, dst: Operand, v | dst.Reg? && ext < 8 {
      AluShort(ext, dst, v);
    }
  }

  /** Every instruction the assembler accepts has room in one line of the listing. */
  lemma EncodedShort(i: Instruction, env: Env)
    ensures AtMost(Encode(i, env), MAX_INST_BYTES)
  {
    hide Dispatch;
    forall env': Env {
      DispatchShort(i, env');
    }
  }

  // ---- operands and lines as they are printed ----

  // The char arrays of decode_one and format_rm_operand, terminator included.
  const OPERAND_SIZE: nat := 128
  const TEXT_SIZE: nat := 192

  function Power16(k: nat): nat { if k == 0 then 1 else 16 * Power16(k - 1) }

  /** A number below 16^k takes at most k digits. */
  lemma {:induction false} HexLength(n: nat, k: nat)
    requires k > 0 && n < Power16(k)
    ensures 1 <= |Hex(n)| <= k
    decreases k
  {
    if n >= 16 {
      assert k > 1 by {
        assert Power16(1) == 16 * Power16(0);
      }
      HexLength(n / 16, k - 1);
    }
  }

  lemma Hex8(n: nat)
    requires n < TWO32
    ensures |Hex(n)| <= 8
  {
    assert Power16(4) == 65536 && Power16(8) == 16 * (16 * (16 * (16 * Power16(4))));
    HexLength(n, 8);
  }

  lemma Hex16(n: nat)
    requires n < TWO64
    ensures |Hex(n)| <= 16
  {
    assert Power16(4) == 65536 && Power16(8) == 16 * (16 * (16 * (16 * Power16(4))));
    assert Power16(12) == 16 * (16 * (16 * (16 * Power16(8)))) && Power16(16) == 16 * (16 * (16 * (16 * Power16(12))));
    HexLength(n, 16);
  }

  /** What the decoder puts in an operand. */
  predicate Shortish(o: Operand) {
    match o
    case Reg(_, _) => true
    case Imm(v) => -TWO64 < v < TWO64
    case Memory(m) => Printed(m)
    case Label(_) => false
  }

  lemma RegisterShort(r: Reg, size: RegSize)
    ensures |RegName(r, size)| <= 5
  {
  }

  lemma MemShort(m: Mem)
    requires Printed(m)
    ensures |RenderMem(m)| <= 28
  {
    hide Hex, RegName;
    Hex8(if m.disp < 0 then -m.disp else m.disp);
    Hex8(m.disp % TWO32);
    forall r: Reg, size {
      RegisterShort(r, size);
    }
  }

  lemma OperandShort(o: Operand)
    requires Shortish(o)
    ensures |RenderOperand(o)| <= 28
  {
    hide Hex, RegName, RenderMem;
    match o
    case Reg(r, size) => RegisterShort(r, size);
    case Imm(v) => Hex16(if v < 0 then -v else v);
    case Memory(m) => MemShort(m);
  }

  lemma OpShort(op: Op)
    ensures |OpText(op)| <= 7
  {
    assert forall c: Cond :: |CondText(c)| <= 2;
    hide CondText;
  }

  predicate FewOperands(r: Option<Decoded>) {
    r.Some? ==> |r.value.inst.operands| <= 2 && forall o <- r.value.inst.operands :: Shortish(o)
  }

  lemma TextShort(i: Instruction)
    requires |i.operands| <= 2 && forall o <- i.operands :: Shortish(o)
    ensures |RenderInst(i)| <= 72
  {
    hide OpText, RenderOperand, Shortish;
    OpShort(i.op);
    forall o | o in i.operands {
      OperandShort(o);
    }
    if |i.operands| == 2 {
      assert i.operands[1..] == [i.operands[1]];
      assert JoinOperands(i.operands[1..]) == RenderOperand(i.operands[1]);
    }
    if |i.operands| == 1 && i.operands[0].Imm? && 0 <= i.operands[0].value < 16 {
      Hex8(i.operands[0].value);
    }
  }

  lemma RmShort(code: seq<byte>, p: nat, rex: byte, size: RegSize)
    ensures var r := DecodeRm(code, p, rex, size); r.Some? ==> Shortish(r.value.operand)
  {
    hide Signed, Unsigned, SelectReg;
    var r := DecodeRm(code, p, rex, size);
    if r.Some? && r.value.operand.Memory? {
      Disassembler.DecodedPrinted(code, p, rex, size);
    }
    forall c: int, z: RegSize, x: bool | 0 <= c < 16
      ensures SelectReg(c, z, x).Reg?
    {
      RegisterOnly(c, z, x);
    }
  }

  lemma RegisterOnly(c: int, size: RegSize, rex: bool)
    requires 0 <= c < 16
    ensures SelectReg(c, size, rex).Reg?
  {
  }

  lemma FieldShort(s: seq<byte>)
    requires |s| <= 8
    ensures -TWO64 < Signed(s) < TWO64 && Unsigned(s) < TWO64
  {
    UnsignedBound(s);
    Pow256Values();
    PowerOrder(|s|, 8);
    if s != [] {
      TopByte(s);
    }
  }

  lemma {:induction false} PowerOrder(m: nat, n: nat)
    requires m <= n
    ensures Pow256(m) <= Pow256(n)
    decreases n
  {
    if m < n {
      PowerOrder(m, n - 1);
    }
  }

  lemma RelShort(c: Cursor, op: Op, n: nat)
    requires c.Valid()
    ensures FewOperands(DecodeRel(c, op, n))
  {
    hide Signed;
  }

  lemma RmRegShort(c: Cursor, op: Op, rmSize: RegSize, regSize: RegSize, regFirst: bool)
    requires c.Valid()
    ensures FewOperands(DecodeRmReg(c, op, rmSize, regSize, regFirst))
  {
    hide DecodeRm, SelectReg;
    RmShort(c.code, c.p, c.rex, rmSize);
    if c.p < |c.code| {
      RegisterOnly(RegOf(c.code[c.p]) + RexR(c.rex), regSize, c.rex != 0);
    }
  }

  lemma RmOnlyShort(c: Cursor, op: Op, size: RegSize)
    requires c.Valid()
    ensures FewOperands(DecodeRmOnly(c, op, size))
  {
    hide DecodeRm;
    RmShort(c.code, c.p, c.rex, size);
  }

  lemma RmImmShort(c: Cursor, op: Op, size: RegSize, n: nat, signed: bool)
    requires c.Valid() && n <= 8
    ensures FewOperands(DecodeRmImm(c, op, size, n, signed))
  {
    hide DecodeRm, Signed, Unsigned;
    RmShort(c.code, c.p, c.rex, size);
    var rm := DecodeRm(c.code, c.p, c.rex, size);
    if rm.Some? && c.p + rm.value.length + n <= |c.code| {
      FieldShort(c.code[c.p + rm.value.length..c.p + rm.value.length + n]);
    }
  }

  lemma EscapeShort(c: Cursor, op2: byte)
    requires c.Valid()
    ensures FewOperands(DecodeEscape(c, op2))
  {
    hide DecodeRm, DecodeRel, DecodeRmReg, DecodeRmOnly, DecodeRmImm, CondName, Printed;
    RmShort(c.code, c.p, c.rex, R32);
    forall op, n {
      RelShort(c, op, n);
    }
    forall op, a, b, f {
      RmRegShort(c, op, a, b, f);
    }
    forall op, a {
      RmOnlyShort(c, op, a);
    }
    forall op, a, n: nat, f | n <= 8 {
      RmImmShort(c, op, a, n, f);
    }
  }

  lemma ModRmShort(c: Cursor, op: byte)
    requires c.Valid() && HasModRm(op)
    ensures FewOperands(DecodeModRmOpcode(c, op))
  {
    hide DecodeRm, DecodeRmReg, DecodeRmOnly, DecodeRmImm, Group1Name, AluOpcode, Printed;
    RmShort(c.code, c.p, c.rex, R32);
    forall o, a, b, f {
      RmRegShort(c, o, a, b, f);
    }
    forall o, a {
      RmOnlyShort(c, o, a);
    }
    forall o, a, n: nat, f | n <= 8 {
      RmImmShort(c, o, a, n, f);
    }
  }

  lemma OpcodeShort(c: Cursor, op: byte)
    requires c.Valid()
    ensures FewOperands(DecodeOpcode(c, op))
  {
    hide DecodeEscape, DecodeModRmOpcode, DecodeRel, SelectReg, CondName, Signed, Unsigned, Printed;
    forall o, n {
      RelShort(c, o, n);
    }
    if op == 0x0F && c.p < |c.code| {
      EscapeShort(c.(p := c.p + 1), c.code[c.p]);
    } else if HasModRm(op) {
      ModRmShort(c, op);
    }
    if 0xB8 <= op <= 0xBF {
      RegisterOnly(op - 0xB8 + RexB(c.rex), c.Size(), c.rex != 0);
    }
    var wide := if RexW(c.rex) then 8 else if c.opSize then 2 else 4;
    var n := if op == 0x6A then 1 else if op == 0x68 then 4 else wide;
    if c.p + n <= |c.code| {
      FieldShort(c.code[c.p..c.p + n]);
    }
  }

  /** Whatever the bytes, no operand and no line of text reaches the end of the array it is printed into. */
  lemma TextsFit(code: seq<byte>, base: int, start: nat, p: nat, rex: byte, size: RegSize)
    ensures var r := DecodeRm(code, p, rex, size); r.Some? ==> |RenderOperand(r.value.operand)| < OPERAND_SIZE
    ensures var d := DecodeOne(code, base, start); d.Some? ==> |RenderInst(d.value.inst)| < TEXT_SIZE
  {
    hide DecodeRm, DecodeOpcode, RenderInst, RenderOperand;
    RmShort(code, p, rex, size);
    if DecodeRm(code, p, rex, size).Some? {
      OperandShort(DecodeRm(code, p, rex, size).value.operand);
    }
    if DecodeOne(code, base, start).Some? {
      var pre := ScanPrefixes(code, start, false, 0);
      OpcodeShort(Cursor(code, base, start, pre.cursor + 1, pre.opSize, pre.rex), code[pre.cursor]);
      TextShort(DecodeOne(code, base, start).value.inst);
    }
  }
}
