// Every instruction of the common subset is read back by the disassembler from the bytes the
// encoder appended for it, wherever those bytes stand and whatever follows them.

module RoundTrip {
  import opened Bytes
  import opened Operands
  import opened Encoding
  import opened Decoding
  import opened RmRoundTrip

  // ---- the subset ----

  predicate Wide(s: RegSize) { s == R64 || s == R32 }

  predicate RegIn(o: Operand) { o.Reg? && IsGpr(o.reg) && Wide(o.size) }

  predicate MemIn(o: Operand) {
    o.Memory? && WellFormed(o.mem) && RmAccepted(o) && RoundTrips(o.mem) && o.mem.segment == Default
  }

  predicate RmIn(o: Operand) { RegIn(o) || MemIn(o) }

  /** A register beside a register of the same size, or beside memory. */
  predicate RegRm(r: Operand, rm: Operand) {
    RegIn(r) && RmIn(rm) && (rm.Reg? ==> rm.size == r.size)
  }

  /** A 64-bit register or memory. */
  predicate Rm64(o: Operand) { RmIn(o) && RmSize(o) == R64 }

  /** Byte registers setcc can be read back from: spl, bpl, sil and dil get no REX prefix. */
  predicate ByteReg(o: Operand) {
    o.Reg? && ((o.size == R8 && (o.reg < 4 || 8 <= o.reg < 16)) || (o.size == R8H && 4 <= o.reg < 8))
  }

  /** The arithmetic mnemonics whose register forms the decoder knows. */
  predicate RegAlu(a: AluOp) { a != Adc && a != Sbb }

  /**
   * Immediate moves that reach their operand: an int32 to memory, anything to a register, but for the two
   * forms that set REX.R where REX.B is meant.
   */
  predicate MovImmIn(o: Operand, v: int) {
    if o.Reg? then RegIn(o) && (o.reg >= 8 ==> o.size == R64 && (FitsInt32(v) || 0 <= v <= UINT32_MAX))
    else MemIn(o) && FitsInt32(v)
  }

  /** An int32 beside memory or a register; the wide accumulator form is not known to the decoder. */
  predicate AluImmIn(o: Operand, v: int) {
    RmIn(o) && FitsInt32(v)
    && (o.Reg? ==> (o.size == R64 || o.reg < 8) && (o.reg == 0 ==> FitsInt8(v)))
  }

  predicate TestImmIn(o: Operand, v: int) { RmIn(o) && FitsInt32(v) && (o.Reg? ==> o.reg != 0) }

  /** Instructions that are not branches to labels. */
  predicate Straight(i: Instruction) {
    var os := i.operands;
    match i.op
    case Mov =>
      |os| == 2
      && if os[1].Imm? then MovImmIn(os[0], os[1].value)
         else RegRm(os[0], os[1]) || RegRm(os[1], os[0])
    case Alu(a) =>
      |os| == 2
      && if os[1].Imm? then AluImmIn(os[0], os[1].value)
         else RegAlu(a) && (RegRm(os[0], os[1]) || RegRm(os[1], os[0]))
    case Test => |os| == 2 && if os[1].Imm? then TestImmIn(os[0], os[1].value) else RegRm(os[1], os[0])
    case Lea => |os| == 2 && RegRm(os[0], os[1]) && os[1].Memory?
    case Cmov(_) => |os| == 2 && RegRm(os[0], os[1])
    case Imul => |os| == 2 && RegRm(os[0], os[1])
    case Bsf => |os| == 2 && RegRm(os[0], os[1])
    case Bsr => |os| == 2 && RegRm(os[0], os[1])
    case Bits(_) => |os| == 2 && RmIn(os[0]) && os[1].Imm? && 0 <= os[1].value < 256
    case Unary(_) => |os| == 1 && RmIn(os[0])
    case SetCc(_) => |os| == 1 && (ByteReg(os[0]) || MemIn(os[0]))
    case Push => |os| == 1 && (Rm64(os[0]) || (os[0].Imm? && FitsInt32(os[0].value)))
    case Pop => |os| == 1 && Rm64(os[0])
    case Jmp => |os| == 1 && Rm64(os[0])
    case Call => |os| == 1 && Rm64(os[0])
    case Ret => |os| == 0
    case Syscall => |os| == 0
    case Nop => |os| == 0
    case Leave => |os| == 0
    case _ => false
  }

  function ViewAll(os: seq<Operand>): (r: seq<Operand>)
    ensures |r| == |os|
  {
    seq(|os|, k requires 0 <= k < |os| => View(os[k]))
  }

  function ViewInst(i: Instruction): Instruction { Instruction(i.op, ViewAll(i.operands)) }

  /** What the listing shows for a straight instruction: a 32-bit immediate comes out unsigned. */
  function Shown(i: Instruction): Instruction {
    var os := i.operands;
    if i.op == Push && |os| == 1 && os[0].Imm? && !FitsInt8(os[0].value) then
      Instruction(Push, [Imm(os[0].value % TWO32)])
    else if |os| == 2 && os[1].Imm? && i.op == Mov && os[0].Reg? then
      MovShown(os[0].reg, os[0].size, os[1].value)
    else if |os| == 2 && os[1].Imm? && (i.op == Mov || i.op == Test || (i.op.Alu? && !FitsInt8(os[1].value))) then
      Instruction(i.op, [View(os[0]), Imm(os[1].value % TWO32)])
    else ViewInst(i)
  }

  /** mov of a 64-bit register is listed with its 32-bit name when the zero extension gives the value. */
  function MovShown(r: Reg, size: RegSize, v: int): Instruction {
    if size == R32 || 0 <= v <= UINT32_MAX then Instruction(Mov, [Reg(r, R32), Imm(v % TWO32)])
    else Instruction(Mov, [Reg(r, R64), Imm(v % if FitsInt32(v) then TWO32 else TWO64)])
  }

  // ---- labels ----

  /** The memory operand that names a label, if there is one. */
  function LabelledMem(i: Instruction): Option<Mem> {
    var os := i.operands;
    if |os| > 0 && os[0].Memory? && os[0].mem.lbl != "" then Some(os[0].mem)
    else if |os| > 1 && os[1].Memory? && os[1].mem.lbl != "" then Some(os[1].mem)
    else None
  }

  /** How many immediate bytes a straight instruction has behind its memory operand. */
  function ImmBytes(i: Instruction): nat {
    if |i.operands| != 2 || !i.operands[1].Imm? then 0
    else if i.op.Bits? || (i.op.Alu? && FitsInt8(i.operands[1].value)) then 1
    else if i.op.Mov? || i.op.Test? || i.op.Alu? then 4
    else 0
  }

  /** Emission e leaves the displacement of m, with n bytes behind it, to fixup resolution. */
  ghost predicate FieldFor(e: Emission, m: Option<Mem>, n: nat) {
    match m
    case None => e.field == None
    case Some(m) =>
      && |e.bytes| >= 4 + n
      && e.field == Some(Field(m.lbl, |e.bytes| - 4 - n, 4, m.isRip))
      && e.bytes[|e.bytes| - 4 - n..|e.bytes| - n] == Le(m.disp, 4)
  }

  lemma MemField(reg: int, m: Mem)
    requires RmAccepted(Memory(m)) && LabelKept(m)
    ensures FieldFor(ModRmMem(reg, m), if m.lbl != "" then Some(m) else None, 0)
  {
    hide Le, MakeModRm, MakeSib;
  }

  lemma FormField(w: bool, regOp: Option<Operand>, rm: Operand, opcode: seq<byte>, reg: int, imm: seq<byte>)
    requires MemIn(rm) || rm.Reg?
    requires Form([], w, regOp, rm, opcode, reg, imm).Some?
    ensures FieldFor(Form([], w, regOp, rm, opcode, reg, imm).value,
                     if rm.Memory? && rm.mem.lbl != "" then Some(rm.mem) else None, |imm|)
  {
    hide Le, MakeModRm, MakeSib, Rex, ModRmMem;
    if rm.Memory? {
      MemField(reg, rm.mem);
      var e := ModRmMem(reg, rm.mem);
      var f := Form([], w, regOp, rm, opcode, reg, imm).value;
      if rm.mem.lbl != "" {
        var head := [] + Rex(w, regOp, Some(rm)) + opcode;
        assert f.bytes == head + e.bytes + imm;
        var o := |e.bytes| - 4;
        assert f.bytes[|head| + o..|head| + o + 4] == e.bytes[o..o + 4];
      }
    }
  }

  // The arguments of the common encoder tail.
  datatype Shape = Shape(w: bool, regOp: Option<Operand>, rm: Operand, opcode: seq<byte>, reg: int, imm: seq<byte>)

  function RegShape(opcode: seq<byte>, r: Operand, rm: Operand): Shape
    requires r.Reg?
  {
    Shape(r.size == R64, Some(r), rm, opcode, r.reg, [])
  }

  function TwoWayShape(store: byte, load: byte, a: Operand, b: Operand): Shape
    requires a.Reg? || b.Reg?
  {
    if a.Reg? && b.Memory? then RegShape([load], a, b)
    else if b.Reg? then RegShape([store], b, a)
    else RegShape([load], a, b)
  }

  /** The form a straight instruction is encoded by, None for those without a ModRM byte. */
  function ShapeOf(i: Instruction): Option<Shape>
    requires Straight(i)
  {
    var os := i.operands;
    match i.op
    case Mov =>
      if !os[1].Imm? then Some(TwoWayShape(0x89, 0x8B, os[0], os[1]))
      else if os[0].Memory? || (os[0].size == R64 && FitsInt32(os[1].value) && os[1].value < 0) then
        Some(Shape(true, None, os[0], [0xC7], 0, Le(os[1].value, 4)))
      else None
    case Alu(a) =>
      if os[1].Imm? then
        var wide := !FitsInt8(os[1].value);
        Some(Shape(RmSize(os[0]) == R64, None, os[0], [if wide then 0x81 else 0x83], Group1Code(a),
                   if wide then Le(os[1].value, 4) else [os[1].value % 256]))
      else Some(TwoWayShape(0x01 + Group1Code(a) * 8, 0x03 + Group1Code(a) * 8, os[0], os[1]))
    case Test =>
      if os[1].Imm? then Some(Shape(RmSize(os[0]) == R64, None, os[0], [0xF7], 0, Le(os[1].value, 4)))
      else Some(RegShape([0x85], os[1], os[0]))
    case Lea => Some(RegShape([0x8D], os[0], os[1]))
    case Cmov(c) => Some(RegShape([0x0F, 0x40 + CondCode(c)], os[0], os[1]))
    case Imul => Some(RegShape([0x0F, 0xAF], os[0], os[1]))
    case Bsf => Some(RegShape([0x0F, 0xBC], os[0], os[1]))
    case Bsr => Some(RegShape([0x0F, 0xBD], os[0], os[1]))
    case Bits(b) => Some(Shape(RmSize(os[0]) == R64, None, os[0], [0x0F, 0xBA], BitCode(b), [os[1].value % 256]))
    case Unary(u) =>
      Some(Shape(RmSize(os[0]) == R64, None, os[0], [if u.Inc? || u.Dec? then 0xFF else 0xF7], UnaryCode(u), []))
    case SetCc(c) => Some(Shape(false, None, os[0], [0x0F, 0x90 + CondCode(c)], 0, []))
    case Push => if os[0].Memory? then Some(Shape(true, None, os[0], [0xFF], 6, [])) else None
    case Pop => if os[0].Memory? then Some(Shape(true, None, os[0], [0x8F], 0, [])) else None
    case Jmp => Some(Shape(true, None, os[0], [0xFF], 4, []))
    case Call => Some(Shape(true, None, os[0], [0xFF], 2, []))
    case _ => None
  }

  function Formed(s: Shape): Option<Emission> { Form([], s.w, s.regOp, s.rm, s.opcode, s.reg, s.imm) }

  /** Every straight instruction is accepted and encoded by its form; without one it has no memory operand. */
  lemma DispatchShape(i: Instruction, env: Env)
    requires Straight(i)
    ensures match ShapeOf(i)
      case None => LabelledMem(i) == None && Dispatch(i, env).Some? && Dispatch(i, env).value.field == None
      case Some(s) =>
        && Dispatch(i, env) == Formed(s) && (MemIn(s.rm) || s.rm.Reg?)
        && (s.regOp.Some? ==> s.regOp.value.Reg?)
        && LabelledMem(i) == (if s.rm.Memory? && s.rm.mem.lbl != "" then Some(s.rm.mem) else None)
        && |s.imm| == ImmBytes(i)
  {
    hide Form, Le, MakeModRm, MakeRex, Rex, ToInt32, CondCode, WellFormed, RoundTrips, RmAccepted, ValidScale;
    var os := i.operands;
    if |os| == 2 && os[1].Imm? && !i.op.Bits? {
      hide EncodeAlu, EncodeMov, EncodeTest, MovRegImm;
      if i.op.Alu? {
        AluImmForm(i.op.alu, os[0], os[1].value);
      } else if i.op.Mov? {
        MovImmForm(os[0], os[1].value);
      } else {
        TestImmForm(os[0], os[1].value);
      }
    }
  }

  lemma MovImmForm(rm: Operand, v: int)
    requires MovImmIn(rm, v)
    ensures EncodeMov(rm, Imm(v)) == (if rm.Reg? then MovRegImm(rm, v)
        else Form([], true, None, rm, [0xC7], 0, Le(v, 4)))
    ensures rm.Reg? && rm.size == R64 && FitsInt32(v) && v < 0 ==>
      MovRegImm(rm, v) == Form([], true, None, rm, [0xC7], 0, Le(v, 4))
    ensures rm.Reg? && !(rm.size == R64 && FitsInt32(v) && v < 0) ==>
      MovRegImm(rm, v).Some? && MovRegImm(rm, v).value.field == None
  {
    hide Form, Le, MakeRex, Rex, WellFormed, RoundTrips, RmAccepted;
  }

  lemma TestImmForm(rm: Operand, v: int)
    requires TestImmIn(rm, v)
    ensures EncodeTest(rm, Imm(v)) == Form([], RmSize(rm) == R64, None, rm, [0xF7], 0, Le(v, 4))
  {
    hide Form, Le, WellFormed, RoundTrips, RmAccepted;
  }

  /** A straight instruction leaves a field exactly for its labelled operand, before its immediate bytes. */
  lemma StraightField(i: Instruction, env: Env)
    requires Straight(i) && Dispatch(i, env).Some?
    ensures FieldFor(Dispatch(i, env).value, LabelledMem(i), ImmBytes(i))
  {
    hide Form, Dispatch, ShapeOf, Straight, MemIn, LabelledMem, ImmBytes, Le;
    DispatchShape(i, env);
    if ShapeOf(i).Some? {
      var s := ShapeOf(i).value;
      FormField(s.w, s.regOp, s.rm, s.opcode, s.reg, s.imm);
    }
  }

  // ---- finding the parts of an instruction in the code ----

  lemma Opening(code: seq<byte>, base: int, start: nat, rex: seq<byte>, op: byte)
    requires |rex| <= 1 && (rex != [] ==> 0x40 <= rex[0] <= 0x4F) && !IsPrefix(op)
    requires At(code, start, rex + [op])
    ensures DecodeOne(code, base, start)
         == DecodeOpcode(Cursor(code, base, start, start + |rex| + 1, false, RexByte(rex)), op)
    ensures Cursor(code, base, start, start + |rex| + 1, false, RexByte(rex)).Valid()
  {
    hide DecodeOpcode, At;
    AtByte(code, start, rex + [op], |rex|);
    AtInside(code, start, rex + [op]);
    if rex != [] {
      AtByte(code, start, rex + [op], 0);
      assert ScanPrefixes(code, start + 1, false, rex[0]) == Prefixes(start + 1, false, rex[0]);
    }
    assert ScanPrefixes(code, start, false, 0) == Prefixes(start + |rex|, false, RexByte(rex));
  }

  /** The pieces of a ModRM instruction as the decoder meets them. */
  ghost predicate Parts(code: seq<byte>, start: nat, rex: seq<byte>, opcode: seq<byte>, size: RegSize,
                        reg: int, rm: Operand, length: nat, imm: seq<byte>)
  {
    var p := start + |rex| + |opcode|;
    && (rm.Reg? ==> IsGpr(rm.reg))
    && At(code, start, rex + opcode)
    && p < |code| && RegOf(code[p]) == reg % 8
    && DecodeRm(code, p, RexByte(rex), size).Some?
    && DecodeRm(code, p, RexByte(rex), size).value.length == length
    && View(DecodeRm(code, p, RexByte(rex), size).value.operand)
       == (if rm.Reg? then SelectReg(rm.reg, size, rex != []) else View(rm))
    && ReadField(code, p + length, |imm|) == Some(imm)
  }

  lemma FormBytes(w: bool, regOp: Option<Operand>, rm: Operand, opcode: seq<byte>, reg: int, imm: seq<byte>)
    requires Form([], w, regOp, rm, opcode, reg, imm).Some?
    ensures ModRm(reg, rm).Some?
    ensures Form([], w, regOp, rm, opcode, reg, imm).value.bytes
         == ((Rex(w, regOp, Some(rm)) + opcode) + ModRm(reg, rm).value.bytes) + imm
  {
    hide Rex, ModRm;
    assert [] + Rex(w, regOp, Some(rm)) + opcode == Rex(w, regOp, Some(rm)) + opcode;
  }

  lemma FormSome(w: bool, regOp: Option<Operand>, rm: Operand, opcode: seq<byte>, reg: int, imm: seq<byte>)
    requires RmAccepted(rm)
    ensures Form([], w, regOp, rm, opcode, reg, imm).Some?
  {
  }

  lemma FormParts(w: bool, regOp: Option<Operand>, rm: Operand, opcode: seq<byte>, reg: int, imm: seq<byte>,
                  code: seq<byte>, start: nat, size: RegSize)
    requires rm.Reg? || rm.Memory?
    requires rm.Reg? ==> IsGpr(rm.reg)
    requires rm.Memory? ==> MemIn(rm)
    requires Form([], w, regOp, rm, opcode, reg, imm).Some?
    requires At(code, start, Form([], w, regOp, rm, opcode, reg, imm).value.bytes)
    ensures var rex := Rex(w, regOp, Some(rm)); var e := Form([], w, regOp, rm, opcode, reg, imm).value;
      && ModRm(reg, rm).Some?
      && Parts(code, start, rex, opcode, size, reg, rm, |ModRm(reg, rm).value.bytes|, imm)
      && |e.bytes| == |rex| + |opcode| + |ModRm(reg, rm).value.bytes| + |imm|
  {
    hide Rex, ModRm, DecodeRm, RegOf, View, Form, RexB, RexX, RexR, RexW, MemIn, SelectReg;
    FormBytes(w, regOp, rm, opcode, reg, imm);
    var rex := Rex(w, regOp, Some(rm));
    RexFields(w, regOp, rm);
    PartsFrom(rex, rm, opcode, reg, imm, code, start, size);
  }

  lemma PartsFrom(rex: seq<byte>, rm: Operand, opcode: seq<byte>, reg: int, imm: seq<byte>,
                  code: seq<byte>, start: nat, size: RegSize)
    requires rm.Reg? || rm.Memory?
    requires rm.Reg? ==> IsGpr(rm.reg)
    requires rm.Memory? ==> MemIn(rm)
    requires ModRm(reg, rm).Some? && RexCovers(RexByte(rex), rm)
    requires rex != [] ==> rex[0] != 0
    requires At(code, start, ((rex + opcode) + ModRm(reg, rm).value.bytes) + imm)
    ensures Parts(code, start, rex, opcode, size, reg, rm, |ModRm(reg, rm).value.bytes|, imm)
  {
    hide ModRm, DecodeRm, RegOf, View, RexB, RexX, RexCovers, SelectReg;
    var m := ModRm(reg, rm).value.bytes;
    AtSplit(code, start, (rex + opcode) + m, imm);
    AtSplit(code, start, rex + opcode, m);
    OperandRoundTrip(reg, rm, code, start + |rex| + |opcode|, RexByte(rex), size);
  }

  // ---- what each opcode byte means to the decoder ----

  /** One-byte opcodes with a register field. */
  predicate RegOpcode(op: byte, mn: Op, regFirst: bool) {
    match mn
    case Mov => if regFirst then op == 0x8B else op == 0x89
    case Lea => regFirst && op == 0x8D
    case Test => !regFirst && op == 0x85
    case Alu(a) => RegAlu(a) && op == (if regFirst then 0x03 else 0x01) + Group1Code(a) * 8
    case _ => false
  }

  lemma RegOpcodePlain(op: byte, mn: Op, regFirst: bool)
    requires RegOpcode(op, mn, regFirst)
    ensures !IsPrefix(op)
  {
  }

  lemma RegOpcodeDecodes(c: Cursor, op: byte, mn: Op, regFirst: bool)
    requires c.Valid() && RegOpcode(op, mn, regFirst)
    ensures DecodeOpcode(c, op) == DecodeRmReg(c, mn, c.Size(), c.Size(), regFirst)
  {
    hide DecodeModRmOpcode, DecodeRmReg, DecodeEscape, DecodeRel, SelectReg, CondName, Signed, Unsigned;
    RegOpcodeMode(c, op, mn, regFirst);
  }

  lemma RegOpcodeMode(c: Cursor, op: byte, mn: Op, regFirst: bool)
    requires c.Valid() && RegOpcode(op, mn, regFirst)
    ensures HasModRm(op) && DecodeModRmOpcode(c, op) == DecodeRmReg(c, mn, c.Size(), c.Size(), regFirst)
  {
    hide DecodeRm, RegOf, ModOf, RexR, RexB, RexW, SelectReg, Signed, Unsigned, Group1Name, Group2Name,
         DecodeRmImm, DecodeRmOnly;
  }

  /** Two-byte opcodes with a register field, register first. */
  predicate EscapeOpcode(op2: byte, mn: Op) {
    match mn
    case Cmov(c) => op2 == 0x40 + CondCode(c)
    case Imul => op2 == 0xAF
    case Bsf => op2 == 0xBC
    case Bsr => op2 == 0xBD
    case _ => false
  }

  lemma CondTable(c: Cond)
    ensures CondName(CondCode(c)) == c
  {
  }

  lemma EscapeOpcodeDecodes(c: Cursor, op2: byte, mn: Op)
    requires c.Valid() && EscapeOpcode(op2, mn)
    ensures DecodeEscape(c, op2) == DecodeRmReg(c, mn, c.Size(), c.Size(), true)
  {
    hide DecodeRm, RegOf, RexR;
    if mn.Cmov? {
      CondTable(mn.cc);
    }
  }

  /** One-byte opcodes that select their mnemonic by the register field and take no immediate. */
  predicate ExtOpcode(op: byte, ext: int, mn: Op) {
    match mn
    case Unary(u) => op == (if u.Inc? || u.Dec? then 0xFF else 0xF7) && ext == UnaryCode(u)
    case Call => op == 0xFF && ext == 2
    case Jmp => op == 0xFF && ext == 4
    case Push => op == 0xFF && ext == 6
    case Pop => op == 0x8F && ext == 0
    case _ => false
  }

  lemma ExtOpcodePlain(op: byte, ext: int, mn: Op)
    requires ExtOpcode(op, ext, mn)
    ensures !IsPrefix(op) && 0 <= ext < 8
  {
  }

  lemma ExtOpcodeDecodes(c: Cursor, op: byte, ext: int, mn: Op)
    requires c.Valid() && c.p < |c.code| && ExtOpcode(op, ext, mn) && RegOf(c.code[c.p]) == ext
    requires DecodeRm(c.code, c.p, c.rex, c.Size()).Some?
    ensures DecodeOpcode(c, op) == DecodeRmOnly(c, mn, c.Size())
  {
    hide DecodeRm, RegOf, RexR;
  }

  // ---- register forms ----

  /** DecodeRmReg on the parts of an instruction shows the operands the instruction was made of. */
  lemma RegResult(c: Cursor, mn: Op, r: Operand, rm: Operand, regFirst: bool,
                  rex: seq<byte>, opcode: seq<byte>, length: nat)
    requires c.Valid() && RegRm(r, rm) && c.Size() == r.size
    requires c.p == c.start + |rex| + |opcode| && c.rex == RexByte(rex)
    requires RexR(c.rex) == (if r.reg >= 8 then 8 else 0)
    requires Parts(c.code, c.start, rex, opcode, r.size, r.reg, rm, length, [])
    ensures var d := DecodeRmReg(c, mn, r.size, r.size, regFirst);
      d.Some? && d.value.length == |rex| + |opcode| + length
      && ViewInst(d.value.inst) == ViewInst(Instruction(mn, if regFirst then [r, rm] else [rm, r]))
  {
    hide DecodeRm, RegOf, RexR, At;
    assert c.RegField(r.size) == r;
  }

  lemma RegForm(op: byte, mn: Op, regFirst: bool, r: Operand, rm: Operand, code: seq<byte>, base: int, start: nat)
    requires RegOpcode(op, mn, regFirst) && RegRm(r, rm)
    requires At(code, start, Form([], r.size == R64, Some(r), rm, [op], r.reg, []).value.bytes)
    ensures var e := Form([], r.size == R64, Some(r), rm, [op], r.reg, []).value;
      var d := DecodeOne(code, base, start);
      d.Some? && d.value.length == |e.bytes|
      && ViewInst(d.value.inst) == ViewInst(Instruction(mn, if regFirst then [r, rm] else [rm, r]))
  {
    hide Rex, Form, ModRm, DecodeRm, DecodeOpcode, DecodeEscape, DecodeOne, RegOf, RexR, RexW, RexB, RexX, RegOpcode,
         EscapeOpcode, ExtOpcode, View, At;
    var w := r.size == R64;
    var rex := Rex(w, Some(r), Some(rm));
    FormSome(w, Some(r), rm, [op], r.reg, []);
    FormParts(w, Some(r), rm, [op], r.reg, [], code, start, r.size);
    RexFields(w, Some(r), rm);
    var c := Cursor(code, base, start, start + |rex| + 1, false, RexByte(rex));
    RegOpcodePlain(op, mn, regFirst);
    Opening(code, base, start, rex, op);
    RegOpcodeDecodes(c, op, mn, regFirst);
    RegResult(c, mn, r, rm, regFirst, rex, [op], |ModRm(r.reg, rm).value.bytes|);
  }

  lemma EscapeForm(op2: byte, mn: Op, r: Operand, rm: Operand, code: seq<byte>, base: int, start: nat)
    requires EscapeOpcode(op2, mn) && RegRm(r, rm)
    requires At(code, start, Form([], r.size == R64, Some(r), rm, [0x0F, op2], r.reg, []).value.bytes)
    ensures var e := Form([], r.size == R64, Some(r), rm, [0x0F, op2], r.reg, []).value;
      var d := DecodeOne(code, base, start);
      d.Some? && d.value.length == |e.bytes|
      && ViewInst(d.value.inst) == ViewInst(Instruction(mn, [r, rm]))
  {
    hide Rex, Form, ModRm, DecodeRm, DecodeOpcode, DecodeEscape, DecodeOne, RegOf, RexR, RexW, RexB, RexX, RegOpcode,
         EscapeOpcode, ExtOpcode, View, At;
    var w := r.size == R64;
    var rex := Rex(w, Some(r), Some(rm));
    FormSome(w, Some(r), rm, [0x0F, op2], r.reg, []);
    FormParts(w, Some(r), rm, [0x0F, op2], r.reg, [], code, start, r.size);
    RexFields(w, Some(r), rm);
    var c := Cursor(code, base, start, start + |rex| + 2, false, RexByte(rex));
    EscapeOpening(code, base, start, rex, op2);
    EscapeOpcodeDecodes(c, op2, mn);
    RegResult(c, mn, r, rm, true, rex, [0x0F, op2], |ModRm(r.reg, rm).value.bytes|);
  }

  lemma EscapeOpening(code: seq<byte>, base: int, start: nat, rex: seq<byte>, op2: byte)
    requires |rex| <= 1 && (rex != [] ==> 0x40 <= rex[0] <= 0x4F)
    requires At(code, start, rex + [0x0F, op2])
    ensures Cursor(code, base, start, start + |rex| + 2, false, RexByte(rex)).Valid()
    ensures DecodeOne(code, base, start)
         == DecodeEscape(Cursor(code, base, start, start + |rex| + 2, false, RexByte(rex)), op2)
  {
    hide DecodeEscape, DecodeOne, DecodeModRmOpcode, DecodeRel, ScanPrefixes, At;
    assert rex + [0x0F, op2] == (rex + [0x0F]) + [op2];
    AtSplit(code, start, rex + [0x0F], [op2]);
    AtByte(code, start + |rex| + 1, [op2], 0);
    AtInside(code, start + |rex| + 1, [op2]);
    Opening(code, base, start, rex, 0x0F);
  }

  lemma AtInside(code: seq<byte>, start: nat, s: seq<byte>)
    requires At(code, start, s)
    ensures start + |s| <= |code|
  {
  }

  /** DecodeRmOnly and DecodeRmImm on the parts of an instruction. */
  lemma RmResult(c: Cursor, mn: Op, rm: Operand, size: RegSize,
                 rex: seq<byte>, opcode: seq<byte>, reg: int, length: nat, imm: seq<byte>)
    requires c.Valid() && (RmIn(rm) || (rm.Reg? && IsGpr(rm.reg)))
    requires c.p == c.start + |rex| + |opcode| && c.rex == RexByte(rex)
    requires Parts(c.code, c.start, rex, opcode, size, reg, rm, length, imm)
    ensures var shown := if rm.Reg? then SelectReg(rm.reg, size, rex != []) else rm;
      var d, n := DecodeRmOnly(c, mn, size), |rex| + |opcode| + length;
      && d.Some? && d.value.length == n
      && ViewInst(d.value.inst) == ViewInst(Instruction(mn, [shown]))
      && forall signed ::
           var d := DecodeRmImm(c, mn, size, |imm|, signed);
           d.Some? && d.value.length == n + |imm|
           && ViewInst(d.value.inst)
              == ViewInst(Instruction(mn, [shown, Imm(if signed then Signed(imm) else Unsigned(imm))]))
  {
    hide DecodeRm, RegOf, At, Signed, Unsigned;
  }

  lemma ExtForm(op: byte, ext: nat, mn: Op, rm: Operand, code: seq<byte>, base: int, start: nat)
    requires ExtOpcode(op, ext, mn) && RmIn(rm)
    requires At(code, start, Form([], RmSize(rm) == R64, None, rm, [op], ext, []).value.bytes)
    ensures var e := Form([], RmSize(rm) == R64, None, rm, [op], ext, []).value;
      var d := DecodeOne(code, base, start);
      d.Some? && d.value.length == |e.bytes|
      && ViewInst(d.value.inst) == ViewInst(Instruction(mn, [rm]))
  {
    hide Rex, Form, ModRm, DecodeRm, DecodeOpcode, DecodeEscape, DecodeOne, RegOf, RexR, RexW, RexB, RexX, RegOpcode,
         EscapeOpcode, ExtOpcode, View, At;
    var w := RmSize(rm) == R64;
    var size := if w then R64 else R32;
    var rex := Rex(w, None, Some(rm));
    FormSome(w, None, rm, [op], ext, []);
    FormParts(w, None, rm, [op], ext, [], code, start, size);
    RexFields(w, None, rm);
    var c := Cursor(code, base, start, start + |rex| + 1, false, RexByte(rex));
    ExtOpcodePlain(op, ext, mn);
    Opening(code, base, start, rex, op);
    ExtOpcodeDecodes(c, op, ext, mn);
    RmResult(c, mn, rm, size, rex, [op], ext, |ModRm(ext, rm).value.bytes|, []);
  }

  // ---- immediates behind a ModRM operand ----

  /** The one-byte immediates, read signed behind 0x83 and unsigned behind 0F BA. */
  lemma ImmByte(v: int)
    ensures FitsInt8(v) ==> Signed([v % 256]) == v
    ensures 0 <= v < 256 ==> Unsigned([v % 256]) == v
  {
    SignedFits([v % 256]);
    assert [v % 256][1..] == [];
  }

  /** One-byte opcodes with an immediate of n bytes, shown signed only behind 0x83. */
  predicate ImmOpcode(op: byte, ext: int, mn: Op, n: nat) {
    match mn
    case Alu(a) => ext == Group1Code(a) && ((op == 0x83 && n == 1) || (op == 0x81 && n == 4))
    case Mov => op == 0xC7 && ext == 0 && n == 4
    case Test => op == 0xF7 && ext == 0 && n == 4
    case _ => false
  }

  lemma ImmOpcodeDecodes(c: Cursor, op: byte, ext: int, mn: Op, n: nat)
    requires c.Valid() && !c.opSize && ImmOpcode(op, ext, mn, n)
    requires c.p < |c.code| && RegOf(c.code[c.p]) == ext && DecodeRm(c.code, c.p, c.rex, c.Size()).Some?
    ensures !IsPrefix(op) && DecodeOpcode(c, op) == DecodeRmImm(c, mn, c.Size(), n, n == 1)
  {
    hide DecodeRm, RegOf, DecodeRmImm, DecodeRel, DecodeEscape, DecodeRmReg, DecodeRmOnly;
  }

  /** What such a field holding v is shown as. */
  lemma ImmSeen(v: int, n: nat)
    requires n == 1 || n == 4
    requires n == 1 ==> FitsInt8(v)
    ensures var f := if n == 1 then [v % 256] else Le(v, 4);
      |f| == n && (if n == 1 then Signed(f) else Unsigned(f)) == if n == 1 then v else v % TWO32
  {
    if n == 1 { ImmByte(v); } else { UnsignedLe32(v); }
  }

  /** mov, test and arithmetic with an immediate behind the operand, whether a register or memory. */
  lemma ImmForm(op: byte, ext: int, mn: Op, n: nat, rm: Operand, v: int, code: seq<byte>, base: int, start: nat)
    requires ImmOpcode(op, ext, mn, n) && RmIn(rm) && (n == 1 ==> FitsInt8(v))
    requires var imm := if n == 1 then [v % 256] else Le(v, 4);
      At(code, start, Form([], RmSize(rm) == R64, None, rm, [op], ext, imm).value.bytes)
    ensures var imm := if n == 1 then [v % 256] else Le(v, 4);
      var e := Form([], RmSize(rm) == R64, None, rm, [op], ext, imm).value; var d := DecodeOne(code, base, start);
      d.Some? && d.value.length == |e.bytes|
      && ViewInst(d.value.inst) == ViewInst(Instruction(mn, [rm, Imm(if n == 1 then v else v % TWO32)]))
  {
    hide Rex, Form, ModRm, DecodeRm, DecodeOpcode, DecodeEscape, DecodeOne, RegOf, RexR, RexW, RexB, RexX, RegOpcode,
         EscapeOpcode, ExtOpcode, View, At, Le, Signed, Unsigned;
    var w := RmSize(rm) == R64;
    var size := if w then R64 else R32;
    var rex := Rex(w, None, Some(rm));
    var imm := if n == 1 then [v % 256] else Le(v, 4);
    FormSome(w, None, rm, [op], ext, imm);
    FormParts(w, None, rm, [op], ext, imm, code, start, size);
    RexFields(w, None, rm);
    var c := Cursor(code, base, start, start + |rex| + 1, false, RexByte(rex));
    ImmOpcodeDecodes(c, op, ext, mn, n);
    Opening(code, base, start, rex, op);
    RmResult(c, mn, rm, size, rex, [op], ext, |ModRm(ext, rm).value.bytes|, imm);
    ImmSeen(v, n);
  }

  lemma BitsImm(b: BitOp, rm: Operand, v: int, code: seq<byte>, base: int, start: nat)
    requires RmIn(rm) && 0 <= v < 256
    requires At(code, start, Form([], RmSize(rm) == R64, None, rm, [0x0F, 0xBA], BitCode(b), [v % 256]).value.bytes)
    ensures var e := Form([], RmSize(rm) == R64, None, rm, [0x0F, 0xBA], BitCode(b), [v % 256]).value;
      var d := DecodeOne(code, base, start);
      d.Some? && d.value.length == |e.bytes|
      && ViewInst(d.value.inst) == ViewInst(Instruction(Bits(b), [rm, Imm(v)]))
  {
    hide Rex, Form, ModRm, DecodeRm, DecodeOpcode, DecodeEscape, DecodeOne, RegOf, RexR, RexW, RexB, RexX, RegOpcode,
         EscapeOpcode, ExtOpcode, View, At;
    var ext := BitCode(b);
    var w := RmSize(rm) == R64;
    var size := if w then R64 else R32;
    var rex := Rex(w, None, Some(rm));
    FormSome(w, None, rm, [0x0F, 0xBA], ext, [v % 256]);
    FormParts(w, None, rm, [0x0F, 0xBA], ext, [v % 256], code, start, size);
    RexFields(w, None, rm);
    var c := Cursor(code, base, start, start + |rex| + 2, false, RexByte(rex));
    EscapeOpening(code, base, start, rex, 0xBA);
    ByteBA(c, b);
    RmResult(c, Bits(b), rm, size, rex, [0x0F, 0xBA], ext, |ModRm(ext, rm).value.bytes|, [v % 256]);
    ImmByte(v);
  }

  lemma ByteBA(c: Cursor, b: BitOp)
    requires c.Valid() && c.p < |c.code| && RegOf(c.code[c.p]) == BitCode(b)
    ensures DecodeEscape(c, 0xBA) == DecodeRmImm(c, Bits(b), c.Size(), 1, false)
  {
    hide DecodeRm, RegOf;
  }

  // ---- setcc ----

  /** setcc on any byte register or memory: what comes back is the operand itself except for spl, bpl, sil and dil. */
  lemma SetCcForm(cc: Cond, o: Operand, code: seq<byte>, base: int, start: nat)
    requires MemIn(o) || (o.Reg? && IsGpr(o.reg) && (o.size == R8 || (o.size == R8H && 4 <= o.reg < 8)))
    requires At(code, start, EncodeSetCc(cc, o).value.bytes)
    ensures var d := DecodeOne(code, base, start);
      && d.Some? && d.value.length == |EncodeSetCc(cc, o).value.bytes|
      && (ViewInst(d.value.inst) == ViewInst(Instruction(SetCc(cc), [o])) <==> MemIn(o) || ByteReg(o))
  {
    hide Rex, Form, ModRm, DecodeRm, DecodeOpcode, DecodeEscape, DecodeOne, RegOf, RexR, RexW, RexB, RexX, RegOpcode,
         EscapeOpcode, ExtOpcode, View, At;
    var op2 := 0x90 + CondCode(cc);
    var rex := Rex(false, None, Some(o));
    FormSome(false, None, o, [0x0F, op2], 0, []);
    FormParts(false, None, o, [0x0F, op2], 0, [], code, start, R8);
    RexFields(false, None, o);
    ByteRex(o);
    var c := Cursor(code, base, start, start + |rex| + 2, false, RexByte(rex));
    EscapeOpening(code, base, start, rex, op2);
    Byte90(c, cc);
    RmResult(c, SetCc(cc), o, R8, rex, [0x0F, op2], 0, |ModRm(0, o).value.bytes|, []);
    var shown := if o.Reg? then SelectReg(o.reg, R8, rex != []) else o;
    assert ViewInst(Instruction(SetCc(cc), [shown])).operands[0] == View(shown);
    assert ViewInst(Instruction(SetCc(cc), [o])).operands[0] == View(o);
    if o.Reg? {
      ViewReg(o);
      ViewReg(shown);
    }
  }

  lemma ByteRex(o: Operand)
    requires (o.Reg? && IsGpr(o.reg)) || o.Memory?
    ensures o.Reg? ==> (Rex(false, None, Some(o)) != [] <==> o.reg >= 8)
  {
  }

  lemma ViewReg(o: Operand)
    requires o.Reg?
    ensures View(o) == o
  {
  }

  lemma Byte90(c: Cursor, cc: Cond)
    requires c.Valid()
    ensures DecodeEscape(c, 0x90 + CondCode(cc)) == DecodeRmOnly(c, SetCc(cc), R8)
  {
    hide DecodeRm, RegOf;
    CondTable(cc);
  }

  // ---- push, pop and the fixed encodings ----

  lemma PushPopReg(push: bool, r: Reg, code: seq<byte>, base: int, start: nat)
    requires IsGpr(r)
    requires At(code, start, EncodePushPop(push, Gpr(r)).value.bytes)
    ensures DecodeOne(code, base, start)
         == Some(Decoded(|EncodePushPop(push, Gpr(r)).value.bytes|, Instruction(if push then Push else Pop, [Gpr(r)])))
  {
    hide DecodeOne, ScanPrefixes, At;
    var rex: seq<byte> := if r >= 8 then [0x41] else [];
    var op := (if push then 0x50 else 0x58) + r % 8;
    Opening(code, base, start, rex, op);
    assert RexByte(rex) % 2 * 8 == (if r >= 8 then 8 else 0);
  }

  lemma PushImm(v: int, code: seq<byte>, base: int, start: nat)
    requires FitsInt32(v)
    requires At(code, start, EncodePushPop(true, Imm(v)).value.bytes)
    ensures DecodeOne(code, base, start)
         == Some(Decoded(|EncodePushPop(true, Imm(v)).value.bytes|, Shown(Instruction(Push, [Imm(v)]))))
  {
    hide DecodeOne, Le, Signed, Unsigned;
    var bytes := EncodePushPop(true, Imm(v)).value.bytes;
    var op: byte := if FitsInt8(v) then 0x6A else 0x68;
    var field := if FitsInt8(v) then [v % 256] else Le(v, 4);
    assert bytes == [op] + field;
    AtSplit(code, start, [op], field);
    assert [] + [op] == [op];
    Opening(code, base, start, [], op);
    assert ReadField(code, start + 1, |field|) == Some(field);
    ImmByte(v);
    UnsignedLe32(v);
    assert ViewAll([Imm(v)]) == [Imm(v)];
  }

  lemma FixedForm(i: Instruction, env: Env, code: seq<byte>, base: int, start: nat)
    requires i.op == Ret || i.op == Syscall || i.op == Nop || i.op == Leave
    requires i.operands == []
    requires At(code, start, Dispatch(i, env).value.bytes)
    ensures DecodeOne(code, base, start) == Some(Decoded(|Dispatch(i, env).value.bytes|, i))
  {
    hide DecodeOne, DecodeOpcode, DecodeEscape, At, IsPrefix, Dispatch;
    FixedBytes(i, env);
    var bytes := Dispatch(i, env).value.bytes;
    FixedOpcode(Cursor(code, base, start, start + |bytes|, false, 0));
    if i.op == Syscall {
      assert [] + [0x0F, 0x05] == bytes;
      EscapeOpening(code, base, start, [], 0x05);
    } else {
      assert [] + [bytes[0]] == bytes;
      Opening(code, base, start, [], bytes[0]);
    }
  }

  lemma FixedBytes(i: Instruction, env: Env)
    requires i.op == Ret || i.op == Syscall || i.op == Nop || i.op == Leave
    requires i.operands == []
    ensures Dispatch(i, env)
         == Some(Plain(if i.op == Ret then [0xC3]
                       else if i.op == Syscall then [0x0F, 0x05]
                       else if i.op == Nop then [0x90]
                       else [0xC9]))
  {
  }

  /** The one-byte instructions and syscall, to the decoder. */
  lemma FixedOpcode(c: Cursor)
    ensures !IsPrefix(0xC3) && !IsPrefix(0x90) && !IsPrefix(0xC9)
    ensures c.Valid() ==>
      && DecodeOpcode(c, 0xC3) == Some(Decoded(c.p - c.start, Instruction(Ret, [])))
      && DecodeOpcode(c, 0x90) == Some(Decoded(c.p - c.start, Instruction(Nop, [])))
      && DecodeOpcode(c, 0xC9) == Some(Decoded(c.p - c.start, Instruction(Leave, [])))
      && DecodeEscape(c, 0x05) == Some(Decoded(c.p - c.start, Instruction(Syscall, [])))
  {
    hide DecodeModRmOpcode, DecodeRel;
  }

  // ---- all straight instructions ----

  lemma SelfView(i: Instruction)
    requires forall o <- i.operands :: !o.Memory?
    ensures ViewInst(i) == i
  {
    assert ViewAll(i.operands) == i.operands;
  }

  lemma {:induction false} InstDecoded(i: Instruction, env: Env, code: seq<byte>, base: int, start: nat)
    requires Straight(i)
    requires Dispatch(i, env).Some?
    requires At(code, start, Dispatch(i, env).value.bytes)
    ensures var d := DecodeOne(code, base, start);
      d.Some? && d.value.length == |Dispatch(i, env).value.bytes| && ViewInst(d.value.inst) == Shown(i)
  {
    hide DecodeOne, Form, View, At, ModRm, Rex;
    var os := i.operands;
    match i.op
    case Mov =>
      if os[1].Imm? {
        MovImmRoundTrip(i, env, code, base, start);
      } else if RegRm(os[0], os[1]) && os[1].Memory? {
        RegForm(0x8B, Mov, true, os[0], os[1], code, base, start);
        assert os == [os[0], os[1]];
      } else {
        RegForm(0x89, Mov, false, os[1], os[0], code, base, start);
        assert os == [os[0], os[1]];
      }
    case Alu(a) => AluRoundTrip(i, env, code, base, start);
    case Test =>
      assert os == [os[0], os[1]];
      if os[1].Imm? {
        TestImmForm(os[0], os[1].value);
        ImmForm(0xF7, 0, Test, 4, os[0], os[1].value, code, base, start);
        ShownTwo(Test, os[0], os[1].value % TWO32);
      } else {
        RegForm(0x85, Test, false, os[1], os[0], code, base, start);
      }
    case Lea => RegForm(0x8D, Lea, true, os[0], os[1], code, base, start); assert os == [os[0], os[1]];
    case Cmov(c) => EscapeForm(0x40 + CondCode(c), Cmov(c), os[0], os[1], code, base, start);
      assert os == [os[0], os[1]];
    case Imul => EscapeForm(0xAF, Imul, os[0], os[1], code, base, start); assert os == [os[0], os[1]];
    case Bsf => EscapeForm(0xBC, Bsf, os[0], os[1], code, base, start); assert os == [os[0], os[1]];
    case Bsr => EscapeForm(0xBD, Bsr, os[0], os[1], code, base, start); assert os == [os[0], os[1]];
    case Bits(b) => BitsImm(b, os[0], os[1].value, code, base, start); assert os == [os[0], os[1]];
    case Unary(u) =>
      ExtForm(if u.Inc? || u.Dec? then 0xFF else 0xF7, UnaryCode(u), Unary(u), os[0], code, base, start);
      assert os == [os[0]];
    case SetCc(c) => SetCcForm(c, os[0], code, base, start); assert os == [os[0]];
    case _ => OthersRoundTrip(i, env, code, base, start);
  }

  /**
   * One instruction: every straight instruction of the subset is accepted, and wherever its bytes stand
   * in the code, decode_one consumes exactly those bytes and shows the instruction; the label it names,
   * if any, is left beside the bytes.
   */
  lemma InstRoundTrip(i: Instruction, env: Env, code: seq<byte>, base: int, start: nat)
    requires Straight(i)
    ensures Dispatch(i, env).Some?
    ensures FieldLabel(Dispatch(i, env).value) == if LabelledMem(i).Some? then LabelledMem(i).value.lbl else ""
    ensures At(code, start, Dispatch(i, env).value.bytes) ==>
      var d := DecodeOne(code, base, start);
      d.Some? && d.value.length == |Dispatch(i, env).value.bytes| && ViewInst(d.value.inst) == Shown(i)
  {
    hide Straight, Dispatch, ShapeOf, DecodeOne, At, LabelledMem, ImmBytes, Form, ModRm, ViewInst, Shown, Le;
    DispatchShape(i, env);
    if ShapeOf(i).Some? {
      ShapeAccepted(ShapeOf(i).value);
    }
    StraightField(i, env);
    if At(code, start, Dispatch(i, env).value.bytes) {
      InstDecoded(i, env, code, base, start);
    }
  }

  lemma ShapeAccepted(s: Shape)
    requires MemIn(s.rm) || s.rm.Reg?
    ensures Formed(s).Some?
  {
    FormSome(s.w, s.regOp, s.rm, s.opcode, s.reg, s.imm);
  }

  /** sete spl gets no REX prefix and is read back as sete ah. */
  lemma SetCcSplLost()
    ensures EncodeSetCc(E, Reg(4, R8)) == Some(Plain([0x0F, 0x94, 0xC4]))
    ensures DecodeOne([0x0F, 0x94, 0xC4], 0, 0) == Some(Decoded(3, Instruction(SetCc(E), [Reg(4, R8H)])))
  {
    hide DecodeRm, DecodeOne, DecodeEscape, DecodeOpcode, EncodeSetCc;
    SplBytes();
    var code: seq<byte> := [0x0F, 0x94, 0xC4];
    SplRm(code);
    assert [] + [0x0F, 0x94] == code[0..2];
    EscapeOpening(code, 0, 0, [], 0x94);
    Byte90(Cursor(code, 0, 0, 2, false, 0), E);
  }

  lemma SplBytes()
    ensures EncodeSetCc(E, Reg(4, R8)) == Some(Plain([0x0F, 0x94, 0xC4]))
  {
    var rm := Reg(4, R8);
    assert Rex(false, None, Some(rm)) == [] && MakeModRm(3, 0, 4) == 0xC4;
    hide Rex, MakeModRm;
    assert [] + [] + [0x0F, 0x94] + [0xC4] + [] == [0x0F, 0x94, 0xC4];
  }

  lemma SplRm(code: seq<byte>)
    requires |code| == 3 && code[2] == 0xC4
    ensures DecodeRm(code, 2, 0, R8) == Some(Rm(Reg(4, R8H), 1))
  {
    assert ModOf(code[2]) == 3 && RmOf(code[2]) == 4 && RexB(0) == 0;
    hide ModOf, RmOf, RexB, DecodeDisp;
  }

  lemma ShownTwo(op: Op, o: Operand, v: int)
    ensures ViewInst(Instruction(op, [o, Imm(v)])) == Instruction(op, [View(o), Imm(v)])
  {
    assert ViewAll([o, Imm(v)]) == [View(o), Imm(v)];
  }

  lemma MovImmRoundTrip(i: Instruction, env: Env, code: seq<byte>, base: int, start: nat)
    requires Straight(i) && i.op == Mov && i.operands[1].Imm?
    requires Dispatch(i, env).Some?
    requires At(code, start, Dispatch(i, env).value.bytes)
    ensures var d := DecodeOne(code, base, start);
      d.Some? && d.value.length == |Dispatch(i, env).value.bytes| && ViewInst(d.value.inst) == Shown(i)
  {
    hide DecodeOne, Form, Le, MovRegImm, View, ViewInst, At;
    var o, v := i.operands[0], i.operands[1].value;
    assert i.operands == [o, Imm(v)];
    assert Dispatch(i, env) == EncodeMov(o, Imm(v));
    MovImmForm(o, v);
    hide EncodeMov, Dispatch;
    if ShapeOf(i).Some? {
      ImmForm(0xC7, 0, Mov, 4, o, v, code, base, start);
      ShownTwo(Mov, o, v % TWO32);
      if o.Reg? {
        ViewReg(o);
      }
    } else {
      MovLoad(o.reg, o.size, v, code, base, start);
      SelfView(MovShown(o.reg, o.size, v));
    }
  }

  /** mov of a register by opcode B8+r: four immediate bytes under the 32-bit name, or eight. */
  lemma MovLoad(r: Reg, size: RegSize, v: int, code: seq<byte>, base: int, start: nat)
    requires MovImmIn(Reg(r, size), v) && !(size == R64 && FitsInt32(v) && v < 0)
    requires MovRegImm(Reg(r, size), v).Some?
    requires At(code, start, MovRegImm(Reg(r, size), v).value.bytes)
    ensures DecodeOne(code, base, start)
         == Some(Decoded(|MovRegImm(Reg(r, size), v).value.bytes|, MovShown(r, size, v)))
  {
    hide DecodeOne, Le, Unsigned, At;
    var wide := size == R64 && !(0 <= v <= UINT32_MAX);
    var rex := if wide then [0x48] else if r >= 8 then [0x41] else [];
    var op: byte, f := 0xB8 + r % 8, Le(v, if wide then 8 else 4);
    assert MovRegImm(Reg(r, size), v).value.bytes == (rex + [op]) + f by {
      hide Le;
      assert MakeRex(true, false, false, false) == 0x48 && MakeRex(false, false, false, true) == 0x41;
    }
    hide MovRegImm;
    AtSplit(code, start, rex + [op], f);
    Opening(code, base, start, rex, op);
    var c := Cursor(code, base, start, start + |rex| + 1, false, RexByte(rex));
    assert ReadField(code, c.p, |f|) == Some(f) by { AtInside(code, c.p, f); AtField(code, c.p, f); }
    MovLoadOpcode(c, op, wide, f, r);
    UnsignedLe32(v);
    UnsignedLe64(v);
  }

  lemma AtField(code: seq<byte>, p: nat, f: seq<byte>)
    requires At(code, p, f)
    ensures ReadField(code, p, |f|) == Some(f)
  {
  }

  lemma MovLoadOpcode(c: Cursor, op: byte, wide: bool, f: seq<byte>, r: Reg)
    requires c.Valid() && !c.opSize && IsGpr(r) && op == 0xB8 + r % 8
    requires c.rex == (if wide then 0x48 else if r >= 8 then 0x41 else 0) && (wide ==> r < 8)
    requires |f| == (if wide then 8 else 4) && ReadField(c.code, c.p, |f|) == Some(f)
    ensures !IsPrefix(op)
    ensures DecodeOpcode(c, op) == Some(Decoded(c.p + |f| - c.start,
              Instruction(Mov, [Reg(r, if wide then R64 else R32), Imm(Unsigned(f))])))
  {
    hide DecodeModRmOpcode, DecodeEscape, DecodeRel, ReadField, Unsigned;
    assert RexB(c.rex) == (if r >= 8 then 8 else 0) && RexW(c.rex) == wide;
  }

  lemma AluRoundTrip(i: Instruction, env: Env, code: seq<byte>, base: int, start: nat)
    requires Straight(i) && i.op.Alu?
    requires Dispatch(i, env).Some?
    requires At(code, start, Dispatch(i, env).value.bytes)
    ensures var d := DecodeOne(code, base, start);
      d.Some? && d.value.length == |Dispatch(i, env).value.bytes| && ViewInst(d.value.inst) == Shown(i)
  {
    hide DecodeOne, Form, IsGpr, Le;
    var os, a := i.operands, i.op.alu;
    assert os == [os[0], os[1]];
    if os[1].Imm? {
      var v := os[1].value;
      AluImmForm(a, os[0], v);
      hide EncodeAlu;
      var n := if FitsInt8(v) then 1 else 4;
      ImmForm(if n == 1 then 0x83 else 0x81, Group1Code(a), i.op, n, os[0], v, code, base, start);
    } else if RegRm(os[0], os[1]) && os[1].Memory? {
      RegForm(0x03 + Group1Code(a) * 8, Alu(a), true, os[0], os[1], code, base, start);
    } else {
      RegForm(0x01 + Group1Code(a) * 8, Alu(a), false, os[1], os[0], code, base, start);
    }
  }

  lemma AluImmForm(a: AluOp, rm: Operand, v: int)
    requires AluImmIn(rm, v)
    ensures EncodeAlu(a, rm, Imm(v))
         == Form([], RmSize(rm) == R64, None, rm, [if FitsInt8(v) then 0x83 else 0x81], Group1Code(a),
                 if FitsInt8(v) then [v % 256] else Le(v, 4))
  {
    hide Le, MakeModRm, WellFormed, RoundTrips, ModRmMem;
    var rex := Rex(RmSize(rm) == R64, None, Some(rm));
    assert [] + rex + [0x83] == rex + [0x83] && [] + rex + [0x81] == rex + [0x81];
  }

  lemma OthersRoundTrip(i: Instruction, env: Env, code: seq<byte>, base: int, start: nat)
    requires Straight(i)
    requires i.op == Push || i.op == Pop || i.op == Jmp || i.op == Call
      || i.op == Ret || i.op == Syscall || i.op == Nop || i.op == Leave
    requires Dispatch(i, env).Some?
    requires At(code, start, Dispatch(i, env).value.bytes)
    ensures var d := DecodeOne(code, base, start);
      d.Some? && d.value.length == |Dispatch(i, env).value.bytes| && ViewInst(d.value.inst) == Shown(i)
  {
    hide DecodeOne, Form;
    var os := i.operands;
    if os == [] {
      FixedForm(i, env, code, base, start);
    } else if os[0].Imm? {
      assert os == [Imm(os[0].value)];
      PushImm(os[0].value, code, base, start);
      SelfView(Shown(i));
    } else if os[0].Reg? && (i.op == Push || i.op == Pop) {
      assert os == [Gpr(os[0].reg)];
      PushPopReg(i.op == Push, os[0].reg, code, base, start);
      SelfView(i);
    } else {
      assert os == [os[0]];
      var op := if i.op == Pop then 0x8F else 0xFF;
      var ext := if i.op == Pop then 0 else if i.op == Push then 6 else if i.op == Jmp then 4 else 2;
      ExtForm(op, ext, i.op, os[0], code, base, start);
    }
  }
}
