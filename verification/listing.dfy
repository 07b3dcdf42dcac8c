// The whole program: what a pass emitted and fixup resolution patched is disassembled to the
// program's instructions, one entry each, with every branch at its label's final address.

module Listing {
  import opened Bytes
  import opened Operands
  import opened Encoding
  import opened Decoding
  import opened RmRoundTrip
  import opened RoundTrip
  import Symbols
  import Buffers
  import opened Linking
  import L = Layout
  import F = Fixups

  // ---- the statements that are listed back ----

  predicate LabelBranch(i: Instruction) {
    (i.op.Jmp? || i.op.Jcc? || i.op.Jnz? || i.op.Call?) && |i.operands| == 1 && i.operands[0].Label?
  }

  /** mov of a 64-bit register from a label, a load relative to rip */
  predicate LabelLoad(i: Instruction) {
    i.op.Mov? && |i.operands| == 2 && RegIn(i.operands[0]) && i.operands[0].size == R64 && i.operands[1].Label?
  }

  predicate Listable(s: L.Statement) {
    || L.LabelOnly(s)
    || s.body.Align?
    || (s.body.Inst? && (Straight(s.body.inst) || LabelBranch(s.body.inst) || LabelLoad(s.body.inst)))
  }

  /** A branch whose short form was chosen: it has no field left for resolution. */
  predicate ShortBranch(c: Chunk) {
    c.stmt.body.Inst? && LabelBranch(c.stmt.body.inst) && c.e.field.None?
  }

  /** The label an instruction refers to. */
  function LabelOf(i: Instruction): Option<string> {
    if LabelBranch(i) then Some(i.operands[0].name)
    else if LabelLoad(i) then Some(i.operands[1].name)
    else if LabelledMem(i).Some? then Some(LabelledMem(i).value.lbl)
    else None
  }

  predicate LabelKnown(i: Instruction, addresses: map<string, int>) {
    LabelOf(i).Some? ==> LabelOf(i).value in addresses
  }

  /**
   * What the listing shows for an instruction that ends at end, in terms of the program and the final
   * addresses only: branches show their label's address, labelled memory operands the displacement that
   * reaches label plus addend, but for the slip of rip-relative ones before an immediate.
   */
  function FinalInst(i: Instruction, end: int, addresses: map<string, int>): Instruction
    requires LabelKnown(i, addresses)
  {
    if LabelBranch(i) then Instruction(Listed(i.op), [Imm(addresses[i.operands[0].name] % TWO64)])
    else if LabelLoad(i) then
      Instruction(Mov, [i.operands[0], Memory(NO_MEM.(isRip := true, disp := addresses[i.operands[1].name] - end))])
    else if LabelledMem(i).Some? then Shown(LinkInst(i, LinkDisp(i, end, addresses)))
    else Shown(i)
  }

  /** The end of a chunk. */
  function End(c: Chunk): int { c.at + |c.e.bytes| }

  lemma NoPrefix(i: Instruction, env: Env)
    requires Straight(i) || LabelBranch(i) || LabelLoad(i)
    ensures Encode(i, env) == Dispatch(i, env)
  {
    hide Dispatch;
    DefaultSegment(i);
    var e := Dispatch(i, env);
    assert env.(at := env.at + 0) == env;
    if e.Some? {
      assert [] + e.value.bytes == e.value.bytes;
      assert e.value.Before([]) == e.value;
    }
  }

  lemma DefaultSegment(i: Instruction)
    requires Straight(i) || LabelBranch(i) || LabelLoad(i)
    ensures SegmentOf(i.operands) == Some(Default) && SegmentPrefix(Default) == []
  {
    var os := i.operands;
    assert |os| <= 2;
    assert SegmentOf([]) == Some(Default);
    if |os| > 0 {
      assert os[..1][..0] == [];
      assert SegmentOf(os[..1]) == Some(Default);
      assert |os| == 1 ==> os[..1] == os;
    }
  }

  /** Every instruction takes at least one byte. */
  lemma NonEmpty(i: Instruction, env: Env)
    ensures var e := Dispatch(i, env); e.Some? ==> e.value.bytes != []
  {
    hide Form, AluRegImm, MovRegImm, Rex, MakeModRm, MakeRex, Le, ToInt32, ShortDisp;
    forall prefix, w, regOp, rm, opcode, reg, imm {
      FormNonEmpty(prefix, w, regOp, rm, opcode, reg, imm);
    }
    forall dst: Operand, v | dst.Reg? {
      MovNonEmpty(dst, v);
    }
    forall ext: nat, dst: Operand, v | dst.Reg? && ext < 8 {
      AluNonEmpty(ext, dst, v);
    }
  }

  lemma FormNonEmpty(prefix: seq<byte>, w: bool, regOp: Option<Operand>, rm: Operand, opcode: seq<byte>, reg: int,
                     imm: seq<byte>)
    ensures var e := Form(prefix, w, regOp, rm, opcode, reg, imm); e.Some? ==> e.value.bytes != []
  {
    hide MakeModRm, MakeSib, Rex, Le;
  }

  lemma MovNonEmpty(dst: Operand, v: int)
    requires dst.Reg?
    ensures var e := MovRegImm(dst, v); e.Some? ==> e.value.bytes != []
  {
    hide MakeModRm, MakeSib, Rex, Le;
  }

  lemma AluNonEmpty(ext: nat, dst: Operand, v: int)
    requires dst.Reg? && ext < 8
    ensures var e := AluRegImm(ext, dst, v); e.Some? ==> e.value.bytes != []
  {
    hide MakeModRm, MakeSib, Rex, Le, ToInt32;
  }

  // ---- branches ----

  /** The opcodes of the relative branches: the mnemonic and the width of the displacement. */
  predicate RelOpcode(opcode: seq<byte>, mn: Op, n: nat) {
    || (opcode == [0xEB] && mn == Jmp && n == 1)
    || (|opcode| == 1 && 0x70 <= opcode[0] <= 0x7F && mn == Jcc(CondName(opcode[0] - 0x70)) && n == 1)
    || (opcode == [0xE9] && mn == Jmp && n == 4)
    || (opcode == [0xE8] && mn == Call && n == 4)
    || (|opcode| == 2 && opcode[0] == 0x0F && 0x80 <= opcode[1] <= 0x8F && mn == Jcc(CondName(opcode[1] - 0x80))
        && n == 4)
  }

  lemma RelOpcodeDecodes(c: Cursor, op: byte, mn: Op, n: nat)
    requires c.Valid() && RelOpcode([op], mn, n)
    ensures DecodeOpcode(c, op) == DecodeRel(c, mn, n) && !IsPrefix(op)
  {
    hide DecodeRel, DecodeEscape, DecodeModRmOpcode, CondName;
  }

  lemma RelEscapeDecodes(c: Cursor, op2: byte, mn: Op, n: nat)
    requires c.Valid() && RelOpcode([0x0F, op2], mn, n)
    ensures DecodeEscape(c, op2) == DecodeRel(c, mn, n)
  {
    hide DecodeRel, DecodeRmReg, DecodeRmOnly, DecodeRmImm, DecodeRm, CondName;
  }

  lemma RelResult(c: Cursor, mn: Op, n: nat, d: int)
    requires c.Valid() && At(c.code, c.p, Le(d, n)) && Signed(Le(d, n)) == d
    ensures DecodeRel(c, mn, n)
         == Some(Decoded(c.p + n - c.start, Instruction(mn, [Imm((c.base + c.p + n + d) % TWO64)])))
  {
    hide Le, Signed;
    assert ReadField(c.code, c.p, n) == Some(Le(d, n));
  }

  /** A relative branch with displacement d decodes to the end of the instruction plus d. */
  lemma RelDecodes(opcode: seq<byte>, mn: Op, n: nat, d: int, code: seq<byte>, start: nat)
    requires RelOpcode(opcode, mn, n) && Signed(Le(d, n)) == d && At(code, start, opcode + Le(d, n))
    ensures DecodeOne(code, L.BASE, start)
         == Some(Decoded(|opcode| + n, Instruction(mn, [Imm((L.BASE + start + |opcode| + n + d) % TWO64)])))
  {
    hide DecodeOne, ScanPrefixes, DecodeOpcode, DecodeEscape, DecodeRel, Le, Signed, At, RelOpcode, IsPrefix;
    AtSplit(code, start, opcode, Le(d, n));
    RelOpcodeShape(opcode, mn, n);
    var c := Cursor(code, L.BASE, start, start + |opcode|, false, 0);
    if |opcode| == 1 {
      assert [] + [opcode[0]] == opcode == [opcode[0]];
      OpcodeNoPrefix(opcode[0], mn, n);
      Opening(code, L.BASE, start, [], opcode[0]);
      RelOpcodeDecodes(c, opcode[0], mn, n);
    } else {
      assert [] + [0x0F, opcode[1]] == opcode == [0x0F, opcode[1]];
      EscapeOpening(code, L.BASE, start, [], opcode[1]);
      RelEscapeDecodes(c, opcode[1], mn, n);
    }
    RelResult(c, mn, n, d);
  }

  lemma RelOpcodeShape(opcode: seq<byte>, mn: Op, n: nat)
    requires RelOpcode(opcode, mn, n)
    ensures |opcode| == 1 || (|opcode| == 2 && opcode[0] == 0x0F)
  {
  }

  lemma OpcodeNoPrefix(op: byte, mn: Op, n: nat)
    requires RelOpcode([op], mn, n)
    ensures !IsPrefix(op)
  {
  }

  /** The opcode bytes of the near form, and of the short form where there is one. */
  function NearOpcode(op: Op): seq<byte> {
    if op.Jmp? then [0xE9]
    else if op.Call? then [0xE8]
    else [0x0F, 0x80 + CondCode(if op.Jcc? then op.cc else NE)]
  }

  function ShortOpcode(op: Op): byte {
    if op.Jmp? then 0xEB else 0x70 + CondCode(if op.Jcc? then op.cc else NE)
  }

  /** The mnemonic the listing prints: jnz comes out as jne. */
  function Listed(op: Op): Op { if op.Jnz? then Jcc(NE) else op }

  lemma BranchOpcodes(op: Op)
    requires op.Jmp? || op.Jcc? || op.Jnz? || op.Call?
    ensures RelOpcode(NearOpcode(op), Listed(op), 4)
    ensures !op.Call? ==> RelOpcode([ShortOpcode(op)], Listed(op), 1)
  {
    hide CondCode, CondName;
    CondTable(if op.Jcc? then op.cc else NE);
  }

  lemma BranchEmission(i: Instruction, env: Env)
    requires LabelBranch(i)
    ensures var l := i.operands[0].name; var d := ShortDisp(env, l);
      Dispatch(i, env) == Some(if d.Some? && !i.op.Call? then Plain([ShortOpcode(i.op), d.value % 256])
                               else NearBranch(NearOpcode(i.op), l))
  {
    hide ShortDisp, Le;
  }

  lemma {:induction false} BranchDecodes(c: Chunk, env: Env, addresses: map<string, int>, code: seq<byte>, start: nat)
    requires c.stmt.body.Inst? && LabelBranch(c.stmt.body.inst)
    requires env.at == c.at == L.BASE + start && Dispatch(c.stmt.body.inst, env) == Some(c.e)
    requires Linkable(c, addresses) && At(code, start, LinkedBytes(c, addresses))
    requires ShortBranch(c) ==> var l := c.stmt.body.inst.operands[0].name;
      l in addresses && l in env.addresses && addresses[l] == env.addresses[l]
    ensures LabelKnown(c.stmt.body.inst, addresses)
    ensures DecodeOne(code, L.BASE, start) == Some(Decoded(|c.e.bytes|, FinalInst(c.stmt.body.inst, End(c), addresses)))
  {
    hide Dispatch, DecodeOne, Le, Signed, At, RelOpcode, NearOpcode, ShortOpcode, ShortDisp, FieldValue;
    var i := c.stmt.body.inst;
    var l := i.operands[0].name;
    BranchEmission(i, env);
    BranchOpcodes(i.op);
    var d := ShortDisp(env, l);
    if d.Some? && !i.op.Call? {
      ShortDecodes(c, env, d.value, addresses, code, start);
    } else {
      NearDecodes(c, addresses, code, start);
    }
  }

  lemma ShortDecodes(c: Chunk, env: Env, d: int, addresses: map<string, int>, code: seq<byte>, start: nat)
    requires c.stmt.body.Inst? && LabelBranch(c.stmt.body.inst) && !c.stmt.body.inst.op.Call?
    requires env.at == L.BASE + start
    requires var i := c.stmt.body.inst; var l := i.operands[0].name;
      && ShortDisp(env, l) == Some(d) && c.e == Plain([ShortOpcode(i.op), d % 256])
      && l in addresses && l in env.addresses && addresses[l] == env.addresses[l]
    requires RelOpcode([ShortOpcode(c.stmt.body.inst.op)], Listed(c.stmt.body.inst.op), 1)
    requires At(code, start, c.e.bytes)
    ensures DecodeOne(code, L.BASE, start) == Some(Decoded(2, FinalInst(c.stmt.body.inst, End(c), addresses)))
  {
    hide DecodeOne, Le, Signed, At, RelOpcode, ShortOpcode;
    var op := c.stmt.body.inst.op;
    Le1(d);
    ImmByte(d);
    assert [ShortOpcode(op), d % 256] == [ShortOpcode(op)] + Le(d, 1);
    RelDecodes([ShortOpcode(op)], Listed(op), 1, d, code, start);
  }

  lemma NearDecodes(c: Chunk, addresses: map<string, int>, code: seq<byte>, start: nat)
    requires c.stmt.body.Inst? && LabelBranch(c.stmt.body.inst) && c.at == L.BASE + start
    requires c.e == NearBranch(NearOpcode(c.stmt.body.inst.op), c.stmt.body.inst.operands[0].name)
    requires RelOpcode(NearOpcode(c.stmt.body.inst.op), Listed(c.stmt.body.inst.op), 4)
    requires Linkable(c, addresses) && At(code, start, LinkedBytes(c, addresses))
    ensures LabelKnown(c.stmt.body.inst, addresses)
    ensures DecodeOne(code, L.BASE, start) == Some(Decoded(|c.e.bytes|, FinalInst(c.stmt.body.inst, End(c), addresses)))
  {
    hide DecodeOne, Le, Signed, At, RelOpcode, NearOpcode;
    var opcode := NearOpcode(c.stmt.body.inst.op);
    assert c.e.bytes[|opcode|..|opcode| + 4] == Le(0, 4);
    SignedLe32(0);
    var v := FieldValue(c, addresses);
    assert Replace(c.e.bytes, |opcode|, v) == opcode + Le(v, 4);
    SignedLe32(v);
    RelDecodes(opcode, Listed(c.stmt.body.inst.op), 4, v, code, start);
  }

  // ---- one statement ----

  function LoadBytes(dst: Operand, v: int): (s: seq<byte>)
    requires dst.Reg?
    ensures |s| == 7
  {
    [MakeRex(true, dst.reg >= 8, false, false), 0x8B, MakeModRm(0, dst.reg, 5)] + Le(v, 4)
  }

  function LoadMem(v: int): Mem { NO_MEM.(isRip := true, disp := v, hasDisp := true) }

  lemma LoadEmission(i: Instruction, env: Env)
    requires LabelLoad(i)
    ensures Dispatch(i, env)
         == Some(Emission(LoadBytes(i.operands[0], 0), Some(Field(i.operands[1].name, 3, 4, true))))
  {
    hide Le, MakeModRm, MakeRex;
    var dst := i.operands[0];
    var rex := Rex(true, Some(dst), None);
    assert rex == [MakeRex(true, dst.reg >= 8, false, false)];
    assert (rex + [0x8B]) + ([MakeModRm(0, dst.reg, 5)] + Le(0, 4)) == LoadBytes(dst, 0);
  }

  lemma LoadForm(dst: Operand, v: int)
    requires RegIn(dst) && dst.size == R64 && FitsInt32(v)
    ensures MemIn(Memory(LoadMem(v)))
    ensures Form([], true, Some(dst), Memory(LoadMem(v)), [0x8B], dst.reg, []) == Some(Plain(LoadBytes(dst, v)))
  {
    hide Le, MakeModRm, MakeRex;
    var rex := Rex(true, Some(dst), Some(Memory(LoadMem(v))));
    assert rex == [MakeRex(true, dst.reg >= 8, false, false)];
    assert ([] + rex + [0x8B]) + ([MakeModRm(0, dst.reg, 5)] + Le(v, 4)) + [] == LoadBytes(dst, v);
  }

  /** mov reg, label after resolution is the rip-relative load at the label's distance. */
  lemma LoadDecodes(c: Chunk, env: Env, addresses: map<string, int>, code: seq<byte>, start: nat)
    requires c.stmt.body.Inst? && LabelLoad(c.stmt.body.inst)
    requires Dispatch(c.stmt.body.inst, env) == Some(c.e)
    requires Linkable(c, addresses) && At(code, start, LinkedBytes(c, addresses))
    ensures LabelKnown(c.stmt.body.inst, addresses)
    ensures var d := DecodeOne(code, L.BASE, start);
      d.Some? && d.value.length == |c.e.bytes|
      && ViewInst(d.value.inst) == FinalInst(c.stmt.body.inst, End(c), addresses)
  {
    hide Dispatch, DecodeOne, Form, Signed, Le, ViewInst, MakeModRm, MakeRex, At;
    var dst := c.stmt.body.inst.operands[0];
    LoadEmission(c.stmt.body.inst, env);
    var v := FieldValue(c, addresses);
    assert c.e.bytes[3..7] == Le(0, 4);
    SignedLe32(0);
    assert v == addresses[c.stmt.body.inst.operands[1].name] - End(c);
    assert LinkedBytes(c, addresses) == LoadBytes(dst, v);
    LoadForm(dst, v);
    RegForm(0x8B, Mov, true, dst, Memory(LoadMem(v)), code, L.BASE, start);
    LoadView(dst, v);
  }

  lemma LoadView(dst: Operand, v: int)
    requires dst.Reg?
    ensures ViewInst(Instruction(Mov, [dst, Memory(LoadMem(v))]))
         == Instruction(Mov, [dst, Memory(NO_MEM.(isRip := true, disp := v))])
  {
    var i := Instruction(Mov, [dst, Memory(LoadMem(v))]);
    assert ViewAll(i.operands) == [dst, Memory(NO_MEM.(isRip := true, disp := v))];
  }

  lemma StraightDecodes(c: Chunk, env: Env, addresses: map<string, int>, code: seq<byte>, start: nat)
    requires c.stmt.body.Inst? && Straight(c.stmt.body.inst)
    requires Dispatch(c.stmt.body.inst, env) == Some(c.e)
    requires Linkable(c, addresses) && At(code, start, LinkedBytes(c, addresses))
    ensures LabelKnown(c.stmt.body.inst, addresses)
    ensures var d := DecodeOne(code, L.BASE, start);
      d.Some? && d.value.length == |c.e.bytes|
      && ViewInst(d.value.inst) == FinalInst(c.stmt.body.inst, End(c), addresses)
  {
    hide Dispatch, DecodeOne, At, Le, Signed, FieldValue, Shown, ViewInst, Straight, LabelledMem, LinkDisp, LinkInst;
    hide FieldLabel, LabelBranch, LabelLoad;
    var i := c.stmt.body.inst;
    NotLabel(i);
    FieldMeaning(c, i, env, addresses);
    if c.e.field.None? {
      InstRoundTrip(i, env, code, L.BASE, start);
    } else {
      var v := FieldValue(c, addresses);
      LinkDispatch(i, env, v);
      LinkStraight(i, v);
      InstRoundTrip(LinkInst(i, v), env, code, L.BASE, start);
    }
  }

  lemma NotLabel(i: Instruction)
    requires Straight(i)
    ensures !LabelBranch(i) && !LabelLoad(i)
  {
  }

  /** The chunk was emitted at its own place, and a short branch believed its label where it ends up. */
  ghost predicate Settled(c: Chunk, env: Env, room: int, addresses: map<string, int>) {
    && env.at == c.at && L.Emitted(c.stmt, env, room) == Some(c.e)
    && (ShortBranch(c) ==>
          var l := c.stmt.body.inst.operands[0].name;
          l in addresses && l in env.addresses && addresses[l] == env.addresses[l])
  }

  /** One instruction statement: decode_one takes exactly its bytes and shows the linked instruction. */
  lemma InstDecodes(c: Chunk, env: Env, room: int, addresses: map<string, int>, code: seq<byte>, start: nat)
    requires Listable(c.stmt) && c.stmt.body.Inst? && !L.LabelOnly(c.stmt)
    requires Settled(c, env, room, addresses) && c.at == L.BASE + start
    requires Linkable(c, addresses) && At(code, start, LinkedBytes(c, addresses))
    ensures start < |code|
    ensures LabelKnown(c.stmt.body.inst, addresses)
    ensures var d := DecodeOne(code, L.BASE, start);
      d.Some? && d.value.length == |c.e.bytes|
      && ViewInst(d.value.inst) == FinalInst(c.stmt.body.inst, End(c), addresses)
  {
    hide Dispatch, Encode, DecodeOne, At, Le, Signed, FieldValue, Shown, Straight, LabelLoad, LinkedBytes, Linkable;
    var i := c.stmt.body.inst;
    NoPrefix(i, env);
    assert Dispatch(i, env) == Some(c.e);
    NonEmpty(i, env);
    AtInside(code, start, LinkedBytes(c, addresses));
    if Straight(i) {
      NotLabel(i);
      StraightDecodes(c, env, addresses, code, start);
    } else if LabelBranch(i) {
      BranchDecodes(c, env, addresses, code, start);
      var v := FinalInst(i, End(c), addresses);
      assert ViewAll(v.operands) == v.operands;
    } else {
      LoadDecodes(c, env, addresses, code, start);
    }
  }

  // ---- the whole listing ----

  /** The listing of n padding bytes from offset s. */
  function Nops(s: nat, n: nat): seq<Entry>
    decreases n
  {
    if n == 0 then [] else [Entry(s, 1, Instruction(Nop, []))] + Nops(s + 1, n - 1)
  }

  /**
   * What the listing shows for a statement of size bytes at address at: nothing for a lone label, one nop a
   * byte for padding, one entry for an instruction.
   */
  function Lines(s: L.Statement, at: int, size: nat, addresses: map<string, int>): seq<Entry>
    requires Listable(s) && L.BASE <= at
    requires s.body.Inst? ==> LabelKnown(s.body.inst, addresses)
  {
    if L.LabelOnly(s) then []
    else if s.body.Align? then Nops(at - L.BASE, size)
    else [Entry(at - L.BASE, size, FinalInst(s.body.inst, at + size, addresses))]
  }

  function ViewEntries(es: seq<Entry>): (r: seq<Entry>)
    ensures |r| == |es|
  {
    if es == [] then [] else [es[0].(inst := ViewInst(es[0].inst))] + ViewEntries(es[1..])
  }

  lemma NopDecodes(code: seq<byte>, s: nat)
    requires s < |code| && code[s] == 0x90
    ensures DecodeOne(code, L.BASE, s) == Some(Decoded(1, Instruction(Nop, [])))
    ensures ViewInst(Instruction(Nop, [])) == Instruction(Nop, [])
  {
    assert [] + [code[s]] == code[s..s + 1];
    Opening(code, L.BASE, s, [], 0x90);
    assert ViewAll([]) == [];
  }

  lemma DisassembleStep(code: seq<byte>, s: nat, d: Decoded)
    requires s < |code| && DecodeOne(code, L.BASE, s) == Some(d)
    ensures d.length > 0 && s + d.length <= |code|
    ensures ViewEntries(Disassemble(code, L.BASE, s))
         == [Entry(s, d.length, ViewInst(d.inst))] + ViewEntries(Disassemble(code, L.BASE, s + d.length))
  {
    hide DecodeOne, ViewInst;
    DecodeLength(code, L.BASE, s);
    var rest := Disassemble(code, L.BASE, s + d.length);
    assert Disassemble(code, L.BASE, s) == [Entry(s, d.length, d.inst)] + rest;
    assert ([Entry(s, d.length, d.inst)] + rest)[1..] == rest;
  }

  lemma {:induction false} NopRun(code: seq<byte>, s: nat, n: nat)
    requires s + n <= |code| && forall k :: s <= k < s + n ==> code[k] == 0x90
    ensures ViewEntries(Disassemble(code, L.BASE, s)) == Nops(s, n) + ViewEntries(Disassemble(code, L.BASE, s + n))
    decreases n
  {
    hide DecodeOne, ViewInst, Disassemble, ViewEntries;
    if n > 0 {
      NopDecodes(code, s);
      DisassembleStep(code, s, Decoded(1, Instruction(Nop, [])));
      NopRun(code, s + 1, n - 1);
    }
  }

  lemma AlignBytes(c: Chunk, env: Env, room: int, k: nat)
    requires c.stmt.body.Align? && L.Emitted(c.stmt, env, room) == Some(c.e) && k < |c.e.bytes|
    ensures c.e.bytes[k] == 0x90 && c.e.field.None?
  {
    hide L.AlignUp, L.PowerOfTwo, ToInt32;
  }

  lemma ChunkListed(c: Chunk, env: Env, room: int, addresses: map<string, int>, code: seq<byte>, start: nat)
    requires Listable(c.stmt) && Settled(c, env, room, addresses) && c.at == L.BASE + start
    requires Linkable(c, addresses) && At(code, start, LinkedBytes(c, addresses))
    ensures c.stmt.body.Inst? ==> LabelKnown(c.stmt.body.inst, addresses)
    ensures start + |c.e.bytes| <= |code|
    ensures ViewEntries(Disassemble(code, L.BASE, start))
         == Lines(c.stmt, c.at, |c.e.bytes|, addresses) + ViewEntries(Disassemble(code, L.BASE, start + |c.e.bytes|))
  {
    hide DecodeOne, ViewInst, Disassemble, ViewEntries, L.Emitted, FinalInst, FieldValue, Settled, Straight, Le;
    if L.LabelOnly(c.stmt) {
      LabelOnlyBytes(c, env, room, addresses);
    } else if c.stmt.body.Align? {
      forall k | start <= k < start + |c.e.bytes|
        ensures code[k] == 0x90
      {
        SettledEmits(c, env, room, addresses);
        AlignBytes(c, env, room, k - start);
        AtByte(code, start, LinkedBytes(c, addresses), k - start);
      }
      NopRun(code, start, |c.e.bytes|);
    } else {
      InstDecodes(c, env, room, addresses, code, start);
      DisassembleStep(code, start, DecodeOne(code, L.BASE, start).value);
    }
  }

  lemma SettledEmits(c: Chunk, env: Env, room: int, addresses: map<string, int>)
    requires Settled(c, env, room, addresses)
    ensures L.Emitted(c.stmt, env, room) == Some(c.e)
  {
  }

  lemma LabelOnlyBytes(c: Chunk, env: Env, room: int, addresses: map<string, int>)
    requires L.LabelOnly(c.stmt) && Settled(c, env, room, addresses)
    ensures c.e.bytes == [] && LabelOf(c.stmt.body.inst) == None
  {
  }

  /** The chunk can be listed, and a short branch believed its label where the table has it at the end. */
  ghost predicate ChunkReady(c: Chunk, addresses: map<string, int>) {
    Listable(c.stmt) && exists env, room :: Settled(c, env, room, addresses)
  }

  ghost predicate Ready(cs: seq<Chunk>, addresses: map<string, int>) {
    forall k :: 0 <= k < |cs| ==> ChunkReady(cs[k], addresses)
  }

  /** Statements that can be listed, with all their labels known. */
  ghost predicate Presentable(ss: seq<L.Statement>, addresses: map<string, int>) {
    forall k :: 0 <= k < |ss| ==>
      Listable(ss[k]) && (ss[k].body.Inst? ==> LabelKnown(ss[k].body.inst, addresses))
  }

  function Sizes(cs: seq<Chunk>): (sizes: seq<nat>)
    ensures |sizes| == |cs| && forall k :: 0 <= k < |cs| ==> sizes[k] == |cs[k].e.bytes|
  {
    seq(|cs|, k requires 0 <= k < |cs| => |cs[k].e.bytes|)
  }

  /** The listing of statements of the given sizes, from statement k at address at on. */
  function Program(ss: seq<L.Statement>, sizes: seq<nat>, k: nat, at: int, addresses: map<string, int>): seq<Entry>
    requires k <= |ss| == |sizes| && L.BASE <= at && Presentable(ss, addresses)
    decreases |ss| - k
  {
    if k == |ss| then []
    else Lines(ss[k], at, sizes[k], addresses) + Program(ss, sizes, k + 1, at + sizes[k], addresses)
  }

  lemma ChunkAt(cs: seq<Chunk>, addresses: map<string, int>, text: seq<byte>, k: nat)
    requires L.Placed(cs) && k < |cs| && Ready(cs, addresses)
    requires F.Resolve(L.Text(cs), L.Fixups(cs), addresses) == Some(text)
    ensures Listable(cs[k].stmt) && cs[k].at == L.BASE + Start(cs, k)
    ensures cs[k].stmt.body.Inst? ==> LabelKnown(cs[k].stmt.body.inst, addresses)
    ensures |text| == |L.Text(cs)| && Start(cs, k + 1) == Start(cs, k) + |cs[k].e.bytes| <= |text|
    ensures ViewEntries(Disassemble(text, L.BASE, Start(cs, k)))
         == Lines(cs[k].stmt, cs[k].at, |cs[k].e.bytes|, addresses)
            + ViewEntries(Disassemble(text, L.BASE, Start(cs, k + 1)))
  {
    hide L.Text, L.Fixups, L.Placed, F.Resolve, Linkable, Listable, Settled, Disassemble, ViewEntries, Lines,
         LinkedBytes;
    hide LabelKnown, At;
    assert ChunkReady(cs[k], addresses);
    ChunkLinked(cs, addresses, text, k);
    PlacedAt(cs, k);
    L.TextSplit(cs, k);
    L.TextSplit(cs, k + 1);
    var env, room :| Settled(cs[k], env, room, addresses);
    ChunkListed(cs[k], env, room, addresses, text, Start(cs, k));
  }

  /** The resolved text is disassembled to the program, statement by statement. */
  lemma {:induction false} ListsProgram(cs: seq<Chunk>, addresses: map<string, int>, text: seq<byte>, k: nat)
    requires L.Placed(cs) && k <= |cs| && Ready(cs, addresses)
    requires F.Resolve(L.Text(cs), L.Fixups(cs), addresses) == Some(text)
    ensures Presentable(L.Statements(cs), addresses) && Start(cs, k) <= |text|
    ensures ViewEntries(Disassemble(text, L.BASE, Start(cs, k)))
         == Program(L.Statements(cs), Sizes(cs), k, L.BASE + Start(cs, k), addresses)
    decreases |cs| - k
  {
    hide L.Text, L.Fixups, L.Placed, F.Resolve, Ready, Linkable, Listable, Disassemble, ViewEntries, Lines, LabelKnown;
    forall j | 0 <= j < |cs|
      ensures Listable(cs[j].stmt) && (cs[j].stmt.body.Inst? ==> LabelKnown(cs[j].stmt.body.inst, addresses))
    {
      ChunkAt(cs, addresses, text, j);
    }
    if k < |cs| {
      ChunkAt(cs, addresses, text, k);
      ListsProgram(cs, addresses, text, k + 1);
    } else {
      AllListed(cs, addresses, text);
    }
  }

  lemma AllListed(cs: seq<Chunk>, addresses: map<string, int>, text: seq<byte>)
    requires F.Resolve(L.Text(cs), L.Fixups(cs), addresses) == Some(text)
    ensures Start(cs, |cs|) == |text| && ViewEntries(Disassemble(text, L.BASE, |text|)) == []
  {
    assert cs[..|cs|] == cs;
  }

  /** The labels of the short branches are still, at fixup time, where the pass had them. */
  ghost predicate ShortKept(cs: seq<Chunk>, symbols: map<string, Symbols.Sym>, addresses: map<string, int>) {
    forall k :: 0 <= k < |cs| && ShortBranch(cs[k]) ==>
      var l := cs[k].stmt.body.inst.operands[0].name;
      l in symbols ==> l in addresses && addresses[l] == symbols[l].address
  }

  /** A chunk of an unchanged pass is settled. */
  lemma ChunkSettled(cs: seq<Chunk>, k: nat, forward: bool, symbols: map<string, Symbols.Sym>,
                     addresses: map<string, int>)
    requires k < |cs| && L.EncodedAt(cs, k, forward, L.Addresses(symbols)) && ShortKept(cs, symbols, addresses)
    ensures Settled(cs[k], Env(cs[k].at, L.Addresses(symbols), forward), L.CAPACITY - |L.Text(cs[..k])|, addresses)
  {
    hide L.Text, Encode, Dispatch;
    var c := cs[k];
    if ShortBranch(c) {
      var env := Env(c.at, L.Addresses(symbols), forward);
      hide ShortDisp, LabelBranch, NearOpcode, ShortOpcode;
      ShortKnown(c.stmt.body.inst, env, c.e, L.CAPACITY - |L.Text(cs[..k])|, c.stmt);
    }
  }

  lemma ShortKnown(i: Instruction, env: Env, e: Emission, room: int, s: L.Statement)
    requires s.body == L.Inst(i) && LabelBranch(i) && L.Emitted(s, env, room) == Some(e) && e.field.None?
    ensures i.operands[0].name in env.addresses
  {
    hide Dispatch, Encode, NearOpcode, ShortOpcode, Le;
    NoPrefix(i, env);
    BranchEmission(i, env);
  }

  /**
   * Whole-program round trip: when a pass moved no label and its fixups resolve, the disassembly of the
   * resolved text section is the program's text statements, in order and end to end from the base on,
   * each instruction as FinalInst says.
   */
  lemma ProgramRoundTrip(prog: seq<L.Statement>, forward: bool, symbols: map<string, Symbols.Sym>,
                         addresses: map<string, int>, text: seq<byte>)
    requires L.Pass(prog, forward, symbols).Some? && !L.Pass(prog, forward, symbols).value.changed
    requires forall k :: 0 <= k < |L.TextStatements(prog, |prog|)| ==> Listable(L.TextStatements(prog, |prog|)[k])
    requires var cs := L.Pass(prog, forward, symbols).value.chunks;
      && ShortKept(cs, symbols, addresses)
      && F.Resolve(L.Text(cs), L.Fixups(cs), addresses) == Some(text)
    ensures var cs, ss := L.Pass(prog, forward, symbols).value.chunks, L.TextStatements(prog, |prog|);
      && |cs| == |ss| && Presentable(ss, addresses)
      && ViewEntries(Disassemble(text, L.BASE, 0)) == Program(ss, Sizes(cs), 0, L.BASE, addresses)
  {
    hide L.Run, L.Text, L.Fixups, L.Placed, F.Resolve, Ready, Listable, Disassemble, ViewEntries, Program, ShortKept;
    hide Presentable, L.TextStatements;
    var cs := L.Pass(prog, forward, symbols).value.chunks;
    L.RunPlaced(prog, |prog|, forward, symbols);
    L.RunStatements(prog, |prog|, forward, symbols);
    PassReady(prog, forward, symbols, addresses);
    StartZero(cs);
    ListsProgram(cs, addresses, text, 0);
  }

  // ---- the length of the lines ----

  /** The instructions of a pass have room in one line each. */
  lemma ChunkShort(prog: seq<L.Statement>, forward: bool, symbols: map<string, Symbols.Sym>, k: nat)
    requires L.Pass(prog, forward, symbols).Some? && k < |L.Pass(prog, forward, symbols).value.chunks|
    ensures var c := L.Pass(prog, forward, symbols).value.chunks[k];
      c.stmt.body.Inst? ==> |c.e.bytes| <= MAX_INST_BYTES
  {
    hide L.Run, L.Text, Encode;
    var cs := L.Pass(prog, forward, symbols).value.chunks;
    var seen := L.AllEncoded(prog, |prog|, forward, symbols, k);
    if cs[k].stmt.body.Inst? {
      Buffers.EncodedShort(cs[k].stmt.body.inst, Env(cs[k].at, seen, forward));
    }
  }

  lemma {:induction false} NopsShort(s: nat, n: nat)
    ensures forall e <- Nops(s, n) :: e.length == 1
    decreases n
  {
    if n > 0 {
      NopsShort(s + 1, n - 1);
    }
  }

  lemma {:induction false} ProgramShort(ss: seq<L.Statement>, sizes: seq<nat>, k: nat, at: int,
                                        addresses: map<string, int>)
    requires k <= |ss| == |sizes| && L.BASE <= at && Presentable(ss, addresses)
    requires forall j :: 0 <= j < |ss| && ss[j].body.Inst? ==> sizes[j] <= MAX_INST_BYTES
    ensures forall e <- Program(ss, sizes, k, at, addresses) :: e.length <= MAX_INST_BYTES
    decreases |ss| - k
  {
    hide Presentable, FinalInst, Listable;
    if k < |ss| {
      PresentableAt(ss, addresses, k);
      if ss[k].body.Align? {
        NopsShort(at - L.BASE, sizes[k]);
      }
      ProgramShort(ss, sizes, k + 1, at + sizes[k], addresses);
    }
  }

  lemma PresentableAt(ss: seq<L.Statement>, addresses: map<string, int>, k: nat)
    requires Presentable(ss, addresses) && k < |ss|
    ensures Listable(ss[k]) && (ss[k].body.Align? || ss[k].body.Inst?)
    ensures ss[k].body.Inst? ==> LabelKnown(ss[k].body.inst, addresses)
  {
  }

  lemma {:induction false} ViewLengths(es: seq<Entry>)
    ensures forall k :: 0 <= k < |es| ==> ViewEntries(es)[k].length == es[k].length
  {
    hide ViewInst;
    if es != [] {
      ViewLengths(es[1..]);
    }
  }

  /** Every line of that listing has room for its bytes, so that the disassembler prints it to its end. */
  lemma ProgramFits(prog: seq<L.Statement>, forward: bool, symbols: map<string, Symbols.Sym>,
                    addresses: map<string, int>, text: seq<byte>)
    requires L.Pass(prog, forward, symbols).Some? && !L.Pass(prog, forward, symbols).value.changed
    requires forall k :: 0 <= k < |L.TextStatements(prog, |prog|)| ==> Listable(L.TextStatements(prog, |prog|)[k])
    requires var cs := L.Pass(prog, forward, symbols).value.chunks;
      && ShortKept(cs, symbols, addresses)
      && F.Resolve(L.Text(cs), L.Fixups(cs), addresses) == Some(text)
    ensures Reached(Disassemble(text, L.BASE, 0)) == Disassemble(text, L.BASE, 0)
  {
    hide L.Run, L.Text, L.Fixups, F.Resolve, Listable, Disassemble, ViewEntries, Program, ShortKept, Presentable;
    hide L.TextStatements, Reached;
    var cs, ss := L.Pass(prog, forward, symbols).value.chunks, L.TextStatements(prog, |prog|);
    var es := Disassemble(text, L.BASE, 0);
    ProgramRoundTrip(prog, forward, symbols, addresses, text);
    L.RunStatements(prog, |prog|, forward, symbols);
    forall j | 0 <= j < |ss| && ss[j].body.Inst?
      ensures Sizes(cs)[j] <= MAX_INST_BYTES
    {
      assert L.Statements(cs)[j] == ss[j];
      ChunkShort(prog, forward, symbols, j);
    }
    ProgramShort(ss, Sizes(cs), 0, L.BASE, addresses);
    ViewLengths(es);
    forall e | e in es
      ensures e.length <= MAX_INST_BYTES
    {
      var k :| 0 <= k < |es| && es[k] == e;
      assert ViewEntries(es)[k] in ViewEntries(es);
    }
    ReachedExactly(es);
  }

  lemma PassReady(prog: seq<L.Statement>, forward: bool, symbols: map<string, Symbols.Sym>, addresses: map<string, int>)
    requires L.Pass(prog, forward, symbols).Some? && !L.Pass(prog, forward, symbols).value.changed
    requires var cs := L.Pass(prog, forward, symbols).value.chunks;
      ShortKept(cs, symbols, addresses) && forall k :: 0 <= k < |cs| ==> Listable(L.Statements(cs)[k])
    ensures Ready(L.Pass(prog, forward, symbols).value.chunks, addresses)
  {
    hide L.Run, L.Text, L.EncodedAt, L.Emitted, L.Addresses, Settled, Listable, ShortKept;
    var cs := L.Pass(prog, forward, symbols).value.chunks;
    L.UnchangedEncodings(prog, |prog|, forward, symbols);
    forall k | 0 <= k < |cs|
      ensures ChunkReady(cs[k], addresses)
    {
      assert Listable(L.Statements(cs)[k]) && L.EncodedAt(cs, k, forward, L.Addresses(symbols));
      ChunkSettled(cs, k, forward, symbols, addresses);
    }
  }

  lemma StartZero(cs: seq<Chunk>)
    ensures Start(cs, 0) == 0
  {
  }

  /**
   * Branch soundness: in any pass whose fixups resolve, every rel32 jmp, jcc and call decodes to its
   * label's final address; when the pass moved no label, so does every rel8 branch.
   */
  lemma BranchSoundness(prog: seq<L.Statement>, forward: bool, symbols: map<string, Symbols.Sym>,
                        addresses: map<string, int>, text: seq<byte>, k: nat)
    requires L.Pass(prog, forward, symbols).Some?
    requires var st := L.Pass(prog, forward, symbols).value;
      && k < |st.chunks| && st.chunks[k].stmt.body.Inst? && LabelBranch(st.chunks[k].stmt.body.inst)
      && F.Resolve(L.Text(st.chunks), L.Fixups(st.chunks), addresses) == Some(text)
      && (ShortBranch(st.chunks[k]) ==> !st.changed && ShortKept(st.chunks, symbols, addresses))
    ensures var cs := L.Pass(prog, forward, symbols).value.chunks; var i := cs[k].stmt.body.inst;
      var l := i.operands[0].name;
      && l in addresses && Start(cs, k) < |text|
      && DecodeOne(text, L.BASE, Start(cs, k))
         == Some(Decoded(|cs[k].e.bytes|, Instruction(Listed(i.op), [Imm(addresses[l] % TWO64)])))
  {
    hide L.Run, L.Text, L.Fixups, L.EncodedAt, F.Resolve, Settled, Encode, Dispatch, LabelBranch, ShortKept, DecodeOne,
         L.Emitted;
    var st := L.Pass(prog, forward, symbols).value;
    var cs, c := st.chunks, st.chunks[k];
    L.RunPlaced(prog, |prog|, forward, symbols);
    ChunkLinked(cs, addresses, text, k);
    var env: Env;
    if st.changed {
      var seen := L.AllEncoded(prog, |prog|, forward, symbols, k);
      env := Env(c.at, seen, forward);
      EncodedDispatch(cs, k, env);
    } else {
      L.UnchangedEncodings(prog, |prog|, forward, symbols);
      env := Env(c.at, L.Addresses(symbols), forward);
      EncodedDispatch(cs, k, env);
      if ShortBranch(c) {
        ChunkSettled(cs, k, forward, symbols, addresses);
        SettledShort(c, env, L.CAPACITY - |L.Text(cs[..k])|, addresses);
      }
    }
    NonEmpty(c.stmt.body.inst, env);
    BranchDecodes(c, env, addresses, text, Start(cs, k));
  }

  /** The chunk of statement n, and what it was encoded against. */
  lemma ChunkOf(prog: seq<L.Statement>, forward: bool, symbols: map<string, Symbols.Sym>, n: nat)
    requires n < |prog| && L.Pass(prog, forward, symbols).Some?
    requires !prog[n].body.Section? && !L.DataAfter(prog, n)
    ensures L.Run(prog, n, forward, symbols).Some? && L.Run(prog, n + 1, forward, symbols).Some?
    ensures var early, next := L.Run(prog, n, forward, symbols).value, L.Run(prog, n + 1, forward, symbols).value;
      var cs, k := L.Pass(prog, forward, symbols).value.chunks, |early.chunks|;
      && k < |cs| && early.chunks == cs[..k] && cs[k].stmt == prog[n] && cs[k].at == L.Here(early)
      && L.EncodedAt(cs, k, forward, L.Addresses(next.symbols))
  {
    hide L.Run, L.Step, L.Emitted, L.Text, L.Addresses, L.DataAfter;
    L.RunMonotone(prog, n, |prog|, forward, symbols);
    L.RunMonotone(prog, n + 1, |prog|, forward, symbols);
    L.RunStep(prog, n, forward, symbols);
    L.RunSection(prog, n, forward, symbols);
    var early := L.Run(prog, n, forward, symbols).value;
    L.StepFacts(prog[n], forward, early);
    assert L.Pass(prog, forward, symbols).value.chunks[..|early.chunks|] == early.chunks;
  }

  /**
   * A branch to a label defined at or before it lands on the label's final address in every pass, short or not,
   * settled or not: the pass itself has just put the label there.
   */
  lemma BackwardBranchSound(prog: seq<L.Statement>, forward: bool, symbols: map<string, Symbols.Sym>,
                            addresses: map<string, int>, text: seq<byte>, n: nat, j: nat)
    requires L.Pass(prog, forward, symbols).Some? && L.DistinctLabels(prog)
    requires j <= n < |prog| && !L.DataAfter(prog, n) && prog[n].body.Inst? && LabelBranch(prog[n].body.inst)
    requires var l := prog[n].body.inst.operands[0].name; var st := L.Pass(prog, forward, symbols).value;
      && L.Defines(prog, j, l) && l in symbols
      && (l in st.symbols ==> l in addresses && addresses[l] == st.symbols[l].address)
      && F.Resolve(L.Text(st.chunks), L.Fixups(st.chunks), addresses) == Some(text)
    ensures L.Run(prog, n, forward, symbols).Some?
    ensures var cs, k := L.Pass(prog, forward, symbols).value.chunks, |L.Run(prog, n, forward, symbols).value.chunks|;
      var i := prog[n].body.inst;
      && k < |cs| && i.operands[0].name in addresses
      && DecodeOne(text, L.BASE, Start(cs, k))
         == Some(Decoded(|cs[k].e.bytes|, Instruction(Listed(i.op), [Imm(addresses[i.operands[0].name] % TWO64)])))
  {
    hide L.Run, L.Text, L.Fixups, L.EncodedAt, F.Resolve, Encode, Dispatch, DecodeOne, L.Emitted, L.Placed, L.DataAfter;
    var i, st := prog[n].body.inst, L.Pass(prog, forward, symbols).value;
    var l := i.operands[0].name;
    ChunkOf(prog, forward, symbols, n);
    var early, next := L.Run(prog, n, forward, symbols).value, L.Run(prog, n + 1, forward, symbols).value;
    var cs, k := st.chunks, |early.chunks|;
    L.RunPlaced(prog, |prog|, forward, symbols);
    ChunkLinked(cs, addresses, text, k);
    PlacedAt(cs, k);
    L.LabelAddress(prog, n + 1, forward, symbols, j);
    L.LabelAddress(prog, |prog|, forward, symbols, j);
    var env := Env(cs[k].at, L.Addresses(next.symbols), forward);
    EncodedDispatch(cs, k, env);
    BranchDecodes(cs[k], env, addresses, text, Start(cs, k));
  }

  /**
   * Where any branch of any resolved pass lands: a near one on its label's address in the final table, a
   * short one on the address the pass believed when it met the branch.
   */
  lemma BranchLands(prog: seq<L.Statement>, forward: bool, symbols: map<string, Symbols.Sym>,
                    addresses: map<string, int>, text: seq<byte>, n: nat)
    requires L.Pass(prog, forward, symbols).Some?
    requires n < |prog| && !L.DataAfter(prog, n) && prog[n].body.Inst? && LabelBranch(prog[n].body.inst)
    requires var cs := L.Pass(prog, forward, symbols).value.chunks;
      F.Resolve(L.Text(cs), L.Fixups(cs), addresses) == Some(text)
    ensures L.Run(prog, n + 1, forward, symbols).Some?
    ensures var cs, k := L.Pass(prog, forward, symbols).value.chunks, |L.TextStatements(prog, n)|;
      var i, believed := prog[n].body.inst, L.Addresses(L.Run(prog, n + 1, forward, symbols).value.symbols);
      var l := i.operands[0].name;
      && k < |cs| && cs[k].stmt == prog[n]
      && var d := DecodeOne(text, L.BASE, Start(cs, k));
         if ShortBranch(cs[k]) then
           && ShortDisp(Env(L.BASE + Start(cs, k), believed, forward), l).Some?
           && d == Some(Decoded(|cs[k].e.bytes|, Instruction(Listed(i.op), [Imm(believed[l] % TWO64)])))
         else
           && l in addresses
           && d == Some(Decoded(|cs[k].e.bytes|, Instruction(Listed(i.op), [Imm(addresses[l] % TWO64)])))
  {
    hide L.Run, L.Text, L.Fixups, L.EncodedAt, F.Resolve, Encode, Dispatch, DecodeOne, L.Emitted, L.Placed, L.DataAfter;
    hide L.TextStatements;
    var i, cs := prog[n].body.inst, L.Pass(prog, forward, symbols).value.chunks;
    ChunkOf(prog, forward, symbols, n);
    L.RunStatements(prog, n, forward, symbols);
    var k := |L.TextStatements(prog, n)|;
    L.RunPlaced(prog, |prog|, forward, symbols);
    ChunkLinked(cs, addresses, text, k);
    PlacedAt(cs, k);
    var env := Env(cs[k].at, L.Addresses(L.Run(prog, n + 1, forward, symbols).value.symbols), forward);
    EncodedDispatch(cs, k, env);
    if ShortBranch(cs[k]) {
      ShortLands(cs[k], env, addresses, text, Start(cs, k));
    } else {
      BranchDecodes(cs[k], env, addresses, text, Start(cs, k));
    }
  }

  /** The chunk of a branch, and what its short form says of the addresses it was encoded against. */
  lemma BranchChunk(prog: seq<L.Statement>, forward: bool, symbols: map<string, Symbols.Sym>, n: nat)
    requires L.Pass(prog, forward, symbols).Some?
    requires n < |prog| && !L.DataAfter(prog, n) && prog[n].body.Inst? && LabelBranch(prog[n].body.inst)
    ensures L.Run(prog, n, forward, symbols).Some? && L.Run(prog, n + 1, forward, symbols).Some?
    ensures var cs, k, i := L.Pass(prog, forward, symbols).value.chunks, |L.TextStatements(prog, n)|, prog[n].body.inst;
      && k < |cs| && cs[k].stmt == prog[n]
      && (ShortBranch(cs[k]) ==>
            var env := Env(L.Here(L.Run(prog, n, forward, symbols).value),
                           L.Addresses(L.Run(prog, n + 1, forward, symbols).value.symbols), forward);
            !i.op.Call? && ShortDisp(env, i.operands[0].name).Some?)
  {
    hide L.Run, L.Text, L.EncodedAt, Encode, Dispatch, L.Emitted, L.DataAfter, L.TextStatements, NearOpcode;
    hide ShortOpcode, ShortDisp, Le;
    var cs, k := L.Pass(prog, forward, symbols).value.chunks, |L.TextStatements(prog, n)|;
    ChunkOf(prog, forward, symbols, n);
    L.RunStatements(prog, n, forward, symbols);
    var env := Env(cs[k].at, L.Addresses(L.Run(prog, n + 1, forward, symbols).value.symbols), forward);
    EncodedDispatch(cs, k, env);
    BranchEmission(prog[n].body.inst, env);
  }

  lemma ShortLands(c: Chunk, env: Env, addresses: map<string, int>, code: seq<byte>, start: nat)
    requires ShortBranch(c) && env.at == c.at == L.BASE + start && Dispatch(c.stmt.body.inst, env) == Some(c.e)
    requires Linkable(c, addresses) && At(code, start, LinkedBytes(c, addresses))
    ensures var i := c.stmt.body.inst; var l := i.operands[0].name;
      && ShortDisp(env, l).Some?
      && DecodeOne(code, L.BASE, start)
         == Some(Decoded(|c.e.bytes|, Instruction(Listed(i.op), [Imm(env.addresses[l] % TWO64)])))
  {
    hide Dispatch, DecodeOne, At, NearOpcode, ShortOpcode;
    BranchEmission(c.stmt.body.inst, env);
    BranchDecodes(c, env, env.addresses, code, start);
  }

  lemma SettledShort(c: Chunk, env: Env, room: int, addresses: map<string, int>)
    requires Settled(c, env, room, addresses) && ShortBranch(c)
    ensures var l := c.stmt.body.inst.operands[0].name;
      l in addresses && l in env.addresses && addresses[l] == env.addresses[l]
  {
  }

  lemma EncodedDispatch(cs: seq<Chunk>, k: nat, env: Env)
    requires k < |cs| && L.EncodedAt(cs, k, env.forward, env.addresses) && env.at == cs[k].at
    requires cs[k].stmt.body.Inst? && LabelOf(cs[k].stmt.body.inst).Some?
    requires var i := cs[k].stmt.body.inst; Straight(i) || LabelBranch(i) || LabelLoad(i)
    ensures Dispatch(cs[k].stmt.body.inst, env) == Some(cs[k].e)
  {
    hide Dispatch, Encode, L.Text, Straight;
    NoPrefix(cs[k].stmt.body.inst, env);
    assert !L.LabelOnly(cs[k].stmt);
  }
}
