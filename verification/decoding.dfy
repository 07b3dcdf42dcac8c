// What the disassembler reads at one position of the code: a structured instruction and
// the number of bytes it took. Rendering to text is in module Text.

module Decoding {
  import opened Bytes
  import opened Operands

  // One step of decode_one: how far the cursor moved, and what was found there.
  datatype Decoded = Decoded(length: nat, inst: Instruction)

  datatype Prefixes = Prefixes(cursor: nat, opSize: bool, rex: byte)

  /** Legacy prefixes that are skipped without effect; 0x66 and REX are kept. */
  predicate IsSkippedPrefix(b: byte) {
    b == 0x67 || b == 0xF0 || b == 0xF2 || b == 0xF3 || b == 0x2E || b == 0x36
    || b == 0x3E || b == 0x26 || b == 0x64 || b == 0x65
  }

  predicate IsPrefix(b: byte) {
    b == 0x66 || IsSkippedPrefix(b) || 0x40 <= b <= 0x4F
  }

  /** The prefix loop of decode_one, from cursor p with what was seen so far. */
  function ScanPrefixes(code: seq<byte>, p: nat, opSize: bool, rex: byte): (r: Prefixes)
    requires p <= |code|
    ensures p <= r.cursor <= |code|
    ensures forall k :: p <= k < r.cursor ==> IsPrefix(code[k])
    ensures r.cursor < |code| ==> !IsPrefix(code[r.cursor])
    decreases |code| - p
  {
    if p == |code| || !IsPrefix(code[p]) then Prefixes(p, opSize, rex)
    else if code[p] == 0x66 then ScanPrefixes(code, p + 1, true, rex)
    else if IsSkippedPrefix(code[p]) then ScanPrefixes(code, p + 1, opSize, rex)
    else ScanPrefixes(code, p + 1, opSize, code[p])
  }

  function RexW(rex: byte): bool { rex / 8 % 2 == 1 }
  function RexR(rex: byte): int { rex / 4 % 2 * 8 }
  function RexX(rex: byte): int { rex / 2 % 2 * 8 }
  function RexB(rex: byte): int { rex % 2 * 8 }

  /** select_reg_name: without REX, byte registers 4..7 are ah, ch, dh, bh. */
  function SelectReg(code: int, size: RegSize, rex: bool): Operand
    requires 0 <= code < 16
  {
    if size == R8 && !rex && 4 <= code < 8 then Reg(code, R8H) else Reg(code, size)
  }

  function ModOf(b: byte): int { b / 64 }
  function RegOf(b: byte): int { b / 8 % 8 }
  function RmOf(b: byte): int { b % 8 }

  datatype Rm = Rm(operand: Operand, length: nat)

  /** read_le32, read_le64 and the inline 16-bit read: n bytes at p, when they are there. */
  function ReadField(code: seq<byte>, p: nat, n: nat): Option<seq<byte>> {
    if p + n <= |code| then Some(code[p..p + n]) else None
  }

  /** format_rm_operand, as a structured result: the operand and rm_len. */
  function DecodeRm(code: seq<byte>, p: nat, rex: byte, size: RegSize): (r: Option<Rm>)
    ensures r.Some? ==> 1 <= r.value.length <= 6 && p + r.value.length <= |code|
  {
    if p >= |code| then None
    else
      var modrm := code[p];
      var mod := ModOf(modrm);
      var rm := RmOf(modrm);
      if mod == 3 then Some(Rm(SelectReg(rm + RexB(rex), size, rex != 0), 1))
      else if rm == 4 then
        if p + 1 >= |code| then None
        else
          var sib := code[p + 1];
          var index := if RegOf(sib) != 4 then Some(RegOf(sib) + RexX(rex)) else None;
          var noBase := mod == 0 && RmOf(sib) == 5;
          var base := if noBase then None else Some(RmOf(sib) + RexB(rex));
          var scale := if index.None? then 1 else [1, 2, 4, 8][ModOf(sib)];
          DecodeDisp(code, p, 2, if noBase then 4 else DispSize(mod), base, index, scale, false)
      else if mod == 0 && rm == 5 then
        DecodeDisp(code, p, 1, 4, None, None, 1, true)
      else
        DecodeDisp(code, p, 1, DispSize(mod), Some(rm + RexB(rex)), None, 1, false)
  }

  function DispSize(mod: int): nat { if mod == 1 then 1 else if mod == 2 then 4 else 0 }

  function DecodeDisp(code: seq<byte>, p: nat, head: nat, dispSize: nat,
                      base: Option<Reg>, index: Option<Reg>, scale: int, rip: bool): (r: Option<Rm>)
    requires dispSize <= 4
    ensures r.Some? ==> r.value.length == head + dispSize && p + r.value.length <= |code|
  {
    var field :- ReadField(code, p + head, dispSize);
    Some(Rm(Memory(Mem(base, index, scale, Signed(field), dispSize > 0, false, rip, Default, "")),
            head + dispSize))
  }

  // ---- opcode tables ----

  const CONDITIONS: seq<Cond> := [O, NO, B, AE, E, NE, BE, A, S, NS, P, NP, L, GE, LE, G]

  function CondName(n: int): Cond
    requires 0 <= n < 16
  {
    CONDITIONS[n]
  }

  /** X86_GROUP1_TABLE, opcode extension to mnemonic */
  function Group1Name(ext: int): AluOp
    requires 0 <= ext < 8
  {
    [Add, Or, Adc, Sbb, And, Sub, Xor, Cmp][ext]
  }

  /** X86_GROUP2_TABLE */
  function Group2Name(ext: int): Option<ShiftOp> {
    if ext == 0 then Some(Rol) else if ext == 1 then Some(Ror) else if ext == 4 then Some(Shl)
    else if ext == 5 then Some(Shr) else if ext == 7 then Some(Sar) else None
  }

  function DbLine(b: byte): Decoded { Decoded(1, Instruction(Db, [Imm(b)])) }

  // The cursor state of decode_one once the opcode byte has been read.
  datatype Cursor = Cursor(code: seq<byte>, base: int, start: nat, p: nat, opSize: bool, rex: byte) {
    predicate Valid() { start < p <= |code| }

    /** What every decoder below keeps: inside the code, at least one byte, at most n behind the cursor. */
    predicate Within(r: Option<Decoded>, n: nat) {
      r.Some? ==>
        && 1 <= r.value.length
        && start + r.value.length <= |code|
        && start + r.value.length <= p + n
    }

    /** rex_w ? 64 : (operand_override ? 16 : 32) */
    function Size(): RegSize { if RexW(rex) then R64 else if opSize then R16 else R32 }

    function Done(end: nat, op: Op, os: seq<Operand>): Option<Decoded>
      requires start <= end
    {
      Some(Decoded(end - start, Instruction(op, os)))
    }

    function Fallback(): Option<Decoded>
      requires Valid()
    {
      Some(DbLine(code[start]))
    }

    /** reg_field of the ModRM byte at p, extended by REX.R */
    function RegField(size: RegSize): Operand
      requires p < |code|
    {
      SelectReg(RegOf(code[p]) + RexR(rex), size, rex != 0)
    }

    function Ext(): int
      requires p < |code|
    {
      RegOf(code[p])
    }
  }

  /** Branch targets: the end of the instruction plus the displacement, as an unsigned 64-bit value. */
  function Target(c: Cursor, end: nat, disp: int): Operand {
    Imm((c.base + end + disp) % TWO64)
  }

  function DecodeRel(c: Cursor, op: Op, n: nat): (r: Option<Decoded>)
    requires c.Valid()
    ensures c.Within(r, n)
  {
    var f :- ReadField(c.code, c.p, n);
    c.Done(c.p + n, op, [Target(c, c.p + n, Signed(f))])
  }

  /** An opcode with a ModRM operand and a register field: rm first or register first. */
  function DecodeRmReg(c: Cursor, op: Op, rmSize: RegSize, regSize: RegSize, regFirst: bool): (r: Option<Decoded>)
    requires c.Valid()
    ensures c.Within(r, 6)
  {
    var rm :- DecodeRm(c.code, c.p, c.rex, rmSize);
    var reg := c.RegField(regSize);
    c.Done(c.p + rm.length, op, if regFirst then [reg, rm.operand] else [rm.operand, reg])
  }

  function DecodeRmOnly(c: Cursor, op: Op, size: RegSize): (r: Option<Decoded>)
    requires c.Valid()
    ensures c.Within(r, 6)
  {
    var rm :- DecodeRm(c.code, c.p, c.rex, size);
    c.Done(c.p + rm.length, op, [rm.operand])
  }

  /** An opcode with a ModRM operand and an n-byte immediate after it. */
  function DecodeRmImm(c: Cursor, op: Op, size: RegSize, n: nat, signed: bool): (r: Option<Decoded>)
    requires c.Valid()
    ensures c.Within(r, 6 + n)
  {
    var rm :- DecodeRm(c.code, c.p, c.rex, size);
    var f :- ReadField(c.code, c.p + rm.length, n);
    c.Done(c.p + rm.length + n, op, [rm.operand, Imm(if signed then Signed(f) else Unsigned(f))])
  }

  /** The two-byte opcodes; the cursor is behind the second byte op2. */
  function DecodeEscape(c: Cursor, op2: byte): (r: Option<Decoded>)
    requires c.Valid()
    ensures c.Within(r, 9)
  {
    var size := c.Size();
    if op2 == 0x05 then c.Done(c.p, Syscall, [])
    else if op2 == 0x1F then
      if c.p >= |c.code| then None
      else if c.Ext() != 0 then c.Fallback()
      else
        var rm :- DecodeRm(c.code, c.p, c.rex, R32);
        c.Done(c.p + rm.length, Nop, if ModOf(c.code[c.p]) == 3 then [] else [rm.operand])
    else if 0x80 <= op2 <= 0x8F then DecodeRel(c, Jcc(CondName(op2 - 0x80)), 4)
    else if 0x40 <= op2 <= 0x4F then DecodeRmReg(c, Cmov(CondName(op2 - 0x40)), size, size, true)
    else if 0x90 <= op2 <= 0x9F then DecodeRmOnly(c, SetCc(CondName(op2 - 0x90)), R8)
    else if op2 == 0xB6 then DecodeRmReg(c, Movzx, R8, size, true)
    else if op2 == 0xB7 then DecodeRmReg(c, Movzx, R16, size, true)
    else if op2 == 0xBE then DecodeRmReg(c, Movsx, R8, size, true)
    else if op2 == 0xBF then DecodeRmReg(c, Movsx, R16, size, true)
    else if op2 == 0xAF then DecodeRmReg(c, Imul, size, size, true)
    else if op2 == 0xBC then DecodeRmReg(c, Bsf, size, size, true)
    else if op2 == 0xBD then DecodeRmReg(c, Bsr, size, size, true)
    else if op2 == 0xC0 then DecodeRmReg(c, Xadd, R8, R8, false)
    else if op2 == 0xC1 then DecodeRmReg(c, Xadd, size, size, false)
    else if op2 == 0xB0 then DecodeRmReg(c, Cmpxchg, R8, R8, false)
    else if op2 == 0xB1 then DecodeRmReg(c, Cmpxchg, size, size, false)
    else if op2 == 0xA3 then DecodeRmReg(c, Bits(Bt), size, size, false)
    else if op2 == 0xAB then DecodeRmReg(c, Bits(Bts), size, size, false)
    else if op2 == 0xB3 then DecodeRmReg(c, Bits(Btr), size, size, false)
    else if op2 == 0xBB then DecodeRmReg(c, Bits(Btc), size, size, false)
    else if op2 == 0xBA then
      if c.p >= |c.code| then None
      else if c.Ext() < 4 then c.Fallback()
      else DecodeRmImm(c, Bits([Bt, Bts, Btr, Btc][c.Ext() - 4]), size, 1, false)
    else c.Fallback()
  }

  /** The one-byte opcodes that carry a ModRM byte. */
  predicate HasModRm(op: byte) {
    op == 0x80 || op == 0x88 || op == 0x8A || op == 0xC0 || op == 0xC1
    || op == 0xC7 || op == 0x81 || op == 0x83 || op == 0xFF || op == 0xF6 || op == 0xF7 || op == 0x8F
    || op == 0x8D || op == 0x63
    || op == 0x89 || op == 0x8B || op == 0x85 || op == 0x01 || op == 0x03
    || op == 0x29 || op == 0x2B || op == 0x39 || op == 0x3B
    || op == 0x31 || op == 0x33 || op == 0x21 || op == 0x23
    || op == 0x09 || op == 0x0B
  }

  /** The mnemonic switch over 0x01 .. 0x3b */
  function AluOpcode(op: byte): AluOp {
    if op == 0x01 || op == 0x03 then Add
    else if op == 0x29 || op == 0x2B then Sub
    else if op == 0x39 || op == 0x3B then Cmp
    else if op == 0x31 || op == 0x33 then Xor
    else if op == 0x21 || op == 0x23 then And
    else Or
  }

  function DecodeModRmOpcode(c: Cursor, op: byte): (r: Option<Decoded>)
    requires c.Valid() && HasModRm(op)
    ensures c.Within(r, 10)
  {
    var size := c.Size();
    var byteForm := op == 0x80 || op == 0x88 || op == 0x8A || op == 0xC0 || op == 0xF6;
    var rmSize := if op == 0x63 then R32 else if byteForm then R8 else size;
    // the operand is decoded before the extension is looked at
    var rm :- DecodeRm(c.code, c.p, c.rex, rmSize);
    if op == 0x8D then DecodeRmReg(c, Lea, rmSize, size, true)
    else if op == 0x63 then
      c.Done(c.p + rm.length, Movsxd, [Reg(RegOf(c.code[c.p]) + RexR(c.rex), R64), rm.operand])
    else if op == 0x89 then DecodeRmReg(c, Mov, rmSize, size, false)
    else if op == 0x8B then DecodeRmReg(c, Mov, rmSize, size, true)
    else if op == 0x88 then DecodeRmReg(c, Mov, rmSize, R8, false)
    else if op == 0x8A then DecodeRmReg(c, Mov, rmSize, R8, true)
    else if op == 0x85 then DecodeRmReg(c, Test, rmSize, size, false)
    else if op == 0xC0 || op == 0xC1 then
      var shift := Group2Name(c.Ext());
      if shift.None? then c.Fallback() else DecodeRmImm(c, Shift(shift.value), rmSize, 1, false)
    else if op == 0xC7 then
      if c.Ext() != 0 then c.Fallback()
      else DecodeRmImm(c, Mov, rmSize, if c.opSize then 2 else 4, false)
    else if op == 0x80 then DecodeRmImm(c, Alu(Group1Name(c.Ext())), rmSize, 1, false)
    else if op == 0x81 then DecodeRmImm(c, Alu(Group1Name(c.Ext())), rmSize, if c.opSize then 2 else 4, false)
    else if op == 0x83 then DecodeRmImm(c, Alu(Group1Name(c.Ext())), rmSize, 1, true)
    else if op == 0xFF then
      var ext := c.Ext();
      if ext == 0 then DecodeRmOnly(c, Unary(Inc), rmSize)
      else if ext == 1 then DecodeRmOnly(c, Unary(Dec), rmSize)
      else if ext == 2 then DecodeRmOnly(c, Call, rmSize)
      else if ext == 4 then DecodeRmOnly(c, Jmp, rmSize)
      else if ext == 6 then DecodeRmOnly(c, Push, rmSize)
      else c.Fallback()
    else if op == 0x8F then
      if c.Ext() == 0 then DecodeRmOnly(c, Pop, rmSize) else c.Fallback()
    else if op == 0xF6 || op == 0xF7 then
      var ext := c.Ext();
      if ext == 0 then
        DecodeRmImm(c, Test, rmSize, if op == 0xF6 then 1 else if !RexW(c.rex) && c.opSize then 2 else 4, false)
      else if ext == 2 then DecodeRmOnly(c, Unary(Not), rmSize)
      else if ext == 3 then DecodeRmOnly(c, Unary(Neg), rmSize)
      else c.Fallback()
    else DecodeRmReg(c, Alu(AluOpcode(op)), rmSize, size, op % 8 == 3)
  }

  /** Everything behind the prefixes; the cursor is behind the opcode byte op. */
  function DecodeOpcode(c: Cursor, op: byte): (r: Option<Decoded>)
    requires c.Valid()
    ensures c.Within(r, 10)
  {
    if 0x50 <= op <= 0x57 then c.Done(c.p, Push, [Gpr(op - 0x50 + RexB(c.rex))])
    else if 0x58 <= op <= 0x5F then c.Done(c.p, Pop, [Gpr(op - 0x58 + RexB(c.rex))])
    else if op == 0x6A then
      var f :- ReadField(c.code, c.p, 1);
      c.Done(c.p + 1, Push, [Imm(Signed(f))])
    else if op == 0x68 then
      var f :- ReadField(c.code, c.p, 4);
      c.Done(c.p + 4, Push, [Imm(Unsigned(f))])
    else if 0x70 <= op <= 0x7F then DecodeRel(c, Jcc(CondName(op - 0x70)), 1)
    else if op == 0xEB then DecodeRel(c, Jmp, 1)
    else if op == 0x90 then c.Done(c.p, Nop, [])
    else if op == 0xC9 then c.Done(c.p, Leave, [])
    else if op == 0x0F then
      if c.p >= |c.code| then None else DecodeEscape(c.(p := c.p + 1), c.code[c.p])
    else if 0xB8 <= op <= 0xBF then
      var n := if RexW(c.rex) then 8 else if c.opSize then 2 else 4;
      var f :- ReadField(c.code, c.p, n);
      c.Done(c.p + n, Mov, [SelectReg(op - 0xB8 + RexB(c.rex), c.Size(), c.rex != 0), Imm(Unsigned(f))])
    else if op == 0xE8 then DecodeRel(c, Call, 4)
    else if op == 0xE9 then DecodeRel(c, Jmp, 4)
    else if op == 0xC3 then c.Done(c.p, Ret, [])
    else if HasModRm(op) then DecodeModRmOpcode(c, op)
    else c.Fallback()
  }

  /** decode_one: None is its failure return, when the bytes run out. */
  function DecodeOne(code: seq<byte>, base: int, start: nat): Option<Decoded> {
    if start >= |code| then None
    else
      var pre := ScanPrefixes(code, start, false, 0);
      if pre.cursor >= |code| then None
      else DecodeOpcode(Cursor(code, base, start, pre.cursor + 1, pre.opSize, pre.rex), code[pre.cursor])
  }

  // One line of the listing: where it starts, how many bytes, and the instruction or a db.
  datatype Entry = Entry(offset: nat, length: nat, inst: Instruction)

  /** One round of the loop in disassemble_code_buffer: a failed decode becomes one db byte. */
  function Step(code: seq<byte>, base: int, start: nat): Entry
    requires start < |code|
  {
    match DecodeOne(code, base, start)
    case Some(d) => if d.length > 0 then Entry(start, d.length, d.inst) else Entry(start, 1, DbLine(code[start]).inst)
    case None => Entry(start, 1, DbLine(code[start]).inst)
  }

  /** The longest decode behind p prefix bytes is p + 11 bytes, and every decode takes at least one. */
  lemma DecodeLength(code: seq<byte>, base: int, start: nat)
    requires start < |code|
    ensures var pre := ScanPrefixes(code, start, false, 0).cursor - start;
            var d := DecodeOne(code, base, start);
            d.Some? ==> 1 <= d.value.length <= pre + 11 && start + d.value.length <= |code|
  {
  }

  /** disassemble_code_buffer, from offset start. */
  function Disassemble(code: seq<byte>, base: int, start: nat): (r: seq<Entry>)
    requires start <= |code|
    decreases |code| - start
  {
    if start == |code| then []
    else
      var e := Step(code, base, start);
      DecodeLength(code, base, start);
      [e] + Disassemble(code, base, start + e.length)
  }

  /** The bytes of the listed lines, in order. */
  function Covered(code: seq<byte>, es: seq<Entry>): seq<byte>
    requires forall e <- es :: e.offset + e.length <= |code|
  {
    if es == [] then []
    else code[es[0].offset..es[0].offset + es[0].length] + Covered(code, es[1..])
  }

  // ---- the length of one line ----

  /** DIS_MAX_INST_BYTES: the bytes one printed line has room for. */
  const MAX_INST_BYTES: nat := 15

  /** The entries that are printed: those before the first that takes too many bytes. */
  function Reached(es: seq<Entry>): (r: seq<Entry>) {
    if es == [] || es[0].length > MAX_INST_BYTES then [] else [es[0]] + Reached(es[1..])
  }

  /** That is the longest beginning of the listing without a long entry, and all of it exactly when there is none. */
  lemma {:induction false} ReachedExactly(es: seq<Entry>)
    ensures Reached(es) <= es && forall e <- Reached(es) :: e.length <= MAX_INST_BYTES
    ensures |Reached(es)| < |es| ==> es[|Reached(es)|].length > MAX_INST_BYTES
    ensures Reached(es) == es <==> forall e <- es :: e.length <= MAX_INST_BYTES
  {
    if es != [] && es[0].length <= MAX_INST_BYTES {
      ReachedExactly(es[1..]);
      assert es == [es[0]] + es[1..];
    }
  }

  /** n prefix bytes in a row from p on. */
  predicate PrefixRun(code: seq<byte>, p: nat, n: nat) {
    p + n <= |code| && forall k :: p <= k < p + n ==> IsPrefix(code[k])
  }

  /** Code without five prefix bytes in a row is listed to its end. */
  lemma {:induction false} FewPrefixes(code: seq<byte>, base: int, start: nat)
    requires start <= |code| && forall p: nat :: !PrefixRun(code, p, 5)
    ensures forall e <- Disassemble(code, base, start) :: e.length <= MAX_INST_BYTES
    decreases |code| - start
  {
    hide DecodeOne, IsPrefix;
    if start < |code| {
      DecodeLength(code, base, start);
      var pre := ScanPrefixes(code, start, false, 0).cursor - start;
      assert PrefixRun(code, start, if pre < 5 then pre else 5);
      FewPrefixes(code, base, start + Step(code, base, start).length);
    }
  }

  /** Prefixes are passed up to the first byte that is none. */
  lemma {:induction false} ScanRun(code: seq<byte>, p: nat, end: nat, opSize: bool, rex: byte)
    requires p <= end < |code| && !IsPrefix(code[end])
    requires forall k :: p <= k < end ==> code[k] == 0x66 || code[k] == 0x67
    ensures var r := ScanPrefixes(code, p, opSize, rex); r.cursor == end && r.rex == rex
    ensures (forall k :: p <= k < end ==> code[k] == 0x67) ==> ScanPrefixes(code, p, opSize, rex).opSize == opSize
    decreases end - p
  {
    if p < end {
      ScanRun(code, p + 1, end, opSize || code[p] == 0x66, rex);
    }
  }

  /** Sixteen operand-size prefixes in front of a nop take one line of seventeen bytes, which is not printed. */
  lemma LongLineLost(base: int)
    ensures var code: seq<byte> := seq(16, _ => 0x66) + [0x90];
      && Disassemble(code, base, 0) == [Entry(0, 17, Instruction(Nop, []))]
      && Reached(Disassemble(code, base, 0)) == []
  {
    var code: seq<byte> := seq(16, _ => 0x66) + [0x90];
    ScanRun(code, 0, 16, false, 0);
    hide ScanPrefixes;
    assert Step(code, base, 0) == Entry(0, 17, Instruction(Nop, []));
    hide Step;
    assert Disassemble(code, base, 17) == [];
  }

  /** add dword [rsp], 0 with a wide displacement and a wide immediate. */
  const LONGEST: seq<byte> := [0x81, 0x84, 0x24, 0, 0, 0, 0, 0, 0, 0, 0]

  /** Five prefixes can be one too many. */
  lemma FivePrefixesLost(base: int)
    ensures var code: seq<byte> := seq(5, _ => 0x67) + LONGEST;
      && !PrefixRun(code, 0, 6) && |Disassemble(code, base, 0)| == 1
      && Disassemble(code, base, 0)[0].length == 16 && Reached(Disassemble(code, base, 0)) == []
  {
    var code: seq<byte> := seq(5, _ => 0x67) + LONGEST;
    ScanRun(code, 0, 5, false, 0);
    LongestLength(code, base);
    assert code[5] == 0x81;
    hide ScanPrefixes, DecodeOpcode;
    var e := Step(code, base, 0);
    assert e.offset == 0 && e.length == 16;
    hide Step;
    assert Disassemble(code, base, 16) == [];
  }

  lemma LongestLength(code: seq<byte>, base: int)
    requires code == seq(5, _ => 0x67) + LONGEST
    ensures var d := DecodeOpcode(Cursor(code, base, 0, 6, false, 0), 0x81); d.Some? && d.value.length == 16
  {
    hide Signed, Unsigned;
    assert code[6] == 0x84 && code[7] == 0x24;
    assert DecodeRm(code, 6, 0, R32).Some? && DecodeRm(code, 6, 0, R32).value.length == 6;
  }
}
