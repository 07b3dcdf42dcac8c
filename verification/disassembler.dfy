// The disassembler as it runs: prefixes are skipped in a loop, an operand is printed piece by piece,
// and the listing loop advances by what each decode consumed.

module Disassembler {
  import opened Bytes
  import opened Operands
  import opened Encoding
  import opened Decoding
  import opened RmRoundTrip
  import opened Text
  import opened PrintParse
  import opened MemParsing
  import Lexing

  // ---- format_rm_operand ----

  /**
   * format_rm_operand: the printed operand and rm_len, false when the bytes run out. What it prints and
   * how far it moves is the structured decoding.
   */
  method FormatRmOperand(code: seq<byte>, pos: nat, rex: byte, size: RegSize)
    returns (ok: bool, text: string, length: nat)
    ensures var r := DecodeRm(code, pos, rex, size);
      && ok == r.Some?
      && (ok ==> text == RenderOperand(r.value.operand) && length == r.value.length)
  {
    hide RenderOperand, Signed, DecodeDisp, SelectReg;
    text, length := "", 0;
    if pos >= |code| {
      return false, text, length;
    }
    var mod, rm := ModOf(code[pos]), RmOf(code[pos]);
    if mod == 3 {
      text := RegisterText(rm + RexB(rex), size, rex != 0);
      return true, text, 1;
    }
    var cursor := pos + 1;
    var base: Option<Reg>, index: Option<Reg> := Some(rm + RexB(rex)), None;
    var scale, rip, dispSize := 1, false, DispSize(mod);
    if rm == 4 {
      if cursor >= |code| {
        return false, text, length;
      }
      var sib := code[cursor];
      cursor := cursor + 1;
      base := Some(RmOf(sib) + RexB(rex));
      if RegOf(sib) != 4 {
        index := Some(RegOf(sib) + RexX(rex));
        scale := [1, 2, 4, 8][ModOf(sib)];
      }
      if mod == 0 && RmOf(sib) == 5 {
        base := None;
        dispSize := 4;
      }
    } else if mod == 0 && rm == 5 {
      rip, base, dispSize := true, None, 4;
    }
    ok, text, length := FormatDisp(code, pos, cursor - pos, dispSize, base, index, scale, rip);
  }

  /** The second half: the displacement is read and the operand printed. */
  method FormatDisp(code: seq<byte>, pos: nat, head: nat, dispSize: nat,
                    base: Option<Reg>, index: Option<Reg>, scale: int, rip: bool)
    returns (ok: bool, text: string, length: nat)
    requires dispSize <= 4
    ensures var r := DecodeDisp(code, pos, head, dispSize, base, index, scale, rip);
      && ok == r.Some?
      && (ok ==> text == RenderOperand(r.value.operand) && length == r.value.length)
  {
    hide RenderMem, Signed;
    if pos + head + dispSize > |code| {
      return false, "", 0;
    }
    var disp := Signed(code[pos + head..pos + head + dispSize]);
    text := PrintMem(base, index, scale, disp, dispSize > 0, rip);
    return true, text, head + dispSize;
  }

  /** select_reg_name */
  method RegisterText(code: int, size: RegSize, rex: bool) returns (text: string)
    requires 0 <= code < 16
    ensures text == RenderOperand(SelectReg(code, size, rex))
  {
    var o := SelectReg(code, size, rex);
    return RegName(o.reg, o.size);
  }

  /** The printing half of format_rm_operand: each part is appended to what is there. */
  method PrintMem(base: Option<Reg>, index: Option<Reg>, scale: int, disp: int, hasDisp: bool, rip: bool)
    returns (text: string)
    ensures text == RenderMem(Mem(base, index, scale, disp, hasDisp, false, rip, Default, ""))
  {
    hide Hex, RegName, SignedHex, ScaleDigit, RenderMem;
    ghost var m := Mem(base, index, scale, disp, hasDisp, false, rip, Default, "");
    PartsText(m);
    text := "[";
    if rip {
      text := text + "rip";
      text := text + SignedHex(disp);
    } else {
      var needsPlus := false;
      if base.Some? {
        text := text + RegName(base.value, R64);
        needsPlus := true;
      } else {
        assert text + "" == text;
      }
      assert text == "[" + BaseText(m);
      if index.Some? {
        text := text + ((if needsPlus then "+" else "") + RegName(index.value, R64) + "*" + ScaleDigit(scale));
        needsPlus := true;
      } else {
        assert text + "" == text;
      }
      assert text == "[" + BaseText(m) + IndexText(m);
      if hasDisp {
        text := text + (if !needsPlus then "0x" + Hex(disp % TWO32) else SignedHex(disp));
      } else {
        assert text + "" == text;
      }
    }
    text := text + "]";
  }

  lemma PartsText(m: Mem)
    ensures RenderMem(m)
         == if m.isRip then "[" + "rip" + SignedHex(m.disp) + "]"
            else "[" + BaseText(m) + IndexText(m) + DispText(m) + "]"
  {
    hide Hex, RegName, SignedHex, ScaleDigit;
    assert "[" + "rip" == "[rip";
  }

  // ---- decode_one ----

  // What decode_one leaves in its result: how many bytes it consumed, and the text.
  datatype Shown = Shown(consumed: nat, text: string)

  function Show(r: Option<Decoded>): Option<Shown> {
    if r.None? then None else Some(Shown(r.value.length, RenderInst(r.value.inst)))
  }

  /** decode_one: the prefix loop, then the switch over the opcode. */
  method DecodeNext(code: seq<byte>, base: int, start: nat) returns (r: Option<Shown>)
    requires start < |code|
    ensures r == Show(DecodeOne(code, base, start))
  {
    hide DecodeOpcode, IsSkippedPrefix, RenderInst;
    var cursor, operandOverride := start, false;
    var rex: byte := 0;
    while cursor < |code|
      invariant start <= cursor <= |code|
      invariant ScanPrefixes(code, start, false, 0) == ScanPrefixes(code, cursor, operandOverride, rex)
    {
      var b := code[cursor];
      if b == 0x66 {
        operandOverride := true;
      } else if IsSkippedPrefix(b) {
      } else if 0x40 <= b <= 0x4F {
        rex := b;
      } else {
        break;
      }
      cursor := cursor + 1;
    }
    if cursor >= |code| {
      return None;
    }
    var opcode := code[cursor];
    r := PrintOpcode(Cursor(code, base, start, cursor + 1, operandOverride, rex), opcode);
  }

  /** read_le32, read_le64 and the 8- and 16-bit reads: n bytes at p, least significant first. */
  method ReadLe(code: seq<byte>, p: nat, n: nat) returns (v: Option<nat>)
    ensures v == match ReadField(code, p, n) { case Some(f) => Some(Unsigned(f)) case None => None }
  {
    if p + n > |code| {
      return None;
    }
    var value: nat, weight: nat := 0, 1;
    for i := 0 to n
      invariant weight == Pow256(i) && value == Unsigned(code[p..p + i])
    {
      UnsignedSnoc(code[p..p + i], code[p + i]);
      assert code[p..p + i] + [code[p + i]] == code[p..p + i + 1];
      value, weight := value + weight * code[p + i], 256 * weight;
    }
    return Some(value);
  }

  lemma {:induction false} UnsignedSnoc(s: seq<byte>, b: byte)
    ensures Unsigned(s + [b]) == Unsigned(s) + Pow256(|s|) * b
  {
    if s == [] {
      assert s + [b] == [b] && [b][1..] == [];
    } else {
      UnsignedSnoc(s[1..], b);
      assert (s + [b])[0] == s[0] && (s + [b])[1..] == s[1..] + [b];
      Times256(Pow256(|s| - 1), b);
    }
  }

  lemma Times256(p: int, b: int)
    ensures 256 * (p * b) == 256 * p * b
  {
  }

  /** The casts to int8_t and int32_t. */
  lemma CastSigned(s: seq<byte>)
    ensures Signed(s) == if 2 * Unsigned(s) >= Pow256(|s|) then Unsigned(s) - Pow256(|s|) else Unsigned(s)
  {
    if s != [] {
      TopByte(s);
    }
  }

  /** An n-byte immediate at end, behind what is printed already. */
  method PrintImm(c: Cursor, end: nat, n: nat, signed: bool, head: string) returns (r: Option<Shown>)
    requires c.start <= end
    ensures r == ImmShown(c, end, n, signed, head)
  {
    hide RenderImm, Signed, Unsigned;
    var v := ReadLe(c.code, end, n);
    if v.None? {
      return None;
    }
    CastSigned(c.code[end..end + n]);
    var value := if signed && 2 * v.value >= Pow256(n) then v.value - Pow256(n) else v.value;
    return Some(Shown(end + n - c.start, head + RenderImm(value)));
  }

  function ImmShown(c: Cursor, end: nat, n: nat, signed: bool, head: string): Option<Shown>
    requires c.start <= end
  {
    var f :- ReadField(c.code, end, n);
    Some(Shown(end + n - c.start, head + RenderImm(if signed then Signed(f) else Unsigned(f))))
  }

  /** The mnemonic alone, with one operand, and with two. */
  lemma RenderParts(op: Op, a: Operand, b: Operand)
    requires op != Db
    ensures RenderInst(Instruction(op, [])) == OpText(op)
    ensures RenderInst(Instruction(op, [a])) == OpText(op) + " " + RenderOperand(a)
    ensures RenderInst(Instruction(op, [a, b])) == OpText(op) + " " + RenderOperand(a) + ", " + RenderOperand(b)
  {
    hide OpText, RenderOperand;
    assert [a, b][1..] == [b] && JoinOperands([b]) == RenderOperand(b);
    assert OpText(op) + " " + (RenderOperand(a) + ", " + RenderOperand(b))
        == OpText(op) + " " + RenderOperand(a) + ", " + RenderOperand(b);
  }

  lemma RenderDb(b: byte)
    ensures RenderInst(DbLine(b).inst) == "db 0x" + HexByte(b)
  {
    hide Hex;
    HexDigits(b);
    assert OpText(Db) + " " + ("0x" + Hex(b)) == "db 0x" + Hex(b);
    assert "db 0x" + ("0" + Hex(b)) == "db 0x0" + Hex(b);
  }

  /** %02x */
  function HexByte(b: byte): (s: string) {
    if b < 16 then "0" + Hex(b) else Hex(b)
  }

  lemma HexDigits(b: byte)
    ensures HexByte(b) == [Digit(b / 16), Digit(b % 16)]
  {
    assert Digits(b, 16) == if b < 16 then [Digit(b)] else Digits(b / 16, 16) + [Digit(b % 16)];
  }

  /** The db line of an opcode that is not known. */
  method PrintDb(c: Cursor) returns (r: Option<Shown>)
    requires c.Valid()
    ensures r == Show(c.Fallback())
  {
    RenderDb(c.code[c.start]);
    return Some(Shown(1, "db 0x" + HexByte(c.code[c.start])));
  }

  /** A mnemonic without operands. */
  method PrintBare(c: Cursor, op: Op) returns (r: Option<Shown>)
    requires c.Valid() && op != Db
    ensures r == Show(c.Done(c.p, op, []))
  {
    hide OpText;
    RenderParts(op, Imm(0), Imm(0));
    return Some(Shown(c.p - c.start, OpText(op)));
  }

  /** A branch: the target is the next instruction's address plus the displacement, as a uint64_t. */
  method PrintRel(c: Cursor, op: Op, n: nat) returns (r: Option<Shown>)
    requires c.Valid() && op != Db
    ensures r == Show(DecodeRel(c, op, n))
  {
    hide OpText, RenderImm, Signed, Unsigned;
    var v := ReadLe(c.code, c.p, n);
    if v.None? {
      return None;
    }
    CastSigned(c.code[c.p..c.p + n]);
    var rel := if 2 * v.value >= Pow256(n) then v.value - Pow256(n) else v.value;
    var nextIp := c.base + c.start + (c.p + n - c.start);
    var target := Imm((nextIp + rel) % TWO64);
    RenderParts(op, target, target);
    return Some(Shown(c.p + n - c.start, OpText(op) + " " + RenderOperand(target)));
  }

  /** The text and length of a formatted ModRM operand. */
  ghost predicate Formatted(c: Cursor, size: RegSize, text: string, length: nat) {
    var rm := DecodeRm(c.code, c.p, c.rex, size);
    rm.Some? && text == RenderOperand(rm.value.operand) && length == rm.value.length
  }

  /** A formatted operand beside the register field, in either order. */
  method JoinReg(c: Cursor, op: Op, rmSize: RegSize, regSize: RegSize, regFirst: bool, text: string, length: nat)
    returns (r: Option<Shown>)
    requires c.Valid() && op != Db && Formatted(c, rmSize, text, length)
    ensures r == Show(DecodeRmReg(c, op, rmSize, regSize, regFirst))
  {
    hide OpText, RenderOperand, DecodeRm, RenderInst, SelectReg;
    var reg := c.RegField(regSize);
    ghost var rm := DecodeRm(c.code, c.p, c.rex, rmSize).value.operand;
    RenderParts(op, reg, rm);
    RenderParts(op, rm, reg);
    var name := RenderOperand(reg);
    return Some(Shown(c.p + length - c.start,
                      if regFirst then OpText(op) + " " + name + ", " + text
                      else OpText(op) + " " + text + ", " + name));
  }

  /** A formatted operand alone. */
  method JoinNothing(c: Cursor, op: Op, size: RegSize, text: string, length: nat) returns (r: Option<Shown>)
    requires c.Valid() && op != Db && Formatted(c, size, text, length)
    ensures r == Show(DecodeRmOnly(c, op, size))
  {
    hide OpText, RenderOperand, DecodeRm, RenderInst;
    RenderParts(op, DecodeRm(c.code, c.p, c.rex, size).value.operand, Imm(0));
    return Some(Shown(c.p + length - c.start, OpText(op) + " " + text));
  }

  /** A formatted operand with an immediate behind it. */
  method JoinImm(c: Cursor, op: Op, size: RegSize, n: nat, signed: bool, text: string, length: nat)
    returns (r: Option<Shown>)
    requires c.Valid() && op != Db && Formatted(c, size, text, length)
    ensures r == Show(DecodeRmImm(c, op, size, n, signed))
  {
    hide OpText, RenderImm, DecodeRm, RenderInst, Signed, Unsigned;
    ghost var rm := DecodeRm(c.code, c.p, c.rex, size).value.operand;
    forall v: int {
      RenderParts(op, rm, Imm(v));
    }
    r := PrintImm(c, c.p + length, n, signed, OpText(op) + " " + text + ", ");
  }

  method PrintRmReg(c: Cursor, op: Op, rmSize: RegSize, regSize: RegSize, regFirst: bool) returns (r: Option<Shown>)
    requires c.Valid() && op != Db
    ensures r == Show(DecodeRmReg(c, op, rmSize, regSize, regFirst))
  {
    hide DecodeRm, RenderInst, RenderOperand, SelectReg;
    var ok, text, length := FormatRmOperand(c.code, c.p, c.rex, rmSize);
    if !ok {
      return None;
    }
    r := JoinReg(c, op, rmSize, regSize, regFirst, text, length);
  }

  method PrintRmOnly(c: Cursor, op: Op, size: RegSize) returns (r: Option<Shown>)
    requires c.Valid() && op != Db
    ensures r == Show(DecodeRmOnly(c, op, size))
  {
    hide DecodeRm, RenderInst, RenderOperand;
    var ok, text, length := FormatRmOperand(c.code, c.p, c.rex, size);
    if !ok {
      return None;
    }
    r := JoinNothing(c, op, size, text, length);
  }

  method PrintRmImm(c: Cursor, op: Op, size: RegSize, n: nat, signed: bool) returns (r: Option<Shown>)
    requires c.Valid() && op != Db
    ensures r == Show(DecodeRmImm(c, op, size, n, signed))
  {
    hide DecodeRm, RenderInst, RenderOperand, Signed, Unsigned;
    var ok, text, length := FormatRmOperand(c.code, c.p, c.rex, size);
    if !ok {
      return None;
    }
    r := JoinImm(c, op, size, n, signed, text, length);
  }

  /** nop with an operand that is decoded and, unless it is a register, shown. */
  method PrintLongNop(c: Cursor) returns (r: Option<Shown>)
    requires c.Valid()
    ensures r == Show(DecodeEscape(c, 0x1F))
  {
    hide DecodeRm, RenderInst, RenderOperand, Signed, Unsigned, SelectReg, OpText;
    if c.p >= |c.code| {
      return None;
    }
    if c.Ext() != 0 {
      r := PrintDb(c);
      return;
    }
    var ok, text, length := FormatRmOperand(c.code, c.p, c.rex, R32);
    if !ok {
      return None;
    }
    RenderParts(Nop, DecodeRm(c.code, c.p, c.rex, R32).value.operand, Imm(0));
    var consumed := c.p + length - c.start;
    return Some(Shown(consumed, if ModOf(c.code[c.p]) == 3 then OpText(Nop) else OpText(Nop) + " " + text));
  }

  /** The switch over the byte behind 0x0f. */
  method PrintEscape(c: Cursor, op2: byte) returns (r: Option<Shown>)
    requires c.Valid()
    ensures r == Show(DecodeEscape(c, op2))
  {
    hide DecodeRm, RenderInst, DecodeRel, DecodeRmReg, DecodeRmOnly, DecodeRmImm, CondName;
    var size := c.Size();
    if op2 == 0x05 {
      r := PrintBare(c, Syscall);
    } else if op2 == 0x1F {
      r := PrintLongNop(c);
    } else if 0x80 <= op2 <= 0x8F {
      r := PrintRel(c, Jcc(CondName(op2 - 0x80)), 4);
    } else if 0x40 <= op2 <= 0x4F {
      r := PrintRmReg(c, Cmov(CondName(op2 - 0x40)), size, size, true);
    } else if 0x90 <= op2 <= 0x9F {
      r := PrintRmOnly(c, SetCc(CondName(op2 - 0x90)), R8);
    } else if op2 == 0xB6 || op2 == 0xB7 {
      r := PrintRmReg(c, Movzx, if op2 == 0xB6 then R8 else R16, size, true);
    } else if op2 == 0xBE || op2 == 0xBF {
      r := PrintRmReg(c, Movsx, if op2 == 0xBE then R8 else R16, size, true);
    } else if op2 == 0xAF {
      r := PrintRmReg(c, Imul, size, size, true);
    } else if op2 == 0xBC || op2 == 0xBD {
      r := PrintRmReg(c, if op2 == 0xBC then Bsf else Bsr, size, size, true);
    } else if op2 == 0xC0 || op2 == 0xC1 {
      var width := if op2 == 0xC0 then R8 else size;
      r := PrintRmReg(c, Xadd, width, width, false);
    } else if op2 == 0xB0 || op2 == 0xB1 {
      var width := if op2 == 0xB0 then R8 else size;
      r := PrintRmReg(c, Cmpxchg, width, width, false);
    } else if op2 == 0xA3 || op2 == 0xAB || op2 == 0xB3 || op2 == 0xBB {
      var bit := Bt;
      if op2 == 0xAB {
        bit := Bts;
      } else if op2 == 0xB3 {
        bit := Btr;
      } else if op2 == 0xBB {
        bit := Btc;
      }
      r := PrintRmReg(c, Bits(bit), size, size, false);
    } else if op2 == 0xBA {
      if c.p >= |c.code| {
        return None;
      }
      var ext := c.Ext();
      if ext < 4 {
        r := PrintDb(c);
      } else {
        r := PrintRmImm(c, Bits([Bt, Bts, Btr, Btc][ext - 4]), size, 1, false);
      }
    } else {
      r := PrintDb(c);
    }
  }

  /** The switch over the opcodes with a ModRM byte: the operand is formatted before the opcode is looked at again. */
  method PrintModRmOpcode(c: Cursor, op: byte) returns (r: Option<Shown>)
    requires c.Valid() && HasModRm(op)
    ensures r == Show(DecodeModRmOpcode(c, op))
  {
    hide DecodeRm, RenderInst, RenderOperand, DecodeRmReg, DecodeRmOnly, DecodeRmImm, SelectReg, AluOpcode;
    var size := c.Size();
    var rmSize := size;
    if op == 0x63 {
      rmSize := R32;
    } else if op == 0x80 || op == 0x88 || op == 0x8A || op == 0xC0 || op == 0xF6 {
      rmSize := R8;
    }
    var ok, text, length := FormatRmOperand(c.code, c.p, c.rex, rmSize);
    if !ok {
      return None;
    }
    if op == 0x8D {
      r := JoinReg(c, Lea, rmSize, size, true, text, length);
    } else if op == 0x63 {
      r := PrintMovsxd(c, text, length);
    } else if op == 0x89 || op == 0x8B {
      r := JoinReg(c, Mov, rmSize, size, op == 0x8B, text, length);
    } else if op == 0x88 || op == 0x8A {
      r := JoinReg(c, Mov, rmSize, R8, op == 0x8A, text, length);
    } else if op == 0x85 {
      r := JoinReg(c, Test, rmSize, size, false, text, length);
    } else if op == 0xC0 || op == 0xC1 || op == 0xC7 || op == 0x80 || op == 0x81 || op == 0x83 {
      r := PrintGroupImm(c, op, rmSize, text, length);
    } else if op == 0xFF || op == 0x8F || op == 0xF6 || op == 0xF7 {
      r := PrintGroupUnary(c, op, rmSize, text, length);
    } else {
      r := JoinReg(c, Alu(AluOpcode(op)), rmSize, size, op % 8 == 3, text, length);
    }
  }

  /** movsxd, whose register is always shown by its 64-bit name. */
  method PrintMovsxd(c: Cursor, text: string, length: nat) returns (r: Option<Shown>)
    requires c.Valid() && Formatted(c, R32, text, length)
    ensures r == Show(DecodeModRmOpcode(c, 0x63))
  {
    hide DecodeRm, RenderInst, RenderOperand, OpText;
    var reg := Reg(RegOf(c.code[c.p]) + RexR(c.rex), R64);
    RenderParts(Movsxd, reg, DecodeRm(c.code, c.p, c.rex, R32).value.operand);
    return Some(Shown(c.p + length - c.start, OpText(Movsxd) + " " + RenderOperand(reg) + ", " + text));
  }

  predicate GroupImm(op: byte) { op == 0xC0 || op == 0xC1 || op == 0xC7 || op == 0x80 || op == 0x81 || op == 0x83 }

  predicate GroupUnary(op: byte) { op == 0xFF || op == 0x8F || op == 0xF6 || op == 0xF7 }

  /** The size at which a group opcode reads its operand. */
  predicate GroupSize(c: Cursor, op: byte, size: RegSize) {
    size == if op == 0xC0 || op == 0x80 || op == 0xF6 then R8 else c.Size()
  }

  /** Opcodes selected by the register field, with an immediate. */
  method PrintGroupImm(c: Cursor, op: byte, size: RegSize, text: string, length: nat) returns (r: Option<Shown>)
    requires c.Valid() && GroupImm(op) && GroupSize(c, op, size) && Formatted(c, size, text, length)
    ensures r == Show(DecodeModRmOpcode(c, op))
  {
    hide DecodeRm, RenderInst, RenderOperand, DecodeRmReg, DecodeRmOnly, DecodeRmImm, SelectReg, Group1Name;
    var ext, wide := c.Ext(), if c.opSize then 2 else 4;
    if op == 0xC0 || op == 0xC1 {
      var shift := Group2Name(ext);
      if shift.None? {
        r := PrintDb(c);
      } else {
        r := JoinImm(c, Shift(shift.value), size, 1, false, text, length);
      }
    } else if op == 0xC7 {
      if ext != 0 {
        r := PrintDb(c);
      } else {
        r := JoinImm(c, Mov, size, wide, false, text, length);
      }
    } else if op == 0x80 {
      r := JoinImm(c, Alu(Group1Name(ext)), size, 1, false, text, length);
    } else if op == 0x81 {
      r := JoinImm(c, Alu(Group1Name(ext)), size, wide, false, text, length);
    } else {
      r := JoinImm(c, Alu(Group1Name(ext)), size, 1, true, text, length);
    }
  }

  /** Opcodes selected by the register field, with the operand alone or, for test, an immediate. */
  method PrintGroupUnary(c: Cursor, op: byte, size: RegSize, text: string, length: nat) returns (r: Option<Shown>)
    requires c.Valid() && GroupUnary(op) && GroupSize(c, op, size) && Formatted(c, size, text, length)
    ensures r == Show(DecodeModRmOpcode(c, op))
  {
    hide DecodeRm, RenderInst, RenderOperand, DecodeRmReg, DecodeRmOnly, DecodeRmImm, SelectReg;
    var ext := c.Ext();
    if op == 0xFF && ext == 0 {
      r := JoinNothing(c, Unary(Inc), size, text, length);
    } else if op == 0xFF && ext == 1 {
      r := JoinNothing(c, Unary(Dec), size, text, length);
    } else if op == 0xFF && ext == 2 {
      r := JoinNothing(c, Call, size, text, length);
    } else if op == 0xFF && ext == 4 {
      r := JoinNothing(c, Jmp, size, text, length);
    } else if op == 0xFF && ext == 6 {
      r := JoinNothing(c, Push, size, text, length);
    } else if op == 0x8F && ext == 0 {
      r := JoinNothing(c, Pop, size, text, length);
    } else if op == 0xF6 && ext == 0 {
      r := JoinImm(c, Test, size, 1, false, text, length);
    } else if op == 0xF7 && ext == 0 {
      r := JoinImm(c, Test, size, if !RexW(c.rex) && c.opSize then 2 else 4, false, text, length);
    } else if (op == 0xF6 || op == 0xF7) && ext == 2 {
      r := JoinNothing(c, Unary(Not), size, text, length);
    } else if (op == 0xF6 || op == 0xF7) && ext == 3 {
      r := JoinNothing(c, Unary(Neg), size, text, length);
    } else {
      r := PrintDb(c);
    }
  }

  /** A register named by the opcode itself, with an immediate behind it for mov. */
  method PrintMovImm(c: Cursor, op: byte) returns (r: Option<Shown>)
    requires c.Valid() && 0xB8 <= op <= 0xBF
    ensures r == Show(DecodeOpcode(c, op))
  {
    hide OpText, RenderImm, RegName, RenderInst, Signed, Unsigned, SelectReg;
    var n := if RexW(c.rex) then 8 else if c.opSize then 2 else 4;
    var reg := SelectReg(op - 0xB8 + RexB(c.rex), c.Size(), c.rex != 0);
    forall v: int {
      RenderParts(Mov, reg, Imm(v));
    }
    r := PrintImm(c, c.p, n, false, OpText(Mov) + " " + RenderOperand(reg) + ", ");
  }

  method PrintPushImm(c: Cursor, op: byte) returns (r: Option<Shown>)
    requires c.Valid() && (op == 0x6A || op == 0x68)
    ensures r == Show(DecodeOpcode(c, op))
  {
    hide OpText, RenderImm, RenderInst, Signed, Unsigned;
    forall v: int {
      RenderParts(Push, Imm(v), Imm(v));
    }
    if op == 0x6A {
      r := PrintImm(c, c.p, 1, true, OpText(Push) + " ");
    } else {
      r := PrintImm(c, c.p, 4, false, OpText(Push) + " ");
    }
  }

  method PrintGpr(c: Cursor, op: Op, reg: Reg) returns (r: Option<Shown>)
    requires c.Valid() && op != Db
    ensures r == Show(c.Done(c.p, op, [Gpr(reg)]))
  {
    hide OpText, RegName;
    RenderParts(op, Gpr(reg), Imm(0));
    return Some(Shown(c.p - c.start, OpText(op) + " " + RegName(reg, R64)));
  }

  /** The switch over the opcode byte, which the cursor has passed. */
  method PrintOpcode(c: Cursor, op: byte) returns (r: Option<Shown>)
    requires c.Valid()
    ensures r == Show(DecodeOpcode(c, op))
  {
    hide RenderInst, DecodeRel, DecodeEscape, DecodeModRmOpcode, CondName, Signed, Unsigned, SelectReg;
    if 0x50 <= op <= 0x57 {
      r := PrintGpr(c, Push, op - 0x50 + RexB(c.rex));
    } else if 0x58 <= op <= 0x5F {
      r := PrintGpr(c, Pop, op - 0x58 + RexB(c.rex));
    } else if op == 0x6A || op == 0x68 {
      r := PrintPushImm(c, op);
    } else if 0x70 <= op <= 0x7F {
      r := PrintRel(c, Jcc(CondName(op - 0x70)), 1);
    } else if op == 0xEB {
      r := PrintRel(c, Jmp, 1);
    } else if op == 0x90 {
      r := PrintBare(c, Nop);
    } else if op == 0xC9 {
      r := PrintBare(c, Leave);
    } else if op == 0x0F {
      if c.p >= |c.code| {
        return None;
      }
      r := PrintEscape(c.(p := c.p + 1), c.code[c.p]);
    } else if 0xB8 <= op <= 0xBF {
      r := PrintMovImm(c, op);
    } else if op == 0xE8 || op == 0xE9 {
      r := PrintRel(c, if op == 0xE8 then Call else Jmp, 4);
    } else if op == 0xC3 {
      r := PrintBare(c, Ret);
    } else if HasModRm(op) {
      r := PrintModRmOpcode(c, op);
    } else {
      r := PrintDb(c);
    }
  }

  // ---- disassemble_code_buffer ----

  /** The bytes of a line in hexadecimal, one space apart. */
  function Dump(bytes: seq<byte>): string {
    if bytes == [] then ""
    else if |bytes| == 1 then HexByte(bytes[0])
    else Dump(bytes[..|bytes| - 1]) + " " + HexByte(bytes[|bytes| - 1])
  }

  function Fill(c: char, n: int): (s: string)
    ensures |s| == if n < 0 then 0 else n
  {
    if n <= 0 then "" else Fill(c, n - 1) + [c]
  }

  /** %016llx: %-43s %s */
  function LineText(address: int, bytes: seq<byte>, text: string): string {
    var at := Hex(address % TWO64);
    Fill('0', 16 - |at|) + at + ": " + Dump(bytes) + Fill(' ', 43 - |Dump(bytes)|) + " " + text + "\n"
  }

  function LineOf(code: seq<byte>, base: int, e: Entry): string
    requires e.offset + e.length <= |code|
  {
    LineText(base + e.offset, code[e.offset..e.offset + e.length], RenderInst(e.inst))
  }

  /** The column of bytes read back, two digits and a space at a time. */
  function ReadDump(s: string): Option<seq<byte>> {
    if s == "" then Some([])
    else if |s| < 2 || !IsHexDigit(s[0]) || !IsHexDigit(s[1]) then None
    else
      var b := 16 * DigitValue(s[0]) + DigitValue(s[1]);
      var rest :- if |s| == 2 then Some([]) else if s[2] == ' ' then ReadDump(s[3..]) else None;
      Some([b] + rest)
  }

  /** The dump column gives the bytes back. */
  lemma {:induction false} DumpReadBack(bytes: seq<byte>)
    ensures ReadDump(Dump(bytes)) == Some(bytes)
  {
    hide Digit, DigitValue, IsHexDigit, HexByte, Dump;
    if bytes == [] {
      DumpEmpty();
    } else {
      var b := bytes[0];
      HexDigits(b);
      DigitText(b / 16);
      DigitText(b % 16);
      DumpFirst(bytes);
      if |bytes| == 1 {
        assert bytes == [b] == [b] + [];
      } else {
        var s := Dump(bytes);
        assert s[3..] == Dump(bytes[1..]);
        DumpReadBack(bytes[1..]);
        assert [b] + bytes[1..] == bytes;
      }
    }
  }

  lemma DumpEmpty()
    ensures Dump([]) == "" && ReadDump("") == Some([])
  {
  }

  lemma {:induction false} DumpFirst(bytes: seq<byte>)
    requires bytes != []
    ensures Dump(bytes) == if |bytes| == 1 then HexByte(bytes[0]) else HexByte(bytes[0]) + " " + Dump(bytes[1..])
  {
    hide HexByte;
    if |bytes| == 2 {
      assert bytes[..1] == [bytes[0]] && bytes[1..] == [bytes[1]];
    } else if |bytes| > 2 {
      var init := bytes[..|bytes| - 1];
      DumpFirst(init);
      assert init[1..] == bytes[1..][..|bytes| - 2];
      var last := bytes[|bytes| - 1];
      assert HexByte(bytes[0]) + " " + Dump(init[1..]) + " " + HexByte(last)
          == HexByte(bytes[0]) + " " + (Dump(init[1..]) + " " + HexByte(last));
    }
  }

  ghost predicate Within(code: seq<byte>, es: seq<Entry>) {
    forall e <- es :: e.offset + e.length <= |code|
  }

  function LinesOf(code: seq<byte>, base: int, es: seq<Entry>): (r: seq<string>)
    requires Within(code, es)
    ensures |r| == |es|
  {
    if es == [] then [] else [LineOf(code, base, es[0])] + LinesOf(code, base, es[1..])
  }

  lemma DisassembleNext(code: seq<byte>, base: int, start: nat)
    requires start < |code|
    ensures var e := Step(code, base, start);
      && e.offset == start && 0 < e.length && start + e.length <= |code|
      && Disassemble(code, base, start) == [e] + Disassemble(code, base, start + e.length)
  {
    hide DecodeOne;
    DecodeLength(code, base, start);
  }

  lemma LinesNext(code: seq<byte>, base: int, e: Entry, es: seq<Entry>)
    requires Within(code, [e] + es)
    ensures Within(code, es) && e.offset + e.length <= |code|
    ensures LinesOf(code, base, [e] + es) == [LineOf(code, base, e)] + LinesOf(code, base, es)
  {
    hide LineOf;
    assert ([e] + es)[0] == e && ([e] + es)[1..] == es;
    assert forall x <- es :: x in [e] + es;
  }

  lemma StepInside(code: seq<byte>, base: int, start: nat)
    requires start < |code|
    ensures var e := Step(code, base, start); e.offset == start && e.length > 0 && start + e.length <= |code|
  {
    hide DecodeOne;
    DecodeLength(code, base, start);
  }

  lemma {:induction false} DisassembleInside(code: seq<byte>, base: int, start: nat)
    requires start <= |code|
    ensures Within(code, Disassemble(code, base, start))
    decreases |code| - start
  {
    hide Step;
    if start < |code| {
      StepInside(code, base, start);
      DisassembleInside(code, base, start + Step(code, base, start).length);
    }
  }

  /** Every line begins where the one before it ended, from position start to the end of the code. */
  ghost predicate Consecutive(es: seq<Entry>, start: nat, end: nat) {
    if es == [] then start == end
    else es[0].offset == start && es[0].length > 0 && Consecutive(es[1..], start + es[0].length, end)
  }

  /** The listing partitions the code: its chunks are non-empty, follow each other, and concatenate to the input. */
  lemma {:induction false} Partition(code: seq<byte>, base: int, start: nat)
    requires start <= |code|
    ensures Within(code, Disassemble(code, base, start))
    ensures Consecutive(Disassemble(code, base, start), start, |code|)
    ensures Covered(code, Disassemble(code, base, start)) == code[start..]
    decreases |code| - start
  {
    hide Step;
    DisassembleInside(code, base, start);
    if start < |code| {
      StepInside(code, base, start);
      var n := Step(code, base, start).length;
      Partition(code, base, start + n);
      assert Disassemble(code, base, start)[1..] == Disassemble(code, base, start + n);
      assert code[start..start + n] + code[start + n..] == code[start..];
    }
  }

  /** The room for the dump of one line: two digits and a space a byte, and the terminator. */
  const DUMP_SIZE: nat := 3 * MAX_INST_BYTES + 1

  lemma {:induction false} DumpLength(bytes: seq<byte>)
    ensures |Dump(bytes)| == if bytes == [] then 0 else 3 * |bytes| - 1
  {
    hide Digit;
    if bytes != [] {
      HexDigits(bytes[|bytes| - 1]);
      DumpLength(bytes[..|bytes| - 1]);
    }
  }

  /** The inner loop over the bytes of a line, each appended if it fits with its terminator, then the line around it. */
  method FormatLine(address: int, bytes: seq<byte>, text: string) returns (ok: bool, line: string)
    ensures ok <==> |bytes| <= MAX_INST_BYTES
    ensures ok ==> line == LineText(address, bytes, text)
  {
    hide Hex, HexByte, Fill, LineText, Dump;
    var dump := "";
    assert bytes[..0] == [];
    DumpEmpty();
    for i := 0 to |bytes|
      invariant dump == Dump(bytes[..i]) && i <= MAX_INST_BYTES
    {
      DumpNext(bytes, i);
      var piece := if i == 0 then HexByte(bytes[i]) else " " + HexByte(bytes[i]);
      if |piece| >= DUMP_SIZE - |dump| {
        return false, "";
      }
      dump := dump + piece;
    }
    assert bytes[..|bytes|] == bytes;
    line := LineAround(address, bytes, dump, text);
    return true, line;
  }

  lemma DumpNext(bytes: seq<byte>, i: nat)
    requires i < |bytes|
    ensures var piece := if i == 0 then HexByte(bytes[i]) else " " + HexByte(bytes[i]);
      && Dump(bytes[..i + 1]) == Dump(bytes[..i]) + piece
      && (i <= MAX_INST_BYTES ==> (|piece| < DUMP_SIZE - |Dump(bytes[..i])| <==> i < MAX_INST_BYTES))
  {
    assert bytes[..i + 1][..i] == bytes[..i];
    DumpLength(bytes[..i]);
    HexDigits(bytes[i]);
    hide HexByte;
  }

  method LineAround(address: int, bytes: seq<byte>, dump: string, text: string) returns (line: string)
    requires dump == Dump(bytes)
    ensures line == LineText(address, bytes, text)
  {
    hide Hex, Fill;
    var at := Hex(address % TWO64);
    return Fill('0', 16 - |at|) + at + ": " + dump + Fill(' ', 43 - |dump|) + " " + text + "\n";
  }

  /** The lines of the part of the listing from start on that is printed. */
  function Output(code: seq<byte>, base: int, start: nat): seq<string>
    requires start <= |code| && Within(code, Reached(Disassemble(code, base, start)))
  {
    LinesOf(code, base, Reached(Disassemble(code, base, start)))
  }

  /** Every entry of the listing has a line with room for its bytes. */
  ghost predicate LinesFit(code: seq<byte>, base: int, start: nat)
    requires start <= |code|
  {
    forall e <- Disassemble(code, base, start) :: e.length <= MAX_INST_BYTES
  }

  lemma OutputInside(code: seq<byte>, base: int, start: nat)
    requires start <= |code|
    ensures Within(code, Reached(Disassemble(code, base, start)))
    ensures LinesFit(code, base, start) ==> Reached(Disassemble(code, base, start)) == Disassemble(code, base, start)
  {
    hide Disassemble, Reached;
    DisassembleInside(code, base, start);
    ReachedExactly(Disassemble(code, base, start));
  }

  /** One round: the entry at start is printed and the rest follows, or it is too long and nothing more comes. */
  lemma OutputNext(code: seq<byte>, base: int, start: nat)
    requires start < |code|
    ensures var e := Step(code, base, start);
      && e.offset == start && 0 < e.length && start + e.length <= |code|
      && Within(code, Reached(Disassemble(code, base, start)))
      && Within(code, Reached(Disassemble(code, base, start + e.length)))
      && (if e.length <= MAX_INST_BYTES then
            && Output(code, base, start) == [LineOf(code, base, e)] + Output(code, base, start + e.length)
            && (LinesFit(code, base, start) <==> LinesFit(code, base, start + e.length))
          else Output(code, base, start) == [] && !LinesFit(code, base, start))
  {
    hide Disassemble, Step, LineOf;
    DisassembleNext(code, base, start);
    var e := Step(code, base, start);
    OutputInside(code, base, start);
    OutputInside(code, base, start + e.length);
    var rest := Disassemble(code, base, start + e.length);
    assert ([e] + rest)[0] == e && ([e] + rest)[1..] == rest;
    assert e in [e] + rest && forall x <- rest :: x in [e] + rest;
    if e.length <= MAX_INST_BYTES {
      LinesNext(code, base, e, Reached(rest));
    }
  }

  /**
   * disassemble_code_buffer: the loop prints the lines of the listing up to the first entry of more than
   * MAX_INST_BYTES bytes, where it gives up; it succeeds exactly when there is none.
   */
  method DisassembleCodeBuffer(code: seq<byte>, base: int) returns (ok: bool, lines: seq<string>)
    ensures Within(code, Reached(Disassemble(code, base, 0)))
    ensures ok <==> forall e <- Disassemble(code, base, 0) :: e.length <= MAX_INST_BYTES
    ensures lines == LinesOf(code, base, Reached(Disassemble(code, base, 0)))
  {
    hide DecodeOne, RenderInst, Output, LineText, HexByte, LinesFit, Within, Reached, LinesOf, Disassemble;
    OutputInside(code, base, 0);
    var offset := 0;
    lines := [];
    assert lines + Output(code, base, 0) == Output(code, base, 0);
    while offset < |code|
      invariant 0 <= offset <= |code|
      invariant Within(code, Reached(Disassemble(code, base, offset)))
      invariant Output(code, base, 0) == lines + Output(code, base, offset)
      invariant LinesFit(code, base, 0) <==> LinesFit(code, base, offset)
      decreases |code| - offset
    {
      OutputNext(code, base, offset);
      ghost var e := Step(code, base, offset);
      var inst := DecodeNext(code, base, offset);
      var n: nat, fits: bool, line: string;
      if inst.None? || inst.value.consumed == 0 {
        RenderDb(code[offset]);
        n := 1;
        fits, line := FormatLine(base + offset, [code[offset]], "db 0x" + HexByte(code[offset]));
        assert code[offset..offset + 1] == [code[offset]];
      } else {
        n := inst.value.consumed;
        fits, line := FormatLine(base + offset, code[offset..offset + n], inst.value.text);
      }
      if !fits {
        OutputMeaning(code, base);
        assert lines + [] == lines;
        return false, lines;
      }
      ghost var done := lines;
      lines := lines + [line];
      assert done + ([LineOf(code, base, e)] + Output(code, base, offset + n))
          == lines + Output(code, base, offset + n);
      offset := offset + n;
    }
    OutputEnd(code, base);
    OutputMeaning(code, base);
    assert lines + [] == lines;
    ok := true;
  }

  lemma OutputMeaning(code: seq<byte>, base: int)
    ensures Within(code, Reached(Disassemble(code, base, 0)))
    ensures Output(code, base, 0) == LinesOf(code, base, Reached(Disassemble(code, base, 0)))
    ensures LinesFit(code, base, 0) <==> forall e <- Disassemble(code, base, 0) :: e.length <= MAX_INST_BYTES
  {
    hide Disassemble, Reached, LinesOf, Within;
    OutputInside(code, base, 0);
  }

  lemma OutputEnd(code: seq<byte>, base: int)
    ensures Disassemble(code, base, |code|) == [] && Within(code, Reached([])) && Output(code, base, |code|) == []
    ensures LinesFit(code, base, |code|)
  {
  }

  // ---- bytes, text, operand, bytes ----

  /** Every memory operand the decoder produces is one that can be printed, and never has rsp or r12 as index. */
  lemma DecodedPrinted(code: seq<byte>, p: nat, rex: byte, size: RegSize)
    requires DecodeRm(code, p, rex, size).Some? && DecodeRm(code, p, rex, size).value.operand.Memory?
    ensures var m := DecodeRm(code, p, rex, size).value.operand.mem;
      Printed(m) && m.lbl == "" && (m.index.Some? ==> m.index.value % 8 != 4) && WellFormed(m) && RmAccepted(Memory(m))
  {
    hide Signed, Unsigned;
    SignedEmpty();
    assert p + 1 <= |code| && code[p + 1..p + 1] == [];
    if p + 2 <= |code| {
      assert code[p + 2..p + 2] == [];
    }
    if p + 6 <= |code| {
      SignedFits(code[p + 2..p + 6]);
    }
    if p + 5 <= |code| {
      SignedFits(code[p + 1..p + 5]);
    }
    if p + 3 <= |code| {
      SignedFits(code[p + 2..p + 3]);
    }
    if p + 2 <= |code| {
      SignedFits(code[p + 1..p + 2]);
    }
  }

  /**
   * From bytes to text, to an operand, to bytes and back: whatever memory operand is decoded, its printed text
   * parses to the operand (unless the displacement is the printed minimum), and encoding that operand
   * again yields bytes that decode to it, exactly when it has a base under its index.
   */
  lemma TextCycle(code: seq<byte>, p: nat, rex: byte, size: RegSize, rest: string,
                  reg: int, code': seq<byte>, p': nat, rex': byte)
    requires DecodeRm(code, p, rex, size).Some? && DecodeRm(code, p, rex, size).value.operand.Memory?
    requires var m := DecodeRm(code, p, rex, size).value.operand.mem;
      !SignedMinimum(m) && RexCovers(rex', Memory(m)) && At(code', p', ModRmMem(reg, m).bytes)
    ensures var m := DecodeRm(code, p, rex, size).value.operand.mem; var r := DecodeRm(code', p', rex', size);
      && ParseMem(Lexing.Tokens(RenderMem(m) + rest)) == Parsed(m, Lexing.Tokens(rest))
      && ((r.Some? && View(r.value.operand) == View(Memory(m)))
         <==> (m.index.Some? ==> m.base.Some? && (m.base.value % 8 == 5 ==> m.hasDisp)))
  {
    hide DecodeRm, RenderMem, ParseMem, Lexing.Tokens, ModRmMem;
    DecodedPrinted(code, p, rex, size);
    var m := DecodeRm(code, p, rex, size).value.operand.mem;
    PrintThenParse(m, rest);
    LabelRoundTrip(reg, m);
    MemRoundTrip(reg, m, code', p', rex', size);
  }
}
