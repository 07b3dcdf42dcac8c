// What the listing calls an instruction: for every byte string the printed line is the row of the opcode map,
// word and operands, or one db byte.

module Mnemonics {
  import opened Bytes
  import opened Operands
  import opened Decoding
  import opened Text
  import opened Manual
  import Disassembler
  import Buffers

  // ---- prefixes ----

  /** The prefix bytes of 64-bit mode that the disassembler passes over. */
  const PREFIXES: set<int> := {0x26, 0x2E, 0x36, 0x3E, 0x64, 0x65, 0x66, 0x67, 0xF0, 0xF2, 0xF3}

  predicate IsRex(b: byte) { 0x40 <= b <= 0x4F }

  lemma PrefixBytes(b: byte)
    ensures IsPrefix(b) <==> b in PREFIXES || IsRex(b)
  {
  }

  /** The last REX byte of s, 0 if there is none. */
  function LastRex(s: seq<byte>): byte {
    if s == [] then 0 else if IsRex(s[|s| - 1]) then s[|s| - 1] else LastRex(s[..|s| - 1])
  }

  /** The prefix loop passes the longest run of prefixes and keeps whether 0x66 was among them, and the last REX. */
  lemma {:induction false} PrefixesRead(code: seq<byte>, start: nat)
    requires start <= |code|
    ensures var r := ScanPrefixes(code, start, false, 0);
      && r.opSize == (0x66 in code[start..r.cursor]) && r.rex == LastRex(code[start..r.cursor])
  {
    ScanRead(code, start, start, false, 0);
  }

  lemma {:induction false} ScanRead(code: seq<byte>, start: nat, p: nat, opSize: bool, rex: byte)
    requires start <= p <= |code|
    requires opSize == (0x66 in code[start..p]) && rex == LastRex(code[start..p])
    ensures var r := ScanPrefixes(code, p, opSize, rex);
      && r.opSize == (0x66 in code[start..r.cursor]) && r.rex == LastRex(code[start..r.cursor])
    decreases |code| - p
  {
    if p < |code| && IsPrefix(code[p]) {
      assert code[start..p + 1] == code[start..p] + [code[p]];
      assert code[start..p + 1][..p - start] == code[start..p];
      ScanRead(code, start, p + 1, opSize || code[p] == 0x66, if IsRex(code[p]) then code[p] else rex);
    }
  }

  // ---- where the listing leaves the opcode map ----

  /** One-byte opcodes of the map that the disassembler does not know, though the assembler emits them. */
  predicate Unlisted(op: byte, ext: nat) {
    || op == 0x11 || op == 0x13 || op == 0x19 || op == 0x1B
    || op == 0x05 || op == 0x0D || op == 0x15 || op == 0x1D || op == 0x25 || op == 0x2D || op == 0x35 || op == 0x3D
    || op == 0x69 || op == 0x6B || op == 0xA9 || 0xB0 <= op < 0xB8 || op == 0xC2
    || ((op == 0xF6 || op == 0xF7) && ext == 5)
  }

  /**
   * The slots as the disassembler reads them: the operand of push, pop, call and jmp at the operand size, 0x66 in
   * force in front of REX.W for the immediates of 81 and C7, and out of force for that of push.
   */
  function ListedSlots(op: byte, slots: seq<Slot>, narrow: bool): seq<Slot> {
    if op == 0xFF || op == 0x8F then [OfRm(Sized)]
    else if (op == 0x81 || op == 0xC7) && narrow then [OfRm(Sized), OfImm(Two)]
    else if op == 0x68 then [OfImm(Near)]
    else slots
  }

  function ListedOne(op: byte, ext: nat, narrow: bool): Option<Row>
    requires ext < 8
  {
    var row :- OneByte(op, ext);
    if Unlisted(op, ext) then None else Some(Row(row.word, ListedSlots(op, row.slots, narrow)))
  }

  // ---- one row ----

  function PlaceOf(c: Cursor, op: byte): Place { Place(c.code, c.p, op, c.rex, c.opSize) }

  /** The register field of the byte at the cursor, where there is one. */
  function ExtOf(c: Cursor): (ext: nat)
    ensures ext < 8
  {
    if c.p < |c.code| then c.Ext() else 0
  }

  /** A long nop of a register is shown without it. */
  function Dropped(word: string, os: seq<Operand>): seq<Operand> {
    if word == "nop" && |os| == 1 && os[0].Reg? then [] else os
  }

  /** The decoder's answer is that of the row: its word, its operands, their length; or none where the bytes run out. */
  ghost predicate Agrees(r: Option<Decoded>, row: Row, c: Cursor, op: byte)
    requires c.Valid()
  {
    match Read(row.slots, PlaceOf(c, op), c.base)
    case None => r == None
    case Some(o) =>
      && r.Some? && c.start <= o.end && r.value.length == o.end - c.start
      && r.value.inst.op != Db && OpText(r.value.inst.op) == row.word
      && r.value.inst.operands == Dropped(row.word, o.operands)
  }

  ghost predicate Matches(r: Option<Decoded>, row: Option<Row>, c: Cursor, op: byte)
    requires c.Valid()
  {
    if row.None? then r == None || r == c.Fallback() else Agrees(r, row.value, c, op)
  }

  lemma OneSlot(slot: Slot, at: Place, base: int)
    ensures RmLength([slot], at)
         == if slot.OfRm? then
              var r := DecodeRm(at.code, at.p, at.rex, SizeOf(slot.w, at));
              if r.None? then None else Some(r.value.length)
            else Some(0)
    ensures FieldLength([slot], at) == if slot.OfImm? || slot.OfRel? then CountOf(slot.n, at) else 0
    ensures forall field, next :: OperandsOf([slot], at, field, next) == [OperandOf(slot, at, field, next)]
  {
    hide DecodeRm, CountOf, OperandOf, SizeOf;
    assert [slot][1..] == [];
  }

  lemma TwoSlots(a: Slot, b: Slot, at: Place, base: int)
    requires !(a.OfRm? && b.OfRm?)
    ensures RmLength([a, b], at)
         == if a.OfRm? then RmLength([a], at) else RmLength([b], at)
    ensures FieldLength([a, b], at)
         == if a.OfImm? || a.OfRel? then FieldLength([a], at) else FieldLength([b], at)
    ensures forall field, next ::
      OperandsOf([a, b], at, field, next) == [OperandOf(a, at, field, next), OperandOf(b, at, field, next)]
  {
    hide DecodeRm, CountOf, OperandOf, SizeOf;
    assert [a, b][1..] == [b] && [b][1..] == [] && [a][1..] == [];
  }

  lemma EmptyField(code: seq<byte>, p: nat)
    ensures ReadField(code, p, 0) == if p <= |code| then Some([]) else None
  {
    if p <= |code| {
      assert code[p..p] == [];
    }
  }

  lemma RowBare(r: Option<Decoded>, word: string, mn: Op, c: Cursor, op: byte)
    requires c.Valid() && r == c.Done(c.p, mn, []) && mn != Db && OpText(mn) == word
    ensures Agrees(r, Row(word, []), c, op)
  {
    hide OpText;
  }

  lemma RowRmReg(word: string, mn: Op, w: Width, v: Width, regFirst: bool, c: Cursor, op: byte)
    requires c.Valid() && mn != Db && OpText(mn) == word
    ensures var at := PlaceOf(c, op);
      Agrees(DecodeRmReg(c, mn, SizeOf(w, at), SizeOf(v, at), regFirst),
             Row(word, if regFirst then [OfReg(v), OfRm(w)] else [OfRm(w), OfReg(v)]), c, op)
  {
    hide OpText, DecodeRm, RegOf, RexR, SelectReg;
    var at := PlaceOf(c, op);
    if regFirst {
      TwoSlots(OfReg(v), OfRm(w), at, c.base);
    } else {
      TwoSlots(OfRm(w), OfReg(v), at, c.base);
    }
    OneSlot(OfRm(w), at, c.base);
    OneSlot(OfReg(v), at, c.base);
    hide RmLength, FieldLength, OperandsOf;
    var rm := DecodeRm(c.code, c.p, c.rex, SizeOf(w, at));
    if rm.Some? {
      EmptyField(c.code, c.p + rm.value.length);
    }
  }

  lemma RowRm(word: string, mn: Op, w: Width, c: Cursor, op: byte)
    requires c.Valid() && mn != Db && OpText(mn) == word && word != "nop"
    ensures Agrees(DecodeRmOnly(c, mn, SizeOf(w, PlaceOf(c, op))), Row(word, [OfRm(w)]), c, op)
  {
    hide OpText, DecodeRm;
    var at := PlaceOf(c, op);
    OneSlot(OfRm(w), at, c.base);
    var rm := DecodeRm(c.code, c.p, c.rex, SizeOf(w, at));
    if rm.Some? {
      EmptyField(c.code, c.p + rm.value.length);
    }
  }

  lemma RowRmImm(word: string, mn: Op, w: Width, n: Count, c: Cursor, op: byte)
    requires c.Valid() && mn != Db && OpText(mn) == word
    ensures var at := PlaceOf(c, op);
      Agrees(DecodeRmImm(c, mn, SizeOf(w, at), CountOf(n, at), n == Signed8), Row(word, [OfRm(w), OfImm(n)]), c, op)
  {
    hide OpText, DecodeRm, CountOf, Signed, Unsigned;
    var at := PlaceOf(c, op);
    TwoSlots(OfRm(w), OfImm(n), at, c.base);
    OneSlot(OfRm(w), at, c.base);
    OneSlot(OfImm(n), at, c.base);
  }

  lemma RowRel(word: string, mn: Op, n: Count, c: Cursor, op: byte)
    requires c.Valid() && mn != Db && OpText(mn) == word
    ensures Agrees(DecodeRel(c, mn, CountOf(n, PlaceOf(c, op))), Row(word, [OfRel(n)]), c, op)
  {
    hide OpText, CountOf, Signed;
    OneSlot(OfRel(n), PlaceOf(c, op), c.base);
  }

  // ---- the words ----

  lemma ConditionWord(k: nat)
    requires k < 16
    ensures CondText(CondName(k)) == CONDITION[k]
  {
  }

  lemma ArithmeticWord(k: nat)
    requires k < 8
    ensures OpText(Alu(Group1Name(k))) == ARITHMETIC[k]
  {
  }

  lemma ConditionOps(k: nat)
    requires k < 16
    ensures OpText(Jcc(CondName(k))) == "j" + CONDITION[k]
    ensures OpText(Cmov(CondName(k))) == "cmov" + CONDITION[k]
    ensures OpText(SetCc(CondName(k))) == "set" + CONDITION[k]
  {
    hide CondText;
    ConditionWord(k);
  }

  lemma Sizes(c: Cursor, op: byte)
    ensures var at := PlaceOf(c, op);
      && SizeOf(Sized, at) == c.Size() && SizeOf(Byte, at) == R8 && SizeOf(Word, at) == R16
      && SizeOf(Dword, at) == R32 && SizeOf(Qword, at) == R64
      && CountOf(Signed8, at) == 1 && CountOf(Unsigned8, at) == 1 && CountOf(Count.Two, at) == 2
          && CountOf(Near, at) == 4
      && CountOf(Four, at) == (if c.opSize && !RexW(c.rex) then 2 else 4)
      && CountOf(Full, at) == (if RexW(c.rex) then 8 else if c.opSize then 2 else 4)
  {
  }

  // ---- the opcodes behind 0f ----

  lemma RowLongNop(c: Cursor)
    requires c.Valid()
    ensures Matches(DecodeEscape(c, 0x1F), TwoByte(0x1F, ExtOf(c)), c, 0x1F)
  {
    hide DecodeRm, DecodeRmReg, DecodeRmOnly, DecodeRmImm, DecodeRel, RegOf, SelectReg;
    var at := PlaceOf(c, 0x1F);
    OneSlot(OfRm(Dword), at, c.base);
    var rm := DecodeRm(c.code, c.p, c.rex, R32);
    if rm.Some? {
      EmptyField(c.code, c.p + rm.value.length);
      RmKind(c.code, c.p, c.rex, R32);
    }
  }

  lemma RmKind(code: seq<byte>, p: nat, rex: byte, size: RegSize)
    requires DecodeRm(code, p, rex, size).Some?
    ensures p < |code|
    ensures DecodeRm(code, p, rex, size).value.operand.Reg? <==> ModOf(code[p]) == 3
    ensures DecodeRm(code, p, rex, size).value.operand.Reg? || DecodeRm(code, p, rex, size).value.operand.Memory?
  {
    hide Signed;
  }

  /** The rows with a register operand beside the ModRM operand, the register second. */
  lemma EscapeSecond(c: Cursor, op2: byte)
    requires c.Valid() && op2 in {0xB0, 0xB1, 0xC0, 0xC1}
    ensures Matches(DecodeEscape(c, op2), TwoByte(op2, ExtOf(c)), c, op2)
  {
    hide DecodeRm, DecodeRmReg, DecodeRmOnly, DecodeRmImm, DecodeRel, RegOf, SelectReg, Agrees, SizeOf, CondName,
         CondText;
    Sizes(c, op2);
    if op2 == 0xB0 || op2 == 0xB1 {
      var w := if op2 == 0xB0 then Byte else Sized;
      RowRmReg("cmpxchg", Cmpxchg, w, w, false, c, op2);
    } else {
      var w := if op2 == 0xC0 then Byte else Sized;
      RowRmReg("xadd", Xadd, w, w, false, c, op2);
    }
  }

  lemma EscapeBitRegs(c: Cursor, op2: byte)
    requires c.Valid() && op2 in {0xA3, 0xAB, 0xB3, 0xBB}
    ensures Matches(DecodeEscape(c, op2), TwoByte(op2, ExtOf(c)), c, op2)
  {
    hide DecodeRm, DecodeRmReg, DecodeRmOnly, DecodeRmImm, DecodeRel, RegOf, SelectReg, Agrees, SizeOf;
    hide CondName, CondText;
    Sizes(c, op2);
    var b := if op2 == 0xA3 then Bt else if op2 == 0xAB then Bts else if op2 == 0xB3 then Btr else Btc;
    RowRmReg(OpText(Bits(b)), Bits(b), Sized, Sized, false, c, op2);
  }

  /** The register first. */
  lemma EscapeFirst(c: Cursor, op2: byte)
    requires c.Valid() && op2 in {0xAF, 0xB6, 0xB7, 0xBC, 0xBD, 0xBE, 0xBF}
    ensures Matches(DecodeEscape(c, op2), TwoByte(op2, ExtOf(c)), c, op2)
  {
    hide DecodeRm, DecodeRmReg, DecodeRmOnly, DecodeRmImm, DecodeRel, RegOf, SelectReg, Agrees, SizeOf, CondName,
         CondText;
    Sizes(c, op2);
    if op2 == 0xB6 || op2 == 0xB7 {
      RowRmReg("movzx", Movzx, if op2 == 0xB6 then Byte else Word, Sized, true, c, op2);
    } else if op2 == 0xBE || op2 == 0xBF {
      RowRmReg("movsx", Movsx, if op2 == 0xBE then Byte else Word, Sized, true, c, op2);
    } else if op2 == 0xAF {
      RowRmReg("imul", Imul, Sized, Sized, true, c, op2);
    } else {
      RowRmReg(if op2 == 0xBC then "bsf" else "bsr", if op2 == 0xBC then Bsf else Bsr, Sized, Sized, true, c, op2);
    }
  }

  lemma EscapeConditional(c: Cursor, op2: byte)
    requires c.Valid() && (0x40 <= op2 < 0x50 || 0x80 <= op2 < 0xA0)
    ensures Matches(DecodeEscape(c, op2), TwoByte(op2, ExtOf(c)), c, op2)
  {
    hide DecodeRm, DecodeRmReg, DecodeRmOnly, DecodeRmImm, DecodeRel, RegOf, SelectReg, Agrees, SizeOf, CondName,
         CondText;
    Sizes(c, op2);
    if op2 < 0x50 {
      EscapeCmov(c, op2 - 0x40);
    } else if op2 < 0x90 {
      ConditionOps(op2 - 0x80);
      RowRel("j" + CONDITION[op2 - 0x80], Jcc(CondName(op2 - 0x80)), Near, c, op2);
    } else {
      ConditionOps(op2 - 0x90);
      RowRm("set" + CONDITION[op2 - 0x90], SetCc(CondName(op2 - 0x90)), Byte, c, op2);
    }
  }

  lemma EscapeCmov(c: Cursor, k: nat)
    requires c.Valid() && k < 16
    ensures Matches(DecodeEscape(c, 0x40 + k), TwoByte(0x40 + k, ExtOf(c)), c, 0x40 + k)
  {
    hide DecodeRm, DecodeRmReg, DecodeRmOnly, DecodeRmImm, DecodeRel, RegOf, SelectReg, Agrees, SizeOf, CondName,
         CondText;
    Sizes(c, 0x40 + k);
    ConditionOps(k);
    RowRmReg("cmov" + CONDITION[k], Cmov(CondName(k)), Sized, Sized, true, c, 0x40 + k);
  }

  lemma EscapeMatches(c: Cursor, op2: byte)
    requires c.Valid()
    ensures Matches(DecodeEscape(c, op2), TwoByte(op2, ExtOf(c)), c, op2)
  {
    hide DecodeRm, DecodeRmReg, DecodeRmOnly, DecodeRmImm, DecodeRel, RegOf, SelectReg, Agrees, SizeOf, CondName,
         CondText;
    if op2 == 0x05 {
      RowBare(DecodeEscape(c, op2), "syscall", Syscall, c, op2);
    } else if op2 == 0x1F {
      RowLongNop(c);
    } else if op2 == 0xBA {
      EscapeBits(c);
    } else if 0x40 <= op2 < 0x50 || 0x80 <= op2 < 0xA0 {
      EscapeConditional(c, op2);
    } else if op2 in {0xAF, 0xB6, 0xB7, 0xBC, 0xBD, 0xBE, 0xBF} {
      EscapeFirst(c, op2);
    } else if op2 in {0xA3, 0xAB, 0xB3, 0xBB} {
      EscapeBitRegs(c, op2);
    } else if op2 in {0xB0, 0xB1, 0xC0, 0xC1} {
      EscapeSecond(c, op2);
    }
  }

  lemma EscapeBits(c: Cursor)
    requires c.Valid()
    ensures Matches(DecodeEscape(c, 0xBA), TwoByte(0xBA, ExtOf(c)), c, 0xBA)
  {
    hide DecodeRm, DecodeRmReg, DecodeRmOnly, DecodeRmImm, DecodeRel, RegOf, SelectReg, Agrees, SizeOf, CondName,
         CondText;
    Sizes(c, 0xBA);
    if c.p < |c.code| && c.Ext() >= 4 {
      var b := if c.Ext() == 4 then Bt else if c.Ext() == 5 then Bts else if c.Ext() == 6 then Btr else Btc;
      RowRmImm(OpText(Bits(b)), Bits(b), Sized, Unsigned8, c, 0xBA);
    }
  }

  // ---- the one-byte opcodes ----

  /** The rows with a register field, in the sizes of the source operand and the register. */
  lemma RegisterRow(c: Cursor, op: byte, word: string, mn: Op, w: Width, regFirst: bool)
    requires c.Valid() && mn != Db && OpText(mn) == word && HasModRm(op)
    requires var size := SizeOf(w, PlaceOf(c, op));
      DecodeModRmOpcode(c, op)
      == if DecodeRm(c.code, c.p, c.rex, size).None? then None else DecodeRmReg(c, mn, size, size, regFirst)
    ensures Agrees(DecodeModRmOpcode(c, op),
                   Row(word, if regFirst then [OfReg(w), OfRm(w)] else [OfRm(w), OfReg(w)]), c, op)
  {
    hide DecodeModRmOpcode, Agrees, SizeOf, DecodeRmReg;
    var size := SizeOf(w, PlaceOf(c, op));
    NoRegister(c, mn, size, size, regFirst);
    RowRmReg(word, mn, w, w, regFirst, c, op);
  }

  /** Where the operand does not decode, neither does the row. */
  lemma NoRegister(c: Cursor, mn: Op, rmSize: RegSize, regSize: RegSize, regFirst: bool)
    requires c.Valid()
    ensures DecodeRm(c.code, c.p, c.rex, rmSize) == None ==> DecodeRmReg(c, mn, rmSize, regSize, regFirst) == None
    ensures DecodeRm(c.code, c.p, c.rex, rmSize) == None ==> DecodeRmOnly(c, mn, rmSize) == None
    ensures forall n: nat, signed ::
      DecodeRm(c.code, c.p, c.rex, rmSize) == None ==> DecodeRmImm(c, mn, rmSize, n, signed) == None
  {
    hide DecodeRm;
  }

  lemma MovsxdAgrees(c: Cursor, r: Option<Decoded>)
    requires c.Valid()
    requires r == (match DecodeRm(c.code, c.p, c.rex, R32)
                   case None => None
                   case Some(rm) =>
                     c.Done(c.p + rm.length, Movsxd, [Reg(RegOf(c.code[c.p]) + RexR(c.rex), R64), rm.operand]))
    ensures Agrees(r, Row("movsxd", [OfReg(Qword), OfRm(Dword)]), c, 0x63)
  {
    hide DecodeRm, RegOf, RexR;
    var at := PlaceOf(c, 0x63);
    TwoSlots(OfReg(Qword), OfRm(Dword), at, c.base);
    OneSlot(OfRm(Dword), at, c.base);
    OneSlot(OfReg(Qword), at, c.base);
    var rm := DecodeRm(c.code, c.p, c.rex, R32);
    if rm.Some? {
      EmptyField(c.code, c.p + rm.value.length);
    }
  }

  /** The rows that the register field selects, with an immediate. */
  lemma ImmediateRow(c: Cursor, op: byte, word: string, mn: Op, w: Width, n: Count)
    requires c.Valid() && mn != Db && OpText(mn) == word && HasModRm(op)
    requires var at := PlaceOf(c, op); var size := SizeOf(w, at);
      DecodeModRmOpcode(c, op)
      == if DecodeRm(c.code, c.p, c.rex, size).None? then None
         else DecodeRmImm(c, mn, size, CountOf(n, at), n == Signed8)
    ensures Agrees(DecodeModRmOpcode(c, op), Row(word, [OfRm(w), OfImm(n)]), c, op)
  {
    hide DecodeModRmOpcode, Agrees, SizeOf, CountOf, DecodeRmImm;
    var size := SizeOf(w, PlaceOf(c, op));
    NoRegister(c, mn, size, size, true);
    RowRmImm(word, mn, w, n, c, op);
  }

  /** The rows that the register field selects, without. */
  lemma UnaryRow(c: Cursor, op: byte, word: string, mn: Op, w: Width)
    requires c.Valid() && mn != Db && OpText(mn) == word && word != "nop" && HasModRm(op)
    requires var size := SizeOf(w, PlaceOf(c, op));
      DecodeModRmOpcode(c, op)
      == if DecodeRm(c.code, c.p, c.rex, size).None? then None else DecodeRmOnly(c, mn, size)
    ensures Agrees(DecodeModRmOpcode(c, op), Row(word, [OfRm(w)]), c, op)
  {
    hide DecodeModRmOpcode, Agrees, SizeOf, DecodeRmOnly;
    var size := SizeOf(w, PlaceOf(c, op));
    NoRegister(c, mn, size, size, true);
    RowRm(word, mn, w, c, op);
  }

  lemma RmBytes(c: Cursor, size: RegSize)
    ensures c.p >= |c.code| ==> DecodeRm(c.code, c.p, c.rex, size) == None
  {
  }

  // What the switch over the ModRM opcodes comes to, opcode by opcode.

  /** Nothing where the operand does not decode, else r. */
  function Behind(c: Cursor, size: RegSize, r: Option<Decoded>): Option<Decoded> {
    if DecodeRm(c.code, c.p, c.rex, size).None? then None else r
  }

  lemma SwitchMov(c: Cursor)
    requires c.Valid()
    ensures DecodeModRmOpcode(c, 0x88) == Behind(c, R8, DecodeRmReg(c, Mov, R8, R8, false))
    ensures DecodeModRmOpcode(c, 0x8A) == Behind(c, R8, DecodeRmReg(c, Mov, R8, R8, true))
    ensures DecodeModRmOpcode(c, 0x89) == Behind(c, c.Size(), DecodeRmReg(c, Mov, c.Size(), c.Size(), false))
    ensures DecodeModRmOpcode(c, 0x8B) == Behind(c, c.Size(), DecodeRmReg(c, Mov, c.Size(), c.Size(), true))
  {
    hide DecodeRm, DecodeRmReg, DecodeRmOnly, DecodeRmImm, RegOf, SelectReg, Group1Name, Group2Name, AluOpcode;
  }

  lemma SwitchRegister(c: Cursor)
    requires c.Valid()
    ensures DecodeModRmOpcode(c, 0x85) == Behind(c, c.Size(), DecodeRmReg(c, Test, c.Size(), c.Size(), false))
    ensures DecodeModRmOpcode(c, 0x8D) == Behind(c, c.Size(), DecodeRmReg(c, Lea, c.Size(), c.Size(), true))
    ensures DecodeModRmOpcode(c, 0x63)
         == (match DecodeRm(c.code, c.p, c.rex, R32)
             case None => None
             case Some(rm) =>
               c.Done(c.p + rm.length, Movsxd, [Reg(RegOf(c.code[c.p]) + RexR(c.rex), R64), rm.operand]))
  {
    hide DecodeRm, DecodeRmReg, DecodeRmOnly, DecodeRmImm, RegOf, SelectReg, Group1Name, Group2Name, AluOpcode;
  }

  lemma SwitchAlu(c: Cursor, op: byte)
    requires c.Valid() && HasModRm(op) && op < 0x40
    ensures DecodeModRmOpcode(c, op)
         == Behind(c, c.Size(), DecodeRmReg(c, Alu(AluOpcode(op)), c.Size(), c.Size(), op % 8 == 3))
  {
    hide DecodeRm, DecodeRmReg, DecodeRmOnly, DecodeRmImm, RegOf, SelectReg, Group1Name, Group2Name, AluOpcode;
  }

  lemma SwitchGroup(c: Cursor)
    requires c.Valid()
    ensures DecodeModRmOpcode(c, 0x80)
         == Behind(c, R8, if c.p < |c.code| then DecodeRmImm(c, Alu(Group1Name(c.Ext())), R8, 1, false) else None)
    ensures DecodeModRmOpcode(c, 0x81)
         == Behind(c, c.Size(), if c.p < |c.code|
                                then DecodeRmImm(c, Alu(Group1Name(c.Ext())), c.Size(),
                                                 if c.opSize then 2 else 4, false)
                                else None)
    ensures DecodeModRmOpcode(c, 0x83)
         == Behind(c, c.Size(), if c.p < |c.code| then DecodeRmImm(c, Alu(Group1Name(c.Ext())), c.Size(), 1, true)
                                else None)
  {
    hide DecodeRm, DecodeRmReg, DecodeRmOnly, DecodeRmImm, RegOf, SelectReg, Group1Name, Group2Name, AluOpcode;
    RmBytes(c, R8);
    RmBytes(c, c.Size());
  }

  lemma SwitchShift(c: Cursor, op: byte)
    requires c.Valid() && (op == 0xC0 || op == 0xC1)
    ensures var size := if op == 0xC0 then R8 else c.Size();
      DecodeModRmOpcode(c, op)
      == Behind(c, size, if c.p >= |c.code| then None
                         else if Group2Name(c.Ext()).None? then c.Fallback()
                         else DecodeRmImm(c, Shift(Group2Name(c.Ext()).value), size, 1, false))
  {
    hide DecodeRm, DecodeRmReg, DecodeRmOnly, DecodeRmImm, RegOf, SelectReg, Group1Name, Group2Name, AluOpcode;
    RmBytes(c, R8);
    RmBytes(c, c.Size());
  }

  lemma SwitchStore(c: Cursor)
    requires c.Valid()
    ensures DecodeModRmOpcode(c, 0xC7)
         == Behind(c, c.Size(), if c.p >= |c.code| then None
                                else if c.Ext() != 0 then c.Fallback()
                                else DecodeRmImm(c, Mov, c.Size(), if c.opSize then 2 else 4, false))
  {
    hide DecodeRm, DecodeRmReg, DecodeRmOnly, DecodeRmImm, RegOf, SelectReg, Group1Name, Group2Name, AluOpcode;
    RmBytes(c, c.Size());
  }

  lemma SwitchStack(c: Cursor)
    requires c.Valid() && c.p < |c.code|
    ensures DecodeModRmOpcode(c, 0x8F)
         == Behind(c, c.Size(), if c.Ext() == 0 then DecodeRmOnly(c, Pop, c.Size()) else c.Fallback())
    ensures var ext := c.Ext();
      DecodeModRmOpcode(c, 0xFF)
      == Behind(c, c.Size(), if ext == 0 then DecodeRmOnly(c, Unary(Inc), c.Size())
                             else if ext == 1 then DecodeRmOnly(c, Unary(Dec), c.Size())
                             else if ext == 2 then DecodeRmOnly(c, Call, c.Size())
                             else if ext == 4 then DecodeRmOnly(c, Jmp, c.Size())
                             else if ext == 6 then DecodeRmOnly(c, Push, c.Size())
                             else c.Fallback())
  {
    hide DecodeRm, DecodeRmReg, DecodeRmOnly, DecodeRmImm, RegOf, SelectReg, Group1Name, Group2Name, AluOpcode;
  }

  lemma SwitchTest(c: Cursor, op: byte)
    requires c.Valid() && c.p < |c.code| && (op == 0xF6 || op == 0xF7)
    ensures var size, ext := if op == 0xF6 then R8 else c.Size(), c.Ext();
      DecodeModRmOpcode(c, op)
      == Behind(c, size,
                if ext == 0 then
                  DecodeRmImm(c, Test, size, if op == 0xF6 then 1 else if !RexW(c.rex) && c.opSize then 2 else 4, false)
                else if ext == 2 then DecodeRmOnly(c, Unary(Not), size)
                else if ext == 3 then DecodeRmOnly(c, Unary(Neg), size)
                else c.Fallback())
  {
    hide DecodeRm, DecodeRmReg, DecodeRmOnly, DecodeRmImm, RegOf, SelectReg, Group1Name, Group2Name, AluOpcode;
  }

  lemma SwitchNone(c: Cursor, op: byte)
    requires c.Valid() && HasModRm(op) && c.p >= |c.code|
    ensures DecodeModRmOpcode(c, op) == None
  {
    hide DecodeRm, DecodeRmReg, DecodeRmOnly, DecodeRmImm, RegOf, SelectReg, Group1Name, Group2Name, AluOpcode;
    forall size {
      RmBytes(c, size);
    }
  }

  // ---- the rows of the map, opcode by opcode ----

  lemma GroupTable(ext: nat, narrow: bool)
    requires ext < 8
    ensures ListedOne(0x80, ext, narrow) == Some(Row(ARITHMETIC[ext], [OfRm(Byte), OfImm(Unsigned8)]))
    ensures ListedOne(0x81, ext, narrow)
         == Some(Row(ARITHMETIC[ext], [OfRm(Sized), OfImm(if narrow then Count.Two else Four)]))
    ensures ListedOne(0x83, ext, narrow) == Some(Row(ARITHMETIC[ext], [OfRm(Sized), OfImm(Signed8)]))
    ensures ListedOne(0xC7, ext, narrow)
         == if ext == 0 then Some(Row("mov", [OfRm(Sized), OfImm(if narrow then Count.Two else Four)])) else None
  {
  }

  lemma ShiftTable(ext: nat, narrow: bool)
    requires ext < 8
    ensures ListedOne(0xC0, ext, narrow) == ShiftGroup(Byte, ext)
        && ListedOne(0xC1, ext, narrow) == ShiftGroup(Sized, ext)
  {
  }

  lemma TestTable(ext: nat, narrow: bool)
    requires ext < 8
    ensures ListedOne(0xF6, ext, narrow) == if ext == 5 then None else TestGroup(Byte, Unsigned8, ext)
    ensures ListedOne(0xF7, ext, narrow) == if ext == 5 then None else TestGroup(Sized, Four, ext)
  {
  }

  lemma StackTable(ext: nat, narrow: bool)
    requires ext < 8
    ensures ListedOne(0x8F, ext, narrow) == if ext == 0 then Some(Row("pop", [OfRm(Sized)])) else None
    ensures ListedOne(0xFF, ext, narrow)
         == if ext == 0 then Some(Row("inc", [OfRm(Sized)]))
            else if ext == 1 then Some(Row("dec", [OfRm(Sized)]))
            else if ext == 2 then Some(Row("call", [OfRm(Sized)]))
            else if ext == 4 then Some(Row("jmp", [OfRm(Sized)]))
            else if ext == 6 then Some(Row("push", [OfRm(Sized)]))
            else None
  {
  }

  lemma RegisterTable(ext: nat, narrow: bool)
    requires ext < 8
    ensures ListedOne(0x63, ext, narrow) == Some(Row("movsxd", [OfReg(Qword), OfRm(Dword)]))
    ensures ListedOne(0x85, ext, narrow) == Some(Row("test", [OfRm(Sized), OfReg(Sized)]))
    ensures ListedOne(0x8D, ext, narrow) == Some(Row("lea", [OfReg(Sized), OfRm(Sized)]))
  {
  }

  lemma MovTable(ext: nat, narrow: bool)
    requires ext < 8
    ensures ListedOne(0x88, ext, narrow) == Some(Row("mov", [OfRm(Byte), OfReg(Byte)]))
    ensures ListedOne(0x89, ext, narrow) == Some(Row("mov", [OfRm(Sized), OfReg(Sized)]))
    ensures ListedOne(0x8A, ext, narrow) == Some(Row("mov", [OfReg(Byte), OfRm(Byte)]))
    ensures ListedOne(0x8B, ext, narrow) == Some(Row("mov", [OfReg(Sized), OfRm(Sized)]))
  {
  }

  lemma AluTable(op: byte, ext: nat, narrow: bool)
    requires HasModRm(op) && op < 0x40 && ext < 8
    ensures ListedOne(op, ext, narrow)
         == Some(Row(OpText(Alu(AluOpcode(op))),
                     if op % 8 == 3 then [OfReg(Sized), OfRm(Sized)] else [OfRm(Sized), OfReg(Sized)]))
  {
    AluBytes(op);
    AluRow(op, ext, narrow);
    AluWord(op);
  }

  lemma AluRow(op: byte, ext: nat, narrow: bool)
    requires op in {0x01, 0x03, 0x09, 0x0B, 0x21, 0x23, 0x29, 0x2B, 0x31, 0x33, 0x39, 0x3B} && ext < 8
    ensures ListedOne(op, ext, narrow)
         == Some(Row(ARITHMETIC[op / 8], if op % 8 == 3 then [OfReg(Sized), OfRm(Sized)]
             else [OfRm(Sized), OfReg(Sized)]))
    ensures op % 8 == 1 || op % 8 == 3
  {
    hide Unlisted, OneByte;
    AluUnlisted(op, ext);
    AluOneByte(op, ext);
  }

  lemma AluUnlisted(op: byte, ext: nat)
    requires op in {0x01, 0x03, 0x09, 0x0B, 0x21, 0x23, 0x29, 0x2B, 0x31, 0x33, 0x39, 0x3B}
    ensures !Unlisted(op, ext)
  {
  }

  lemma AluOneByte(op: byte, ext: nat)
    requires op < 0x40 && (op % 8 == 1 || op % 8 == 3) && ext < 8
    ensures OneByte(op, ext)
         == Some(Row(ARITHMETIC[op / 8], if op % 8 == 3 then [OfReg(Sized), OfRm(Sized)]
             else [OfRm(Sized), OfReg(Sized)]))
  {
  }

  lemma AluWord(op: byte)
    requires op in {0x01, 0x03, 0x09, 0x0B, 0x21, 0x23, 0x29, 0x2B, 0x31, 0x33, 0x39, 0x3B}
    ensures OpText(Alu(AluOpcode(op))) == ARITHMETIC[op / 8]
  {
    if op < 0x20 {
      AluWordLow(op);
    } else {
      AluWordHigh(op);
    }
  }

  lemma AluWordLow(op: byte)
    requires op in {0x01, 0x03, 0x09, 0x0B}
    ensures OpText(Alu(AluOpcode(op))) == ARITHMETIC[op / 8]
  {
  }

  lemma AluWordHigh(op: byte)
    requires op in {0x21, 0x23, 0x29, 0x2B, 0x31, 0x33, 0x39, 0x3B}
    ensures OpText(Alu(AluOpcode(op))) == ARITHMETIC[op / 8]
  {
  }

  lemma AluBytes(op: byte)
    requires HasModRm(op) && op < 0x40
    ensures op in {0x01, 0x03, 0x09, 0x0B, 0x21, 0x23, 0x29, 0x2B, 0x31, 0x33, 0x39, 0x3B}
  {
  }

  // ---- the ModRM opcodes ----

  lemma RegisterRows(c: Cursor, op: byte)
    requires c.Valid() && op in {0x63, 0x85, 0x88, 0x89, 0x8A, 0x8B, 0x8D}
    ensures Matches(DecodeModRmOpcode(c, op), ListedOne(op, ExtOf(c), c.opSize), c, op)
  {
    hide DecodeModRmOpcode, ListedOne, Agrees, SizeOf, CountOf, DecodeRmReg, DecodeRmOnly, DecodeRmImm, Group1Name,
         Group2Name;
    Sizes(c, op);
    RegisterTable(ExtOf(c), c.opSize);
    MovTable(ExtOf(c), c.opSize);
    SwitchMov(c);
    SwitchRegister(c);
    if op == 0x63 {
      MovsxdAgrees(c, DecodeModRmOpcode(c, op));
    } else if op == 0x85 {
      RegisterRow(c, op, "test", Test, Sized, false);
    } else if op == 0x8D {
      RegisterRow(c, op, "lea", Lea, Sized, true);
    } else if op == 0x88 {
      RegisterRow(c, op, "mov", Mov, Byte, false);
    } else if op == 0x8A {
      RegisterRow(c, op, "mov", Mov, Byte, true);
    } else {
      RegisterRow(c, op, "mov", Mov, Sized, op == 0x8B);
    }
  }

  /** Two of the rows of each arithmetic mnemonic but adc and sbb. */
  lemma ArithmeticRows(c: Cursor, op: byte)
    requires c.Valid() && HasModRm(op) && op < 0x40
    ensures Matches(DecodeModRmOpcode(c, op), ListedOne(op, ExtOf(c), c.opSize), c, op)
  {
    hide DecodeModRmOpcode, ListedOne, Agrees, SizeOf, CountOf, DecodeRmReg, DecodeRmOnly, DecodeRmImm, Group1Name,
         Group2Name;
    hide AluOpcode, OpText;
    Sizes(c, op);
    AluTable(op, ExtOf(c), c.opSize);
    SwitchAlu(c, op);
    RegisterRow(c, op, OpText(Alu(AluOpcode(op))), Alu(AluOpcode(op)), Sized, op % 8 == 3);
  }

  /** The rows that the register field selects, with an immediate. */
  lemma GroupRows(c: Cursor, op: byte)
    requires c.Valid() && c.p < |c.code| && op in {0x80, 0x81, 0x83, 0xC7}
    ensures Matches(DecodeModRmOpcode(c, op), ListedOne(op, ExtOf(c), c.opSize), c, op)
  {
    hide DecodeModRmOpcode, ListedOne, Agrees, SizeOf, CountOf, DecodeRmReg, DecodeRmOnly, DecodeRmImm, Group1Name,
         Group2Name;
    Sizes(c, op);
    var ext := ExtOf(c);
    GroupTable(ext, c.opSize);
    ArithmeticWord(ext);
    SwitchGroup(c);
    SwitchStore(c);
    var wide := if c.opSize then Count.Two else Four;
    if op == 0x80 {
      ImmediateRow(c, op, ARITHMETIC[ext], Alu(Group1Name(ext)), Byte, Unsigned8);
    } else if op == 0x81 {
      ImmediateRow(c, op, ARITHMETIC[ext], Alu(Group1Name(ext)), Sized, wide);
    } else if op == 0x83 {
      ImmediateRow(c, op, ARITHMETIC[ext], Alu(Group1Name(ext)), Sized, Signed8);
    } else if ext == 0 {
      ImmediateRow(c, op, "mov", Mov, Sized, wide);
    }
  }

  lemma ShiftRows(c: Cursor, op: byte)
    requires c.Valid() && c.p < |c.code| && (op == 0xC0 || op == 0xC1)
    ensures Matches(DecodeModRmOpcode(c, op), ListedOne(op, ExtOf(c), c.opSize), c, op)
  {
    hide DecodeModRmOpcode, ListedOne, Agrees, SizeOf, CountOf, DecodeRmReg, DecodeRmOnly, DecodeRmImm, Group1Name,
         Group2Name;
    Sizes(c, op);
    var w, ext := if op == 0xC0 then Byte else Sized, ExtOf(c);
    ShiftTable(ext, c.opSize);
    ShiftWord(w, ext);
    SwitchShift(c, op);
    if Group2Name(ext).Some? {
      ImmediateRow(c, op, OpText(Shift(Group2Name(ext).value)), Shift(Group2Name(ext).value), w, Unsigned8);
    }
  }

  lemma ShiftWord(w: Width, ext: nat)
    requires ext < 8
    ensures ShiftGroup(w, ext)
         == if Group2Name(ext).None? then None
            else Some(Row(OpText(Shift(Group2Name(ext).value)), [OfRm(w), OfImm(Unsigned8)]))
  {
  }

  /** And without. */
  lemma StackRows(c: Cursor, op: byte)
    requires c.Valid() && c.p < |c.code| && (op == 0x8F || op == 0xFF)
    ensures Matches(DecodeModRmOpcode(c, op), ListedOne(op, ExtOf(c), c.opSize), c, op)
  {
    hide DecodeModRmOpcode, ListedOne, Agrees, SizeOf, CountOf, DecodeRmReg, DecodeRmOnly, DecodeRmImm, Group1Name,
         Group2Name;
    Sizes(c, op);
    var ext := ExtOf(c);
    StackTable(ext, c.opSize);
    SwitchStack(c);
    if op == 0x8F {
      if ext == 0 {
        UnaryRow(c, op, "pop", Pop, Sized);
      }
    } else if ext == 0 {
      UnaryRow(c, op, "inc", Unary(Inc), Sized);
    } else if ext == 1 {
      UnaryRow(c, op, "dec", Unary(Dec), Sized);
    } else if ext == 2 {
      UnaryRow(c, op, "call", Call, Sized);
    } else if ext == 4 {
      UnaryRow(c, op, "jmp", Jmp, Sized);
    } else if ext == 6 {
      UnaryRow(c, op, "push", Push, Sized);
    }
  }

  lemma TestRows(c: Cursor, op: byte)
    requires c.Valid() && c.p < |c.code| && (op == 0xF6 || op == 0xF7)
    ensures Matches(DecodeModRmOpcode(c, op), ListedOne(op, ExtOf(c), c.opSize), c, op)
  {
    hide DecodeModRmOpcode, ListedOne, Agrees, SizeOf, CountOf, DecodeRmReg, DecodeRmOnly, DecodeRmImm, Group1Name,
         Group2Name;
    Sizes(c, op);
    var w, ext := if op == 0xF6 then Byte else Sized, ExtOf(c);
    TestTable(ext, c.opSize);
    SwitchTest(c, op);
    if ext == 0 {
      ImmediateRow(c, op, "test", Test, w, if op == 0xF6 then Unsigned8 else Four);
    } else if ext == 2 {
      UnaryRow(c, op, "not", Unary(Not), w);
    } else if ext == 3 {
      UnaryRow(c, op, "neg", Unary(Neg), w);
    }
  }

  /** No bytes, no operand. */
  lemma {:induction false} RmMissing(slots: seq<Slot>, at: Place)
    requires at.p >= |at.code| && exists k :: 0 <= k < |slots| && slots[k].OfRm?
    ensures RmLength(slots, at) == None
  {
    if !slots[0].OfRm? {
      var k :| 0 <= k < |slots| && slots[k].OfRm?;
      assert slots[1..][k - 1].OfRm?;
      RmMissing(slots[1..], at);
    }
  }

  lemma NoBytes(c: Cursor, op: byte)
    requires c.Valid() && HasModRm(op) && c.p >= |c.code|
    ensures Matches(DecodeModRmOpcode(c, op), ListedOne(op, 0, c.opSize), c, op)
  {
    hide DecodeModRmOpcode, ListedOne;
    SwitchNone(c, op);
    var row := ListedOne(op, 0, c.opSize);
    if row.Some? {
      RowHasRm(op, c.opSize);
      RmMissing(row.value.slots, PlaceOf(c, op));
    }
  }

  lemma RowHasRm(op: byte, narrow: bool)
    requires HasModRm(op)
    ensures var row := ListedOne(op, 0, narrow);
      row.Some? ==> exists k :: 0 <= k < |row.value.slots| && row.value.slots[k].OfRm?
  {
    hide ListedOne;
    GroupTable(0, narrow);
    ShiftTable(0, narrow);
    TestTable(0, narrow);
    StackTable(0, narrow);
    RegisterTable(0, narrow);
    MovTable(0, narrow);
    if op < 0x40 {
      AluTable(op, 0, narrow);
    }
    var row := ListedOne(op, 0, narrow);
    assert row.Some? ==>
      var slots := row.value.slots;
      |slots| > 0 && (slots[0].OfRm? || (|slots| == 2 && slots[1].OfRm?));
  }

  lemma ModRmMatches(c: Cursor, op: byte)
    requires c.Valid() && HasModRm(op)
    ensures Matches(DecodeModRmOpcode(c, op), ListedOne(op, ExtOf(c), c.opSize), c, op)
  {
    hide DecodeModRmOpcode, ListedOne, Matches;
    if c.p >= |c.code| {
      NoBytes(c, op);
    } else if op < 0x40 {
      ArithmeticRows(c, op);
    } else if op in {0x63, 0x85, 0x88, 0x89, 0x8A, 0x8B, 0x8D} {
      RegisterRows(c, op);
    } else if op in {0x80, 0x81, 0x83, 0xC7} {
      GroupRows(c, op);
    } else if op == 0xC0 || op == 0xC1 {
      ShiftRows(c, op);
    } else if op == 0x8F || op == 0xFF {
      StackRows(c, op);
    } else {
      TestRows(c, op);
    }
  }

  // ---- the other opcodes ----

  lemma PlainTable(op: byte, ext: nat, narrow: bool)
    requires ext < 8
    ensures 0x50 <= op < 0x58 ==> ListedOne(op, ext, narrow) == Some(Row("push", [OfOpcode(Qword)]))
    ensures 0x58 <= op < 0x60 ==> ListedOne(op, ext, narrow) == Some(Row("pop", [OfOpcode(Qword)]))
    ensures 0x70 <= op < 0x80 ==> ListedOne(op, ext, narrow) == Some(Row("j" + CONDITION[op - 0x70], [OfRel(Signed8)]))
    ensures 0xB8 <= op < 0xC0 ==> ListedOne(op, ext, narrow) == Some(Row("mov", [OfOpcode(Sized), OfImm(Full)]))
  {
    hide Unlisted;
    if 0x50 <= op < 0x60 || 0x70 <= op < 0x80 || 0xB8 <= op < 0xC0 {
      PlainListed(op, ext);
    }
  }

  lemma PlainListed(op: byte, ext: nat)
    requires 0x50 <= op < 0x60 || 0x70 <= op < 0x80 || 0xB8 <= op < 0xC0
    ensures !Unlisted(op, ext)
  {
  }

  lemma FixedTable(ext: nat, narrow: bool)
    requires ext < 8
    ensures ListedOne(0x68, ext, narrow) == Some(Row("push", [OfImm(Near)]))
    ensures ListedOne(0x6A, ext, narrow) == Some(Row("push", [OfImm(Signed8)]))
    ensures ListedOne(0x90, ext, narrow) == Some(Row("nop", []))
    ensures ListedOne(0xC3, ext, narrow) == Some(Row("ret", []))
    ensures ListedOne(0xC9, ext, narrow) == Some(Row("leave", []))
  {
  }

  lemma BranchTable(ext: nat, narrow: bool)
    requires ext < 8
    ensures ListedOne(0xE8, ext, narrow) == Some(Row("call", [OfRel(Near)]))
    ensures ListedOne(0xE9, ext, narrow) == Some(Row("jmp", [OfRel(Near)]))
    ensures ListedOne(0xEB, ext, narrow) == Some(Row("jmp", [OfRel(Signed8)]))
  {
  }

  /** One-byte opcodes outside the switch have no row. */
  predicate Known(op: byte) {
    || 0x50 <= op < 0x60 || 0x70 <= op < 0x80 || 0xB8 <= op < 0xC0
    || op in {0x68, 0x6A, 0x90, 0xC3, 0xC9, 0xE8, 0xE9, 0xEB} || HasModRm(op)
  }

  lemma NoRow(op: byte, ext: nat, narrow: bool)
    requires ext < 8 && !Known(op)
    ensures ListedOne(op, ext, narrow) == None
  {
    hide ListedSlots;
    if op < 0x40 {
      NoRowLow(op, ext);
    } else {
      NoRowHigh(op, ext);
    }
  }

  lemma NoRowLow(op: byte, ext: nat)
    requires ext < 8 && !Known(op) && op < 0x40
    ensures OneByte(op, ext) == None || Unlisted(op, ext)
  {
    var k := op / 8;
    if op % 8 == 1 || op % 8 == 3 || op % 8 == 5 {
      assert op == 8 * k + op % 8 && k < 8;
      assert k == 0 || k == 1 || k == 2 || k == 3 || k == 4 || k == 5 || k == 6 || k == 7;
    }
  }

  lemma NoRowHigh(op: byte, ext: nat)
    requires ext < 8 && !Known(op) && op >= 0x40
    ensures OneByte(op, ext) == None || Unlisted(op, ext)
  {
  }

  lemma RowOpcode(word: string, mn: Op, k: nat, c: Cursor, op: byte)
    requires c.Valid() && mn != Db && OpText(mn) == word && word != "nop" && k == op % 8
    ensures Agrees(c.Done(c.p, mn, [Gpr(k + RexB(c.rex))]), Row(word, [OfOpcode(Qword)]), c, op)
  {
    hide OpText, RexB;
    OneSlot(OfOpcode(Qword), PlaceOf(c, op), c.base);
    EmptyField(c.code, c.p);
  }

  lemma RowImm(word: string, mn: Op, n: Count, c: Cursor, op: byte)
    requires c.Valid() && mn != Db && OpText(mn) == word && word != "nop"
    ensures var f := ReadField(c.code, c.p, CountOf(n, PlaceOf(c, op)));
      Agrees(if f.None? then None
             else c.Done(c.p + CountOf(n, PlaceOf(c, op)), mn,
                         [Imm(if n == Signed8 then Signed(f.value) else Unsigned(f.value))]),
             Row(word, [OfImm(n)]), c, op)
  {
    hide OpText, CountOf, Signed, Unsigned;
    OneSlot(OfImm(n), PlaceOf(c, op), c.base);
  }

  lemma RowMovImm(k: nat, c: Cursor, op: byte)
    requires c.Valid() && k == op % 8
    ensures var n := CountOf(Full, PlaceOf(c, op)); var f := ReadField(c.code, c.p, n);
      Agrees(if f.None? then None
             else c.Done(c.p + n, Mov, [SelectReg(k + RexB(c.rex), c.Size(), c.rex != 0), Imm(Unsigned(f.value))]),
             Row("mov", [OfOpcode(Sized), OfImm(Full)]), c, op)
  {
    hide CountOf, Unsigned, RexB, SelectReg;
    TwoSlots(OfOpcode(Sized), OfImm(Full), PlaceOf(c, op), c.base);
    OneSlot(OfOpcode(Sized), PlaceOf(c, op), c.base);
    OneSlot(OfImm(Full), PlaceOf(c, op), c.base);
  }

  lemma PlainMatches(c: Cursor, op: byte)
    requires c.Valid() && (0x50 <= op < 0x60 || 0x70 <= op < 0x80 || 0xB8 <= op < 0xC0)
    ensures Matches(DecodeOpcode(c, op), ListedOne(op, ExtOf(c), c.opSize), c, op)
  {
    hide ListedOne, Agrees, DecodeRel, DecodeEscape, DecodeModRmOpcode, HasModRm, SelectReg, RexB, Signed, Unsigned,
         CondName;
    hide OpText;
    PlainTable(op, ExtOf(c), c.opSize);
    Sizes(c, op);
    if op < 0x58 {
      PushPopWords();
      RowOpcode("push", Push, op - 0x50, c, op);
    } else if op < 0x60 {
      PushPopWords();
      RowOpcode("pop", Pop, op - 0x58, c, op);
    } else if op < 0x80 {
      ConditionOps(op - 0x70);
      RowRel("j" + CONDITION[op - 0x70], Jcc(CondName(op - 0x70)), Signed8, c, op);
    } else {
      RowMovImm(op - 0xB8, c, op);
    }
  }

  lemma PushPopWords()
    ensures OpText(Push) == "push" && OpText(Pop) == "pop" && OpText(Nop) == "nop" && OpText(Ret) == "ret"
    ensures OpText(Leave) == "leave" && OpText(Call) == "call" && OpText(Jmp) == "jmp"
  {
  }

  lemma FixedMatches(c: Cursor, op: byte)
    requires c.Valid() && op in {0x68, 0x6A, 0x90, 0xC3, 0xC9, 0xE8, 0xE9, 0xEB}
    ensures Matches(DecodeOpcode(c, op), ListedOne(op, ExtOf(c), c.opSize), c, op)
  {
    hide ListedOne, Agrees, DecodeRel, DecodeEscape, DecodeModRmOpcode, HasModRm, SelectReg, RexB, Signed, Unsigned,
         CondName;
    hide OpText;
    FixedTable(ExtOf(c), c.opSize);
    BranchTable(ExtOf(c), c.opSize);
    Sizes(c, op);
    PushPopWords();
    if op == 0x68 {
      RowImm("push", Push, Near, c, op);
    } else if op == 0x6A {
      RowImm("push", Push, Signed8, c, op);
    } else if op == 0x90 {
      RowBare(DecodeOpcode(c, op), "nop", Nop, c, op);
    } else if op == 0xC3 {
      RowBare(DecodeOpcode(c, op), "ret", Ret, c, op);
    } else if op == 0xC9 {
      RowBare(DecodeOpcode(c, op), "leave", Leave, c, op);
    } else if op == 0xE8 {
      RowRel("call", Call, Near, c, op);
    } else if op == 0xE9 {
      RowRel("jmp", Jmp, Near, c, op);
    } else {
      RowRel("jmp", Jmp, Signed8, c, op);
    }
  }

  lemma SwitchModRm(c: Cursor, op: byte)
    requires c.Valid() && op != 0x0F
    ensures HasModRm(op) ==> DecodeOpcode(c, op) == DecodeModRmOpcode(c, op)
    ensures !Known(op) ==> DecodeOpcode(c, op) == c.Fallback()
  {
    hide DecodeRel, DecodeEscape, DecodeModRmOpcode, SelectReg, RexB, Signed, Unsigned, CondName;
  }

  lemma OpcodeMatches(c: Cursor, op: byte)
    requires c.Valid() && op != 0x0F
    ensures Matches(DecodeOpcode(c, op), ListedOne(op, ExtOf(c), c.opSize), c, op)
  {
    hide DecodeOpcode, DecodeModRmOpcode, ListedOne, Agrees, HasModRm;
    SwitchModRm(c, op);
    if HasModRm(op) {
      ModRmMatches(c, op);
    } else if op in {0x68, 0x6A, 0x90, 0xC3, 0xC9, 0xE8, 0xE9, 0xEB} {
      FixedMatches(c, op);
    } else if Known(op) {
      PlainMatches(c, op);
    } else {
      NoRow(op, ExtOf(c), c.opSize);
    }
  }

  // ---- the line ----

  /** The word, and the operands behind it. */
  function Words(word: string, os: seq<Operand>): string {
    if os == [] then word
    else if |os| == 1 then word + " " + RenderOperand(os[0])
    else word + " " + RenderOperand(os[0]) + ", " + RenderOperand(os[1])
  }

  // A row of the map that applies at a position, the opcode, and where its operands begin.
  datatype Found = Found(row: Row, op: byte, behind: nat)

  /** The row for the opcode at p. */
  function RowAt(code: seq<byte>, p: nat, narrow: bool): Option<Found>
    requires p < |code|
  {
    if code[p] != 0x0F then
      var row :- ListedOne(code[p], if p + 1 < |code| then RegOf(code[p + 1]) else 0, narrow);
      Some(Found(row, code[p], p + 1))
    else if p + 1 >= |code| then None
    else
      var row :- TwoByte(code[p + 1], if p + 2 < |code| then RegOf(code[p + 2]) else 0);
      Some(Found(row, code[p + 1], p + 2))
  }

  /** What stands at start: a row of the map with its operands, or nothing known. */
  function Meant(code: seq<byte>, base: int, start: nat): Option<(string, Reading)>
    requires start <= |code|
  {
    var pre := ScanPrefixes(code, start, false, 0);
    if pre.cursor >= |code| then None
    else
      var f :- RowAt(code, pre.cursor, pre.opSize);
      var r :- Read(f.row.slots, Place(code, f.behind, f.op, pre.rex, pre.opSize), base);
      Some((f.row.word, r))
  }

  /**
   * Every line of a listing: the word and the operands that the opcode map has for the bytes, with the length
   * they take, or db and the first byte where the map has nothing or the bytes run out.
   */
  lemma ListedLine(code: seq<byte>, base: int, start: nat)
    requires start < |code|
    ensures var e := Step(code, base, start);
      match Meant(code, base, start)
      case Some(m) =>
        start + e.length == m.1.end && RenderInst(e.inst) == Words(m.0, Dropped(m.0, m.1.operands))
      case None => e.length == 1 && RenderInst(e.inst) == "db 0x" + Disassembler.HexByte(code[start])
  {
    hide DecodeOpcode, ListedOne, TwoByte, Read, RenderInst, ScanPrefixes, DecodeEscape, Disassembler.HexByte;
    var pre := ScanPrefixes(code, start, false, 0);
    Disassembler.RenderDb(code[start]);
    ScanInside(code, start);
    if pre.cursor < |code| {
      var op := code[pre.cursor];
      var c := Cursor(code, base, start, pre.cursor + 1, pre.opSize, pre.rex);
      if op != 0x0F {
        OneByteLine(c, op);
      } else {
        SwitchEscape(c);
        if pre.cursor + 1 < |code| {
          TwoByteLine(c.(p := c.p + 1), code[c.p]);
        }
      }
    }
  }

  lemma OneByteLine(c: Cursor, op: byte)
    requires c.Valid() && op != 0x0F
    ensures LineAgrees(DecodeOpcode(c, op), ListedOne(op, ExtOf(c), c.opSize), c, op)
  {
    hide DecodeOpcode, ListedOne, LineAgrees, Matches;
    OpcodeMatches(c, op);
    Buffers.OpcodeShort(c, op);
    LineOfRow(DecodeOpcode(c, op), ListedOne(op, ExtOf(c), c.opSize), c, op);
  }

  lemma TwoByteLine(c: Cursor, op: byte)
    requires c.Valid()
    ensures LineAgrees(DecodeEscape(c, op), TwoByte(op, ExtOf(c)), c, op)
  {
    hide DecodeEscape, TwoByte, LineAgrees, Matches;
    EscapeMatches(c, op);
    Buffers.EscapeShort(c, op);
    LineOfRow(DecodeEscape(c, op), TwoByte(op, ExtOf(c)), c, op);
  }

  lemma ScanInside(code: seq<byte>, start: nat)
    requires start < |code|
    ensures var r := ScanPrefixes(code, start, false, 0); start <= r.cursor <= |code|
  {
  }

  lemma SwitchEscape(c: Cursor)
    requires c.Valid()
    ensures DecodeOpcode(c, 0x0F) == if c.p >= |c.code| then None else DecodeEscape(c.(p := c.p + 1), c.code[c.p])
  {
    hide DecodeEscape, DecodeRel, DecodeModRmOpcode;
  }

  /** The answer of the decoder, printed, is the row with its operands, or there is none. */
  ghost predicate LineAgrees(r: Option<Decoded>, row: Option<Row>, c: Cursor, op: byte)
    requires c.Valid()
  {
    var o := if row.None? then None else Read(row.value.slots, PlaceOf(c, op), c.base);
    match o
    case None => r == None || r == c.Fallback()
    case Some(o) =>
      && r.Some? && c.start < o.end && r.value.length == o.end - c.start
      && RenderInst(r.value.inst) == Words(row.value.word, Dropped(row.value.word, o.operands))
  }

  /** From an answer of the decoder to the line. */
  lemma LineOfRow(r: Option<Decoded>, row: Option<Row>, c: Cursor, op: byte)
    requires c.Valid() && Matches(r, row, c, op)
    requires r.Some? ==> r.value.length >= 1 && |r.value.inst.operands| <= 2
    ensures LineAgrees(r, row, c, op)
  {
    hide Read, RenderOperand, OpText, RenderInst;
    if r.Some? && r.value.inst.op != Db {
      var os := r.value.inst.operands;
      Disassembler.RenderParts(r.value.inst.op, if os == [] then Imm(0) else os[0], if |os| < 2 then Imm(0) else os[1]);
      assert |os| == 1 ==> os == [os[0]];
      assert |os| == 2 ==> os == [os[0], os[1]];
    }
  }

  // ---- the columns of a line ----

  /** Leading zeros change nothing. */
  lemma {:induction false} Zeros(n: nat, s: string)
    requires AllDigits(s, 16)
    ensures AllDigits(Disassembler.Fill('0', n) + s, 16)
    ensures DigitsValue(Disassembler.Fill('0', n) + s, 16) == DigitsValue(s, 16)
    decreases |s|, n
  {
    hide IsHexDigit, DigitValue, Shifted;
    ZerosDigits(n);
    var z := Disassembler.Fill('0', n);
    assert forall k :: 0 <= k < |z + s| ==> IsDigitOf((z + s)[k], 16);
    if s == [] {
      assert z + s == z;
      ZerosValue(n);
    } else {
      assert (z + s)[..|z + s| - 1] == z + s[..|s| - 1];
      Zeros(n, s[..|s| - 1]);
    }
  }

  lemma {:induction false} ZerosDigits(n: nat)
    ensures AllDigits(Disassembler.Fill('0', n), 16)
  {
    if n > 0 {
      ZerosDigits(n - 1);
    }
  }

  lemma {:induction false} ZerosValue(n: nat)
    requires AllDigits(Disassembler.Fill('0', n), 16)
    ensures DigitsValue(Disassembler.Fill('0', n), 16) == 0
  {
    var z := Disassembler.Fill('0', n);
    if n > 0 {
      ZerosDigits(n - 1);
      assert z[..|z| - 1] == Disassembler.Fill('0', n - 1);
      ZerosValue(n - 1);
    }
  }

  /**
   * A line: sixteen digits that are the address, a colon, the bytes from column 18, and the instruction to the end,
   * from column 62 on unless the bytes take more room.
   */
  lemma LineColumns(address: int, bytes: seq<byte>, text: string)
    ensures var l := Disassembler.LineText(address, bytes, text);
      var d, w := Disassembler.Dump(bytes), if |Disassembler.Dump(bytes)| < 43 then 43 else |Disassembler.Dump(bytes)|;
      && |l| == 18 + w + 1 + |text| + 1
      && AllDigits(l[..16], 16) && DigitsValue(l[..16], 16) == address % TWO64 && l[16..18] == ": "
      && l[18..18 + |d|] == d && (forall k :: 18 + |d| <= k < 18 + w + 1 ==> l[k] == ' ')
      && l[18 + w + 1..|l| - 1] == text && l[|l| - 1] == '\n'
  {
    hide Disassembler.Dump, DigitsValue, Digits, IsHexDigit, DigitValue, Disassembler.Fill;
    var l, n := Disassembler.LineText(address, bytes, text), address % TWO64;
    Buffers.Hex16(n);
    DigitsInverse(n, 16);
    Zeros(16 - |Hex(n)|, Hex(n));
    var a := Disassembler.Fill('0', 16 - |Hex(n)|) + Hex(n);
    var d := Disassembler.Dump(bytes);
    var b := Disassembler.Fill(' ', 43 - |d|);
    Blanks(43 - |d|);
    assert l == a + ": " + d + b + " " + text + "\n";
    hide Disassembler.LineText;
    ColumnsOf(a, d, b, text);
  }

  lemma ColumnsOf(a: string, d: string, b: string, text: string)
    requires |a| == 16 && forall k :: 0 <= k < |b| ==> b[k] == ' '
    ensures var l, w := a + ": " + d + b + " " + text + "\n", |d| + |b|;
      && |l| == 18 + w + 1 + |text| + 1 && l[..16] == a && l[16..18] == ": " && l[18..18 + |d|] == d
      && (forall k :: 18 + |d| <= k < 18 + w + 1 ==> l[k] == ' ')
      && l[18 + w + 1..|l| - 1] == text && l[|l| - 1] == '\n'
  {
    var l, w := a + ": " + d + b + " " + text + "\n", |d| + |b|;
    var head := a + ": " + d;
    assert l == head + (b + " " + text + "\n");
    assert forall k :: 18 + |d| <= k < 18 + w + 1 ==> l[k] == (b + " ")[k - 18 - |d|];
  }

  lemma {:induction false} Blanks(n: int)
    ensures forall k :: 0 <= k < |Disassembler.Fill(' ', n)| ==> Disassembler.Fill(' ', n)[k] == ' '
    decreases if n < 0 then 0 else n
  {
    if n > 0 {
      Blanks(n - 1);
    }
  }
}
