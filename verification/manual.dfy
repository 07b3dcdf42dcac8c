// The opcode map of the instruction set, as far as the assembler or the disassembler uses it, written out
// byte by byte (Intel SDM volume 2, appendix A, and the instruction reference). Both programs are compared
// with it: what the bytes an encoder appends mean to the processor, and what the listing calls them.

module Manual {
  import opened Bytes
  import opened Operands
  import opened Decoding

  // Eight, sixteen or sixty-four bits, or the operand size: 64 with REX.W, else 16 behind 0x66, else 32.
  datatype Width = Byte | Word | Dword | Qword | Sized

  // Where an operand comes from: the ModRM operand, the register field of ModRM, the low bits of the opcode,
  // rAX, an immediate behind the rest, or a displacement.
  datatype Slot =
    | OfRm(w: Width) | OfReg(w: Width) | OfOpcode(w: Width) | OfAx(w: Width)
    | OfImm(n: Count) | OfRel(n: Count)

  // The bytes of an immediate or displacement: one taken as signed or unsigned, two, four (two behind 0x66 without
  // REX.W), four always, or eight with REX.W. What 0x66 does to push, pop and branches is not distinguished.
  datatype Count = Signed8 | Unsigned8 | Two | Four | Near | Full

  datatype Row = Row(word: string, slots: seq<Slot>)

  const ARITHMETIC: seq<string> := ["add", "or", "adc", "sbb", "and", "sub", "xor", "cmp"]

  const CONDITION: seq<string> :=
    ["o", "no", "b", "ae", "e", "ne", "be", "a", "s", "ns", "p", "np", "l", "ge", "le", "g"]

  /** The one-byte opcodes; ext is the register field of the ModRM byte, where the opcode needs it. */
  function OneByte(op: byte, ext: nat): Option<Row>
    requires ext < 8
  {
    if op < 0x40 && op % 8 == 0x01 then Some(Row(ARITHMETIC[op / 8], [OfRm(Sized), OfReg(Sized)]))
    else if op < 0x40 && op % 8 == 0x03 then Some(Row(ARITHMETIC[op / 8], [OfReg(Sized), OfRm(Sized)]))
    else if op < 0x40 && op % 8 == 0x05 then Some(Row(ARITHMETIC[op / 8], [OfAx(Sized), OfImm(Four)]))
    else if 0x50 <= op < 0x58 then Some(Row("push", [OfOpcode(Qword)]))
    else if 0x58 <= op < 0x60 then Some(Row("pop", [OfOpcode(Qword)]))
    else if op == 0x63 then Some(Row("movsxd", [OfReg(Qword), OfRm(Dword)]))
    else if op == 0x68 then Some(Row("push", [OfImm(Four)]))
    else if op == 0x69 then Some(Row("imul", [OfReg(Sized), OfRm(Sized), OfImm(Four)]))
    else if op == 0x6A then Some(Row("push", [OfImm(Signed8)]))
    else if op == 0x6B then Some(Row("imul", [OfReg(Sized), OfRm(Sized), OfImm(Signed8)]))
    else if 0x70 <= op < 0x80 then Some(Row("j" + CONDITION[op - 0x70], [OfRel(Signed8)]))
    else if op == 0x80 then Some(Row(ARITHMETIC[ext], [OfRm(Byte), OfImm(Unsigned8)]))
    else if op == 0x81 then Some(Row(ARITHMETIC[ext], [OfRm(Sized), OfImm(Four)]))
    else if op == 0x83 then Some(Row(ARITHMETIC[ext], [OfRm(Sized), OfImm(Signed8)]))
    else if op == 0x85 then Some(Row("test", [OfRm(Sized), OfReg(Sized)]))
    else if op == 0x88 then Some(Row("mov", [OfRm(Byte), OfReg(Byte)]))
    else if op == 0x89 then Some(Row("mov", [OfRm(Sized), OfReg(Sized)]))
    else if op == 0x8A then Some(Row("mov", [OfReg(Byte), OfRm(Byte)]))
    else if op == 0x8B then Some(Row("mov", [OfReg(Sized), OfRm(Sized)]))
    else if op == 0x8D then Some(Row("lea", [OfReg(Sized), OfRm(Sized)]))
    else if op == 0x8F then if ext == 0 then Some(Row("pop", [OfRm(Qword)])) else None
    else if op == 0x90 then Some(Row("nop", []))
    else if op == 0xA9 then Some(Row("test", [OfAx(Sized), OfImm(Four)]))
    else if 0xB0 <= op < 0xB8 then Some(Row("mov", [OfOpcode(Byte), OfImm(Unsigned8)]))
    else if 0xB8 <= op < 0xC0 then Some(Row("mov", [OfOpcode(Sized), OfImm(Full)]))
    else if op == 0xC0 then ShiftGroup(Byte, ext)
    else if op == 0xC1 then ShiftGroup(Sized, ext)
    else if op == 0xC2 then Some(Row("ret", [OfImm(Two)]))
    else if op == 0xC3 then Some(Row("ret", []))
    else if op == 0xC7 then if ext == 0 then Some(Row("mov", [OfRm(Sized), OfImm(Four)])) else None
    else if op == 0xC9 then Some(Row("leave", []))
    else if op == 0xE8 then Some(Row("call", [OfRel(Near)]))
    else if op == 0xE9 then Some(Row("jmp", [OfRel(Near)]))
    else if op == 0xEB then Some(Row("jmp", [OfRel(Signed8)]))
    else if op == 0xF6 then TestGroup(Byte, Unsigned8, ext)
    else if op == 0xF7 then TestGroup(Sized, Four, ext)
    else if op == 0xFF then
      if ext == 0 then Some(Row("inc", [OfRm(Sized)]))
      else if ext == 1 then Some(Row("dec", [OfRm(Sized)]))
      else if ext == 2 then Some(Row("call", [OfRm(Qword)]))
      else if ext == 4 then Some(Row("jmp", [OfRm(Qword)]))
      else if ext == 6 then Some(Row("push", [OfRm(Qword)]))
      else None
    else None
  }

  function ShiftGroup(w: Width, ext: nat): Option<Row> {
    if ext == 0 then Some(Row("rol", [OfRm(w), OfImm(Unsigned8)]))
    else if ext == 1 then Some(Row("ror", [OfRm(w), OfImm(Unsigned8)]))
    else if ext == 4 then Some(Row("shl", [OfRm(w), OfImm(Unsigned8)]))
    else if ext == 5 then Some(Row("shr", [OfRm(w), OfImm(Unsigned8)]))
    else if ext == 7 then Some(Row("sar", [OfRm(w), OfImm(Unsigned8)]))
    else None
  }

  function TestGroup(w: Width, n: Count, ext: nat): Option<Row> {
    if ext == 0 then Some(Row("test", [OfRm(w), OfImm(n)]))
    else if ext == 2 then Some(Row("not", [OfRm(w)]))
    else if ext == 3 then Some(Row("neg", [OfRm(w)]))
    else if ext == 5 then Some(Row("imul", [OfRm(w)]))
    else None
  }

  /** The opcodes behind 0x0f. */
  function TwoByte(op: byte, ext: nat): Option<Row>
    requires ext < 8
  {
    if op == 0x05 then Some(Row("syscall", []))
    else if op == 0x1F then if ext == 0 then Some(Row("nop", [OfRm(Dword)])) else None
    else if 0x40 <= op < 0x50 then Some(Row("cmov" + CONDITION[op - 0x40], [OfReg(Sized), OfRm(Sized)]))
    else if 0x80 <= op < 0x90 then Some(Row("j" + CONDITION[op - 0x80], [OfRel(Near)]))
    else if 0x90 <= op < 0xA0 then Some(Row("set" + CONDITION[op - 0x90], [OfRm(Byte)]))
    else if op == 0xA3 then Some(Row("bt", [OfRm(Sized), OfReg(Sized)]))
    else if op == 0xAB then Some(Row("bts", [OfRm(Sized), OfReg(Sized)]))
    else if op == 0xAF then Some(Row("imul", [OfReg(Sized), OfRm(Sized)]))
    else if op == 0xB0 then Some(Row("cmpxchg", [OfRm(Byte), OfReg(Byte)]))
    else if op == 0xB1 then Some(Row("cmpxchg", [OfRm(Sized), OfReg(Sized)]))
    else if op == 0xB3 then Some(Row("btr", [OfRm(Sized), OfReg(Sized)]))
    else if op == 0xB6 then Some(Row("movzx", [OfReg(Sized), OfRm(Byte)]))
    else if op == 0xB7 then Some(Row("movzx", [OfReg(Sized), OfRm(Word)]))
    else if op == 0xBA then
      if ext == 4 then Some(Row("bt", [OfRm(Sized), OfImm(Unsigned8)]))
      else if ext == 5 then Some(Row("bts", [OfRm(Sized), OfImm(Unsigned8)]))
      else if ext == 6 then Some(Row("btr", [OfRm(Sized), OfImm(Unsigned8)]))
      else if ext == 7 then Some(Row("btc", [OfRm(Sized), OfImm(Unsigned8)]))
      else None
    else if op == 0xBB then Some(Row("btc", [OfRm(Sized), OfReg(Sized)]))
    else if op == 0xBC then Some(Row("bsf", [OfReg(Sized), OfRm(Sized)]))
    else if op == 0xBD then Some(Row("bsr", [OfReg(Sized), OfRm(Sized)]))
    else if op == 0xBE then Some(Row("movsx", [OfReg(Sized), OfRm(Byte)]))
    else if op == 0xBF then Some(Row("movsx", [OfReg(Sized), OfRm(Word)]))
    else if op == 0xC0 then Some(Row("xadd", [OfRm(Byte), OfReg(Byte)]))
    else if op == 0xC1 then Some(Row("xadd", [OfRm(Sized), OfReg(Sized)]))
    else None
  }

  // ---- reading the operands ----

  // Where the operands of an opcode stand: the code, the position behind the opcode, the opcode, and the prefixes.
  datatype Place = Place(code: seq<byte>, p: nat, op: byte, rex: byte, narrow: bool)

  function SizeOf(w: Width, at: Place): RegSize {
    match w
    case Byte => R8
    case Word => R16
    case Dword => R32
    case Qword => R64
    case Sized => if RexW(at.rex) then R64 else if at.narrow then R16 else R32
  }

  function CountOf(n: Count, at: Place): nat {
    match n
    case Signed8 | Unsigned8 => 1
    case Two => 2
    case Near => 4
    case Four => if at.narrow && !RexW(at.rex) then 2 else 4
    case Full => if RexW(at.rex) then 8 else if at.narrow then 2 else 4
  }

  /** The length of the ModRM operand, 0 where the row has none; None when the bytes run out. */
  function RmLength(slots: seq<Slot>, at: Place): Option<nat> {
    if slots == [] then Some(0)
    else if slots[0].OfRm? then
      var rm :- DecodeRm(at.code, at.p, at.rex, SizeOf(slots[0].w, at));
      Some(rm.length)
    else RmLength(slots[1..], at)
  }

  /** The number of immediate or displacement bytes. */
  function FieldLength(slots: seq<Slot>, at: Place): nat {
    if slots == [] then 0
    else if slots[0].OfImm? || slots[0].OfRel? then CountOf(slots[0].n, at)
    else FieldLength(slots[1..], at)
  }

  function Register(number: int, w: Width, at: Place): Operand
    requires 0 <= number < 16
  {
    SelectReg(number, SizeOf(w, at), at.rex != 0)
  }

  /** One operand; next is the address of the next instruction. */
  function OperandOf(slot: Slot, at: Place, field: seq<byte>, next: int): Operand {
    match slot
    case OfRm(w) =>
      var rm := DecodeRm(at.code, at.p, at.rex, SizeOf(w, at));
      if rm.Some? then rm.value.operand else Imm(0)
    case OfReg(w) => if at.p < |at.code| then Register(RegOf(at.code[at.p]) + RexR(at.rex), w, at) else Imm(0)
    case OfOpcode(w) => Register(at.op % 8 + RexB(at.rex), w, at)
    case OfAx(w) => Register(0, w, at)
    case OfImm(n) => Imm(if n == Signed8 then Signed(field) else Unsigned(field))
    case OfRel(n) => Imm((next + Signed(field)) % TWO64)
  }

  function OperandsOf(slots: seq<Slot>, at: Place, field: seq<byte>, next: int): (os: seq<Operand>)
    ensures |os| == |slots|
  {
    if slots == [] then [] else [OperandOf(slots[0], at, field, next)] + OperandsOf(slots[1..], at, field, next)
  }

  // The operands of a row and the position behind them.
  datatype Reading = Reading(operands: seq<Operand>, end: nat, field: seq<byte>)

  /** The operands as the bytes give them; base is the address of the code. */
  function Read(slots: seq<Slot>, at: Place, base: int): Option<Reading> {
    var length :- RmLength(slots, at);
    var n := FieldLength(slots, at);
    var field :- ReadField(at.code, at.p + length, n);
    var end := at.p + length + n;
    Some(Reading(OperandsOf(slots, at, field, base + end), end, field))
  }
}
