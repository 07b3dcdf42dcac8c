// Registers, operands and instructions, shared by the assembler and the disassembler.

module Operands {
  import opened Bytes

  datatype Option<+T> = None | Some(value: T) {
    predicate IsFailure() { None? }

    function PropagateFailure<U>(): Option<U>
      requires None?
    {
      None
    }

    function Extract(): T
      requires Some?
    {
      value
    }
  }

  datatype RegSize = R8 | R8H | R16 | R32 | R64 | Xmm

  // Register numbers: 0..15 general purpose, 16..31 xmm, 32 rip.
  type Reg = r: int | 0 <= r <= 32

  const RIP: Reg := 32

  predicate IsGpr(r: Reg) { r < 16 }

  datatype Segment = Default | Fs | Gs

  // A memory operand as the parser fills it in; None stands for a cleared has_base or has_index.
  datatype Mem = Mem(
    base: Option<Reg>,
    index: Option<Reg>,
    scale: int,
    disp: int,
    hasDisp: bool,
    isAbsolute: bool,
    isRip: bool,
    segment: Segment,
    lbl: string)

  datatype Operand =
    | Reg(reg: Reg, size: RegSize)
    | Imm(value: int)
    | Memory(mem: Mem)
    | Label(name: string)

  datatype Cond = O | NO | B | AE | E | NE | BE | A | S | NS | P | NP | L | GE | LE | G

  datatype AluOp = Add | Or | Adc | Sbb | And | Sub | Xor | Cmp

  datatype BitOp = Bt | Bts | Btr | Btc

  datatype UnaryOp = Inc | Dec | Not | Neg

  datatype ShiftOp = Rol | Ror | Shl | Shr | Sar

  // Jnz is a mnemonic of its own in the sources, a synonym of Jcc(NE).
  // The last line holds what only the disassembler produces.
  datatype Op =
    | Mov | Push | Pop | Lea | Alu(alu: AluOp) | Unary(un: UnaryOp) | Test | Imul
    | Cmov(cc: Cond) | SetCc(cc: Cond) | Bits(bit: BitOp) | Bsf | Bsr
    | Jmp | Jcc(cc: Cond) | Jnz | Call | Ret | Syscall | Nop | Leave
    | Movzx | Movsx | Movsxd | Xadd | Cmpxchg | Shift(sh: ShiftOp) | Db

  datatype Instruction = Instruction(op: Op, operands: seq<Operand>)

  /** The 64-bit view of register r. */
  function Gpr(r: Reg): Operand { Reg(r, R64) }

  const NO_MEM: Mem := Mem(None, None, 1, 0, false, false, false, Default, "")
}
