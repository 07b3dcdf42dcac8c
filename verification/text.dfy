// Numbers and registers as text, and the listing text of an instruction.

module Text {
  import opened Bytes
  import opened Operands

  // ---- digits ----

  const HEX_DIGITS: string := "0123456789abcdef"

  function Digit(d: int): char
    requires 0 <= d < 16
  {
    HEX_DIGITS[d]
  }

  predicate IsDecDigit(c: char) { '0' <= c <= '9' }

  predicate IsHexDigit(c: char) { IsDecDigit(c) || 'a' <= c <= 'f' || 'A' <= c <= 'F' }

  function DigitValue(c: char): (d: int)
    requires IsHexDigit(c)
    ensures 0 <= d < 16
  {
    if IsDecDigit(c) then c as int - '0' as int
    else if 'a' <= c <= 'f' then c as int - 'a' as int + 10
    else c as int - 'A' as int + 10
  }

  // The number bases of the sources: binary, decimal and hexadecimal.
  type Base = b: int | b == 2 || b == 10 || b == 16 witness 10

  function Quotient(n: nat, b: Base): nat {
    if b == 2 then n / 2 else if b == 10 then n / 10 else n / 16
  }

  function LastDigit(n: nat, b: Base): (d: int)
    ensures 0 <= d < b
  {
    if b == 2 then n % 2 else if b == 10 then n % 10 else n % 16
  }

  function Shifted(n: nat, d: nat, b: Base): (r: nat)
    ensures d < b ==> Quotient(r, b) == n && LastDigit(r, b) == d
    ensures r >= n
  {
    if b == 2 then n * 2 + d else if b == 10 then n * 10 + d else n * 16 + d
  }

  predicate IsDigitOf(c: char, b: Base) { IsHexDigit(c) && DigitValue(c) < b }

  predicate AllDigits(s: string, b: Base) { forall k :: 0 <= k < |s| ==> IsDigitOf(s[k], b) }

  /** printf %llx for base 16 and %d for base 10 */
  function Digits(n: nat, b: Base): (s: string)
    ensures s != [] && AllDigits(s, b)
    decreases n
  {
    if n < b then [Digit(n)] else Digits(Quotient(n, b), b) + [Digit(LastDigit(n, b))]
  }

  /** The value of a digit string in base b, most significant first. */
  function DigitsValue(s: string, b: Base): (n: nat)
    requires AllDigits(s, b)
  {
    if s == [] then 0 else Shifted(DigitsValue(s[..|s| - 1], b), DigitValue(s[|s| - 1]), b)
  }

  lemma DigitsInverse(n: nat, b: Base)
    ensures DigitsValue(Digits(n, b), b) == n
    decreases n
  {
    hide IsHexDigit, IsDecDigit, DigitValue, Digit, Quotient, LastDigit, Shifted;
    var s := Digits(n, b);
    DigitText(LastDigit(n, b));
    Recompose(n, b);
    if n < b {
      assert s[..0] == [];
    } else {
      assert s[..|s| - 1] == Digits(Quotient(n, b), b);
      DigitsInverse(Quotient(n, b), b);
    }
  }

  lemma DigitText(d: int)
    requires 0 <= d < 16
    ensures IsHexDigit(Digit(d)) && DigitValue(Digit(d)) == d
  {
  }

  lemma Recompose(n: nat, b: Base)
    ensures Shifted(Quotient(n, b), LastDigit(n, b), b) == n
    ensures n < b ==> LastDigit(n, b) == n && Quotient(n, b) == 0
    ensures n >= b ==> Quotient(n, b) < n
  {
  }

  lemma DigitsInjective(m: nat, n: nat, b: Base)
    requires Digits(m, b) == Digits(n, b)
    ensures m == n
  {
    DigitsInverse(m, b);
    DigitsInverse(n, b);
  }

  function Hex(n: nat): string { Digits(n, 16) }

  // ---- registers ----

  const REG64: seq<string> :=
    ["rax", "rcx", "rdx", "rbx", "rsp", "rbp", "rsi", "rdi",
     "r8", "r9", "r10", "r11", "r12", "r13", "r14", "r15"]
  const REG32: seq<string> :=
    ["eax", "ecx", "edx", "ebx", "esp", "ebp", "esi", "edi",
     "r8d", "r9d", "r10d", "r11d", "r12d", "r13d", "r14d", "r15d"]
  const REG16: seq<string> :=
    ["ax", "cx", "dx", "bx", "sp", "bp", "si", "di",
     "r8w", "r9w", "r10w", "r11w", "r12w", "r13w", "r14w", "r15w"]
  const REG8: seq<string> :=
    ["al", "cl", "dl", "bl", "spl", "bpl", "sil", "dil",
     "r8b", "r9b", "r10b", "r11b", "r12b", "r13b", "r14b", "r15b"]
  const REG8H: seq<string> := ["ah", "ch", "dh", "bh"]
  const XMM: seq<string> :=
    ["xmm0", "xmm1", "xmm2", "xmm3", "xmm4", "xmm5", "xmm6", "xmm7",
     "xmm8", "xmm9", "xmm10", "xmm11", "xmm12", "xmm13", "xmm14", "xmm15"]

  /** register_name; for the registers a decoder can produce it agrees with reg64_name .. reg8_name */
  function RegName(r: Reg, size: RegSize): string {
    if size == R64 && r < 16 then REG64[r]
    else if size == R32 && r < 16 then REG32[r]
    else if size == R16 && r < 16 then REG16[r]
    else if size == R8 && r < 16 then REG8[r]
    else if size == R8H && 4 <= r < 8 then REG8H[r - 4]
    else if size == R64 && r == RIP then "rip"
    else if size == Xmm && 16 <= r < 32 then XMM[r - 16]
    else "???"
  }

  // ---- operands ----

  /** append_with_sign, and the displacement part of format_rm_operand */
  function SignedHex(v: int): string {
    if v < 0 then "-0x" + Hex(-v) else "+0x" + Hex(v)
  }

  function ScaleDigit(s: int): string {
    if s == 8 then "8" else if s == 4 then "4" else if s == 2 then "2" else "1"
  }

  /** The text built by format_rm_operand for a memory operand. */
  function RenderMem(m: Mem): string {
    if m.isRip then "[rip" + SignedHex(m.disp) + "]"
    else
      "[" + (if m.base.Some? then RegName(m.base.value, R64) else "")
      + (if m.index.Some? then
           (if m.base.Some? then "+" else "") + RegName(m.index.value, R64) + "*" + ScaleDigit(m.scale)
         else "")
      + (if !m.hasDisp then ""
         else if m.base.None? && m.index.None? then "0x" + Hex(m.disp % TWO32)
         else SignedHex(m.disp))
      + "]"
  }

  function RenderImm(v: int): string {
    if v < 0 then "-0x" + Hex(-v) else "0x" + Hex(v)
  }

  function RenderOperand(o: Operand): string {
    match o
    case Reg(r, size) => RegName(r, size)
    case Imm(v) => RenderImm(v)
    case Memory(m) => RenderMem(m)
    case Label(name) => name
  }

  // ---- instructions ----

  function CondText(c: Cond): string {
    match c
    case O => "o" case NO => "no" case B => "b" case AE => "ae"
    case E => "e" case NE => "ne" case BE => "be" case A => "a"
    case S => "s" case NS => "ns" case P => "p" case NP => "np"
    case L => "l" case GE => "ge" case LE => "le" case G => "g"
  }

  function OpText(op: Op): string {
    match op
    case Mov => "mov" case Push => "push" case Pop => "pop" case Lea => "lea"
    case Alu(Add) => "add" case Alu(Or) => "or" case Alu(Adc) => "adc" case Alu(Sbb) => "sbb"
    case Alu(And) => "and" case Alu(Sub) => "sub" case Alu(Xor) => "xor" case Alu(Cmp) => "cmp"
    case Unary(Inc) => "inc" case Unary(Dec) => "dec" case Unary(Not) => "not" case Unary(Neg) => "neg"
    case Test => "test" case Imul => "imul"
    case Cmov(c) => "cmov" + CondText(c)
    case SetCc(c) => "set" + CondText(c)
    case Bits(Bt) => "bt" case Bits(Bts) => "bts" case Bits(Btr) => "btr" case Bits(Btc) => "btc"
    case Bsf => "bsf" case Bsr => "bsr"
    case Jmp => "jmp" case Jcc(c) => "j" + CondText(c) case Jnz => "jnz"
    case Call => "call" case Ret => "ret" case Syscall => "syscall" case Nop => "nop" case Leave => "leave"
    case Movzx => "movzx" case Movsx => "movsx" case Movsxd => "movsxd"
    case Xadd => "xadd" case Cmpxchg => "cmpxchg"
    case Shift(Rol) => "rol" case Shift(Ror) => "ror" case Shift(Shl) => "shl"
    case Shift(Shr) => "shr" case Shift(Sar) => "sar"
    case Db => "db"
  }

  function JoinOperands(os: seq<Operand>): string {
    if os == [] then ""
    else if |os| == 1 then RenderOperand(os[0])
    else RenderOperand(os[0]) + ", " + JoinOperands(os[1..])
  }

  /** The text column of the listing; a db byte always has two digits. */
  function RenderInst(i: Instruction): string {
    if i.op == Db && |i.operands| == 1 && i.operands[0].Imm? && 0 <= i.operands[0].value < 16 then
      "db 0x0" + Hex(i.operands[0].value)
    else if i.operands == [] then OpText(i.op)
    else OpText(i.op) + " " + JoinOperands(i.operands)
  }
}
