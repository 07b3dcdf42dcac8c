// What the encoders append for one instruction: the bytes, and at most one field that is
// left for fixup resolution. Every branch of the C encoders named beside each function is kept.

module Encoding {
  import opened Bytes
  import opened Operands

  // A field inside the emitted bytes whose value depends on a label.
  datatype Field = Field(lbl: string, offset: nat, size: nat, relative: bool)

  datatype Emission = Emission(bytes: seq<byte>, field: Option<Field>) {
    function Before(prefix: seq<byte>): Emission {
      Emission(prefix + bytes, match field case None => None case Some(f) => Some(f.(offset := |prefix| + f.offset)))
    }

    function After(suffix: seq<byte>): Emission {
      Emission(bytes + suffix, field)
    }
  }

  function Plain(bytes: seq<byte>): Emission { Emission(bytes, None) }

  // ---- encoding core ----

  function MakeModRm(mod: int, reg: int, rm: int): byte {
    mod % 4 * 64 + reg % 8 * 8 + rm % 8
  }

  function ScaleBits(scale: int): (s: int)
    ensures 0 <= s < 4
  {
    if scale == 8 then 3 else if scale == 4 then 2 else if scale == 2 then 1 else 0
  }

  function MakeSib(scale: int, index: int, base: int): byte {
    ScaleBits(scale) * 64 + index % 8 * 8 + base % 8
  }

  function Bit(b: bool): (r: int)
    ensures 0 <= r <= 1
  {
    if b then 1 else 0
  }

  function MakeRex(w: bool, r: bool, x: bool, b: bool): byte {
    0x40 + Bit(w) * 8 + Bit(r) * 4 + Bit(x) * 2 + Bit(b)
  }

  predicate HighReg(o: Option<Operand>) {
    o.Some? && o.value.Reg? && o.value.reg >= 8
  }

  predicate HighBase(o: Option<Operand>) {
    o.Some? && o.value.Memory? && o.value.mem.base.Some? && o.value.mem.base.value >= 8
  }

  predicate HighIndex(o: Option<Operand>) {
    o.Some? && o.value.Memory? && o.value.mem.index.Some? && o.value.mem.index.value >= 8
  }

  /** emit_rex; every caller passes no separate index operand. */
  function Rex(w: bool, regOp: Option<Operand>, rm: Option<Operand>): (s: seq<byte>)
    ensures |s| <= 1
  {
    var r := HighReg(regOp);
    var x := HighIndex(rm);
    var b := HighReg(rm) || HighBase(rm);
    if !w && !r && !x && !b then [] else [MakeRex(w, r, x, b)]
  }

  /** needs_rex */
  predicate NeedsRex(o: Operand) {
    match o
    case Reg(r, size) => r >= 8 || (size == R8 && r >= 4)
    case Memory(m) => (m.base.Some? && m.base.value >= 8) || (m.index.Some? && m.index.value >= 8)
    case _ => false
  }

  predicate IsHigh8(o: Operand) { o.Reg? && o.size == R8H }

  /** check_rex_conflict and controlflow_high8_rex_conflict */
  predicate RexConflict(a: Operand, b: Operand) {
    (IsHigh8(a) || IsHigh8(b)) && (NeedsRex(a) || NeedsRex(b))
  }

  predicate ValidScale(s: int) { s == 1 || s == 2 || s == 4 || s == 8 }

  /** The operand errors of emit_modrm_sib. */
  predicate RmAccepted(o: Operand) {
    match o
    case Reg(_, _) => true
    case Memory(m) =>
      && (m.index.Some? ==> ValidScale(m.scale))
      && (m.isRip ==> m.index.None? && m.base.None?)
    case _ => false
  }

  function LabelField(lbl: string, offset: nat, relative: bool): Option<Field> {
    if lbl == "" then None else Some(Field(lbl, offset, 4, relative))
  }

  /** emit_modrm_sib, no index register */
  function ModRmBase(reg: int, m: Mem, base: Reg): seq<byte> {
    var b := base % 8;
    var sib := if b == 4 then [MakeSib(1, 4, b)] else [];
    if !m.hasDisp && b != 4 && b != 5 then [MakeModRm(0, reg, b)]
    else if !m.hasDisp && b == 5 then [MakeModRm(1, reg, 5), 0]
    else if m.hasDisp && FitsInt8(m.disp) then [MakeModRm(1, reg, b)] + sib + [m.disp % 256]
    else [MakeModRm(2, reg, b)] + sib + Le(m.disp, 4)
  }

  /** emit_modrm_sib, with an index register */
  function ModRmIndex(reg: int, m: Mem, index: Reg): seq<byte> {
    var b := if m.base.Some? then m.base.value % 8 else 5;
    var needSibDisp := (m.base.None? || b == 5) && m.disp == 0;
    if m.hasDisp && FitsInt8(m.disp) && !needSibDisp then
      [MakeModRm(1, reg, 4), MakeSib(m.scale, index, b), m.disp % 256]
    else
      var mod := if m.hasDisp || m.base.None? then 2 else 0;
      [MakeModRm(mod, reg, 4), MakeSib(m.scale, index, b)]
      + (if mod != 0 || m.base.None? then Le(m.disp, 4) else [])
  }

  function ModRmMem(reg: int, m: Mem): Emission {
    if m.isRip then
      Emission([MakeModRm(0, reg, 5)] + Le(m.disp, 4), LabelField(m.lbl, 1, true))
    else if m.base.None? && m.index.None? then
      Emission([MakeModRm(0, reg, 4), MakeSib(1, 4, 5)] + Le(m.disp, 4), LabelField(m.lbl, 2, false))
    else if m.index.None? then
      Plain(ModRmBase(reg, m, m.base.value))
    else
      Plain(ModRmIndex(reg, m, m.index.value))
  }

  /** emit_modrm_sib */
  function ModRm(reg: int, o: Operand): Option<Emission> {
    if !RmAccepted(o) then None
    else match o
      case Reg(r, _) => Some(Plain([MakeModRm(3, reg, r)]))
      case Memory(m) => Some(ModRmMem(reg, m))
  }

  /** The common tail of the encoders: prefix, REX, opcode bytes, ModRM operand, immediate bytes. */
  function Form(prefix: seq<byte>, w: bool, regOp: Option<Operand>, rm: Operand,
                opcode: seq<byte>, reg: int, imm: seq<byte>): Option<Emission> {
    var e :- ModRm(reg, rm);
    Some(e.Before(prefix + Rex(w, regOp, Some(rm)) + opcode).After(imm))
  }

  // ---- opcode tables ----

  /** The switch of encode_jcc, encode_setcc and encode_cmov. */
  function CondCode(c: Cond): (n: nat)
    ensures n < 16
  {
    match c
    case A => 0x7 case AE => 0x3 case B => 0x2 case BE => 0x6
    case E => 0x4 case G => 0xF case GE => 0xD case L => 0xC
    case LE => 0xE case NE => 0x5 case NO => 0x1 case NP => 0xB
    case NS => 0x9 case O => 0x0 case P => 0xA case S => 0x8
  }

  /** X86_GROUP1_TABLE, mnemonic to opcode extension. */
  function Group1Code(a: AluOp): (n: nat)
    ensures n < 8
  {
    match a
    case Add => 0 case Or => 1 case Adc => 2 case Sbb => 3
    case And => 4 case Sub => 5 case Xor => 6 case Cmp => 7
  }

  function UnaryCode(u: UnaryOp): (n: nat)
    ensures n < 4
  {
    match u case Inc => 0 case Dec => 1 case Not => 2 case Neg => 3
  }

  function BitCode(b: BitOp): (n: nat)
    ensures 4 <= n < 8
  {
    match b case Bt => 4 case Bts => 5 case Btr => 6 case Btc => 7
  }

  // ---- one function per C encoder ----

  function OperandSize(dst: Operand, src: Operand): RegSize {
    if dst.Reg? then dst.size else if src.Reg? then src.size else R64
  }

  /** encode_mov, register destination and immediate source */
  function MovRegImm(dst: Operand, v: int): Option<Emission>
    requires dst.Reg?
  {
    var r := dst.reg % 8;
    var w := dst.size == R64;
    if w && 0 <= v <= UINT32_MAX then
      Some(Plain((if dst.reg >= 8 then [MakeRex(false, false, false, true)] else []) + [0xB8 + r] + Le(v, 4)))
    else if w && !FitsInt32(v) then
      Some(Plain(Rex(true, Some(dst), None) + [0xB8 + r] + Le(v, 8)))
    else if w then
      Form([], true, None, dst, [0xC7], 0, Le(v, 4))
    else if dst.size == R32 then
      Some(Plain(Rex(false, Some(dst), None) + [0xB8 + r] + Le(v, 4)))
    else if dst.size == R16 then
      Some(Plain([0x66] + Rex(false, Some(dst), None) + [0xB8 + r] + Le(v, 2)))
    else if dst.size == R8H then
      Some(Plain([0xB0 + r] + [v % 256]))
    else
      Some(Plain(Rex(false, Some(dst), None) + [0xB0 + r] + [v % 256]))
  }

  /** encode_mov */
  function EncodeMov(dst: Operand, src: Operand): Option<Emission> {
    var size := OperandSize(dst, src);
    var w := size == R64;
    if RexConflict(dst, src) then None
    else if dst.Reg? && src.Label? then
      Some(Emission([MakeModRm(0, dst.reg, 5)] + Le(0, 4), Some(Field(src.name, 1, 4, true)))
           .Before(Rex(true, Some(dst), None) + [0x8B]))
    else if dst.Reg? && src.Imm? then MovRegImm(dst, src.value)
    else if dst.Reg? && src.Reg? then Form([], w, Some(src), dst, [0x89], src.reg, [])
    else if dst.Reg? && src.Memory? then Form([], w, Some(dst), src, [0x8B], dst.reg, [])
    else if dst.Memory? && src.Reg? then Form([], w, Some(src), dst, [0x89], src.reg, [])
    else if dst.Memory? && src.Imm? then
      // with an immediate source the size is always R64
      Form([], w, None, dst, [0xC7], 0, Le(src.value, 4))
    else None
  }

  /** encode_push_pop */
  function EncodePushPop(push: bool, o: Operand): Option<Emission> {
    match o
    case Reg(r, _) =>
      Some(Plain((if r >= 8 then [MakeRex(false, false, false, true)] else [])
                 + [(if push then 0x50 else 0x58) + r % 8]))
    case Imm(v) =>
      if !push then None
      else if FitsInt8(ToInt32(v)) then Some(Plain([0x6A, v % 256]))
      else Some(Plain([0x68] + Le(v, 4)))
    case Memory(m) =>
      if push then Form([], true, None, o, [0xFF], 6, []) else Form([], true, None, o, [0x8F], 0, [])
    case Label(_) => None
  }

  /** encode_arithmetic, register destination and immediate source */
  function AluRegImm(ext: nat, dst: Operand, v: int): Option<Emission>
    requires dst.Reg? && ext < 8
  {
    var w := dst.size == R64;
    var fits8 := FitsInt8(ToInt32(v));
    if dst.reg == 0 && !fits8 && (w || dst.size == R32) && (!w || FitsInt32(v)) then
      Some(Plain((if w then Rex(true, Some(dst), None) else []) + [0x05 + ext * 8] + Le(v, 4)))
    else if w && !FitsInt32(v) then None
    else
      var e :- ModRm(ext, dst);
      var rex := if w then Rex(true, None, Some(dst)) else [];
      if fits8 && dst.size != R8 then Some(e.Before(rex + [0x83]).After([v % 256]))
      else Some(e.Before(rex + [0x81]).After(Le(v, 4)))
  }

  /** encode_arithmetic */
  function EncodeAlu(a: AluOp, dst: Operand, src: Operand): Option<Emission> {
    var w := OperandSize(dst, src) == R64;
    var ext := Group1Code(a);
    if RexConflict(dst, src) then None
    else if dst.Reg? && src.Imm? then AluRegImm(ext, dst, src.value)
    else if dst.Reg? && src.Reg? then Form([], w, Some(src), dst, [0x01 + ext * 8], src.reg, [])
    else if dst.Reg? && src.Memory? then Form([], w, Some(dst), src, [0x03 + ext * 8], dst.reg, [])
    else if dst.Memory? && src.Reg? then Form([], w, Some(src), dst, [0x01 + ext * 8], src.reg, [])
    else if dst.Memory? && src.Imm? then
      if FitsInt8(ToInt32(src.value)) then Form([], w, None, dst, [0x83], ext, [src.value % 256])
      else Form([], w, None, dst, [0x81], ext, Le(src.value, 4))
    else None
  }

  function RmSize(o: Operand): RegSize { if o.Reg? then o.size else R64 }

  /** encode_unary_arithmetic */
  function EncodeUnary(u: UnaryOp, o: Operand): Option<Emission> {
    if o.Reg? || o.Memory? then
      Form([], RmSize(o) == R64, None, o, [if u.Inc? || u.Dec? then 0xFF else 0xF7], UnaryCode(u), [])
    else None
  }

  /** encode_lea */
  function EncodeLea(dst: Operand, src: Operand): Option<Emission> {
    if !dst.Reg? || !src.Memory? || dst.size == R8 || dst.size == R8H then None
    else Form(if dst.size == R16 then [0x66] else [], dst.size == R64, Some(dst), src, [0x8D], dst.reg, [])
  }

  /** encode_test */
  function EncodeTest(a: Operand, b: Operand): Option<Emission> {
    if RexConflict(a, b) then None
    else if (a.Reg? || a.Memory?) && b.Imm? then
      var size := RmSize(a);
      if a.Reg? && a.reg == 0 && size != R8 then
        Some(Plain(Rex(size == R64, None, None) + [0xA9] + Le(b.value, 4)))
      else if size == R8 then Form([], false, None, a, [0xF6], 0, [b.value % 256])
      else Form([], size == R64, None, a, [0xF7], 0, Le(b.value, 4))
    else if b.Reg? then Form([], b.size == R64, Some(b), a, [0x85], b.reg, [])
    else None
  }

  /** encode_imul */
  function EncodeImul(os: seq<Operand>): Option<Emission> {
    if |os| == 1 then Form([], RmSize(os[0]) == R64, None, os[0], [0xF7], 5, [])
    else if |os| == 2 then
      if !os[0].Reg? then None
      else Form([], os[0].size == R64, Some(os[0]), os[1], [0x0F, 0xAF], os[0].reg, [])
    else if |os| == 3 then
      if !os[0].Reg? || !os[2].Imm? then None
      else if FitsInt8(ToInt32(os[2].value)) then
        Form([], os[0].size == R64, Some(os[0]), os[1], [0x6B], os[0].reg, [os[2].value % 256])
      else Form([], os[0].size == R64, Some(os[0]), os[1], [0x69], os[0].reg, Le(os[2].value, 4))
    else None
  }

  /** encode_cmov */
  function EncodeCmov(c: Cond, dst: Operand, src: Operand): Option<Emission> {
    if !dst.Reg? || !(src.Reg? || src.Memory?) then None
    else if dst.size == R8 || dst.size == R8H || dst.size == Xmm then None
    else if src.Reg? && src.size != dst.size then None
    else Form(if dst.size == R16 then [0x66] else [], dst.size == R64, Some(dst), src,
              [0x0F, 0x40 + CondCode(c)], dst.reg, [])
  }

  /** encode_setcc */
  function EncodeSetCc(c: Cond, o: Operand): Option<Emission> {
    if !(o.Reg? || o.Memory?) then None
    else if o.Reg? && o.size != R8 && o.size != R8H then None
    else Form([], false, None, o, [0x0F, 0x90 + CondCode(c)], 0, [])
  }

  /** encode_bit_manip */
  function EncodeBits(b: BitOp, dst: Operand, src: Operand): Option<Emission> {
    var w := RmSize(dst) == R64;
    if src.Imm? then Form([], w, None, dst, [0x0F, 0xBA], BitCode(b), [src.value % 256])
    else if src.Reg? && src.reg == 1 then
      Form([], w, Some(src), dst, [0x0F, 0xA3 + (BitCode(b) - 4) * 8], src.reg, [])
    else None
  }

  /** encode_bit_scan */
  function EncodeScan(forward: bool, dst: Operand, src: Operand): Option<Emission> {
    if !dst.Reg? then None
    else Form([], dst.size == R64, Some(dst), src, [0x0F, if forward then 0xBC else 0xBD], dst.reg, [])
  }

  // ---- branches ----

  // What an encoder sees of the context: where it emits, the resolved label
  // addresses, and whether forward labels may be reached by short branches.
  datatype Env = Env(at: int, addresses: map<string, int>, forward: bool)

  /** The displacement of a short branch, when encode_jmp and encode_jcc choose one. */
  function ShortDisp(env: Env, lbl: string): Option<int> {
    if lbl in env.addresses && (env.forward || env.addresses[lbl] < env.at)
       && FitsInt8(env.addresses[lbl] - (env.at + 2))
    then Some(env.addresses[lbl] - (env.at + 2))
    else None
  }

  function NearBranch(opcode: seq<byte>, lbl: string): Emission {
    Emission(opcode + Le(0, 4), Some(Field(lbl, |opcode|, 4, true)))
  }

  /** encode_jmp */
  function EncodeJmp(o: Operand, env: Env): Option<Emission> {
    match o
    case Label(lbl) =>
      var d := ShortDisp(env, lbl);
      if d.Some? then Some(Plain([0xEB, d.value % 256])) else Some(NearBranch([0xE9], lbl))
    case Imm(_) => None
    case _ => Form([], true, None, o, [0xFF], 4, [])
  }

  /** encode_jcc */
  function EncodeJcc(c: Cond, o: Operand, env: Env): Option<Emission> {
    if !o.Label? then None
    else
      var d := ShortDisp(env, o.name);
      if d.Some? then Some(Plain([0x70 + CondCode(c), d.value % 256]))
      else Some(NearBranch([0x0F, 0x80 + CondCode(c)], o.name))
  }

  /** encode_call_ret, call */
  function EncodeCall(o: Operand): Option<Emission> {
    match o
    case Label(lbl) => Some(NearBranch([0xE8], lbl))
    case Imm(_) => None
    case _ => Form([], true, None, o, [0xFF], 2, [])
  }

  /** encode_call_ret, ret */
  function EncodeRet(os: seq<Operand>): Option<Emission> {
    if |os| == 0 then Some(Plain([0xC3]))
    else if |os| == 1 && os[0].Imm? then Some(Plain([0xC2] + Le(os[0].value, 2)))
    else None
  }

  // ---- dispatch ----

  /** The switch of encode_instruction for the modelled mnemonics. */
  function Dispatch(i: Instruction, env: Env): Option<Emission> {
    var os := i.operands;
    match i.op
    case Mov | Movzx | Movsx => if |os| == 2 then EncodeMov(os[0], os[1]) else None
    case Push => if |os| == 1 then EncodePushPop(true, os[0]) else None
    case Pop => if |os| == 1 then EncodePushPop(false, os[0]) else None
    case Lea => if |os| == 2 then EncodeLea(os[0], os[1]) else None
    case Alu(a) => if |os| == 2 then EncodeAlu(a, os[0], os[1]) else None
    case Unary(u) => if |os| == 1 then EncodeUnary(u, os[0]) else None
    case Test => if |os| == 2 then EncodeTest(os[0], os[1]) else None
    case Imul => EncodeImul(os)
    case Cmov(c) => if |os| == 2 then EncodeCmov(c, os[0], os[1]) else None
    case SetCc(c) => if |os| == 1 then EncodeSetCc(c, os[0]) else None
    case Bits(b) => if |os| == 2 then EncodeBits(b, os[0], os[1]) else None
    case Bsf => if |os| == 2 then EncodeScan(true, os[0], os[1]) else None
    case Bsr => if |os| == 2 then EncodeScan(false, os[0], os[1]) else None
    case Jmp => if |os| == 1 then EncodeJmp(os[0], env) else None
    case Jcc(c) => if |os| == 1 then EncodeJcc(c, os[0], env) else None
    case Jnz => if |os| == 1 then EncodeJcc(NE, os[0], env) else None
    case Call => if |os| == 1 then EncodeCall(os[0]) else None
    case Ret => EncodeRet(os)
    case Syscall => Some(Plain([0x0F, 0x05]))
    case Nop => if |os| == 0 then Some(Plain([0x90])) else None
    case Leave => Some(Plain([0xC9]))
    case _ => None
  }

  /** The segment overrides of the memory operands, None when two disagree. */
  function SegmentOf(os: seq<Operand>): Option<Segment> {
    if os == [] then Some(Default)
    else
      var rest :- SegmentOf(os[..|os| - 1]);
      var o := os[|os| - 1];
      if !o.Memory? || o.mem.segment == Default then Some(rest)
      else if rest != Default && rest != o.mem.segment then None
      else Some(o.mem.segment)
  }

  function SegmentPrefix(s: Segment): seq<byte> {
    match s case Default => [] case Fs => [0x64] case Gs => [0x65]
  }

  /** encode_instruction */
  function Encode(i: Instruction, env: Env): Option<Emission> {
    var segment :- SegmentOf(i.operands);
    var prefix := SegmentPrefix(segment);
    var e :- Dispatch(i, env.(at := env.at + |prefix|));
    Some(e.Before(prefix))
  }
}
