// Which address the processor forms from a ModRM operand (Intel SDM volume 2, section 2.1.5, tables 2-2 and 2-3, and
// section 2.2.1 for REX and rip-relative operands), against what the encoder meant and what the listing shows.

module Addresses {
  import opened Bytes
  import opened Operands
  import opened Encoding
  import opened Decoding
  import opened RmRoundTrip

  type Registers = s: seq<int> | |s| == 16 witness seq(16, _ => 0)

  /** The address a written operand stands for; next is the address behind the instruction. */
  function Meant(m: Mem, regs: Registers, next: int): int
    requires (m.base.Some? ==> IsGpr(m.base.value)) && (m.index.Some? ==> IsGpr(m.index.value))
  {
    (if m.base.Some? then regs[m.base.value] else 0)
    + (if m.index.Some? then regs[m.index.value] * m.scale else 0)
    + (if m.hasDisp then m.disp else 0)
    + (if m.isRip then next else 0)
  }

  /** A displacement of n bytes at q. */
  function Displacement(code: seq<byte>, q: nat, n: nat): Option<int> {
    if n == 0 && q <= |code| then Some(0)
    else if q + n <= |code| then Some(Signed(code[q..q + n]))
    else None
  }

  /** The REX bits that extend the base and the index. */
  function High(rex: byte, bit: nat): nat
    requires bit > 0
  {
    if rex / bit % 2 == 1 then 8 else 0
  }

  function ScaleOf(sib: byte): int {
    if sib / 64 == 0 then 1 else if sib / 64 == 1 then 2 else if sib / 64 == 2 then 4 else 8
  }

  /** The index of a SIB byte, scaled: number 4 is none, but for r12. */
  function Scaled(sib: byte, rex: byte, regs: Registers): int {
    var i := sib / 8 % 8 + High(rex, 2);
    if i == 4 then 0 else regs[i] * ScaleOf(sib)
  }

  /** The address that the ModRM byte at p selects; None where bytes are missing. */
  function Effective(code: seq<byte>, p: nat, rex: byte, regs: Registers, next: int): Option<int>
    requires p < |code| && code[p] / 64 != 3
  {
    var mod, rm := code[p] / 64, code[p] % 8;
    var n := if mod == 1 then 1 else if mod == 2 then 4 else 0;
    if rm == 4 then
      if p + 1 >= |code| then None
      else
        var sib := code[p + 1];
        if sib % 8 == 5 && mod == 0 then
          var d :- Displacement(code, p + 2, 4);
          Some(Scaled(sib, rex, regs) + d)
        else
          var d :- Displacement(code, p + 2, n);
          Some(regs[sib % 8 + High(rex, 1)] + Scaled(sib, rex, regs) + d)
    else if rm == 5 && mod == 0 then
      var d :- Displacement(code, p + 1, 4);
      Some(next + d)
    else
      var d :- Displacement(code, p + 1, n);
      Some(regs[rm + High(rex, 1)] + d)
  }

  // ---- the disassembler's reading ----

  /** An operand with r12 as its index. */
  predicate R12Index(code: seq<byte>, p: nat, rex: byte)
    requires p < |code|
  {
    code[p] % 8 == 4 && p + 1 < |code| && code[p + 1] / 8 % 8 == 4 && rex / 2 % 2 == 1
  }

  lemma DispRead(code: seq<byte>, q: nat, n: nat)
    ensures match ReadField(code, q, n)
      case None => Displacement(code, q, n) == None
      case Some(f) => Displacement(code, q, n) == Some(Signed(f)) && (n == 0 ==> Signed(f) == 0)
  {
    if n == 0 && q <= |code| {
      assert code[q..q] == [];
      SignedEmpty();
    }
  }

  /** The decoded operand and the address agree, up to an index r12. */
  ghost predicate SameAddress(r: Option<Rm>, a: Option<int>, lost: int, regs: Registers, next: int) {
    && (r.Some? <==> a.Some?)
    && (r.Some? ==>
          && r.value.operand.Memory?
          && (r.value.operand.mem.base.Some? ==> IsGpr(r.value.operand.mem.base.value))
          && (r.value.operand.mem.index.Some? ==> IsGpr(r.value.operand.mem.index.value))
          && a.value == Meant(r.value.operand.mem, regs, next) + lost)
  }

  lemma Displaced(code: seq<byte>, p: nat, head: nat, n: nat, base: Option<Reg>, index: Option<Reg>, scale: int,
                  rip: bool,
                  regs: Registers, next: int)
    requires n == 0 || n == 1 || n == 4
    requires (base.Some? ==> IsGpr(base.value)) && (index.Some? ==> IsGpr(index.value))
    ensures var d := Displacement(code, p + head, n);
      SameAddress(DecodeDisp(code, p, head, n, base, index, scale, rip),
                  if d.None? then None
                  else Some((if base.Some? then regs[base.value] else 0)
                            + (if index.Some? then regs[index.value] * scale else 0) + d.value
                                + (if rip then next else 0)),
                  0, regs, next)
  {
    hide Displacement, ReadField, Signed;
    DispRead(code, p + head, n);
  }

  /** The listed operand denotes the address the processor forms, except that an index r12 is not shown. */
  lemma DecodedAddress(code: seq<byte>, p: nat, rex: byte, size: RegSize, regs: Registers, next: int)
    requires p < |code| && code[p] / 64 != 3
    ensures SameAddress(DecodeRm(code, p, rex, size), Effective(code, p, rex, regs, next),
                        if R12Index(code, p, rex) then regs[12] * ScaleOf(code[p + 1]) else 0, regs, next)
  {
    hide DecodeDisp;
    var mod, rm := ModOf(code[p]), RmOf(code[p]);
    if rm == 4 {
      if p + 1 < |code| {
        DecodedSib(code, p, rex, size, regs, next);
      }
    } else if mod == 0 && rm == 5 {
      hide DispSize, R12Index;
      Displaced(code, p, 1, 4, None, None, 1, true, regs, next);
    } else {
      Displaced(code, p, 1, DispSize(mod), Some(rm + RexB(rex)), None, 1, false, regs, next);
    }
  }

  lemma DecodedSib(code: seq<byte>, p: nat, rex: byte, size: RegSize, regs: Registers, next: int)
    requires p + 1 < |code| && code[p] / 64 != 3 && code[p] % 8 == 4
    ensures SameAddress(DecodeRm(code, p, rex, size), Effective(code, p, rex, regs, next),
                        if R12Index(code, p, rex) then regs[12] * ScaleOf(code[p + 1]) else 0, regs, next)
  {
    hide DecodeDisp, Displacement;
    var mod, sib := ModOf(code[p]), code[p + 1];
    var index := if RegOf(sib) != 4 then Some(RegOf(sib) + RexX(rex)) else None;
    var noBase := mod == 0 && RmOf(sib) == 5;
    var base := if noBase then None else Some(RmOf(sib) + RexB(rex));
    var scale := if index.None? then 1 else [1, 2, 4, 8][ModOf(sib)];
    Displaced(code, p, 2, if noBase then 4 else DispSize(mod), base, index, scale, false, regs, next);
    SibIndex(sib, rex, regs);
    hide Scaled, ScaleOf;
  }

  /** The scaled index as the decoder takes it, but for r12. */
  lemma SibIndex(sib: byte, rex: byte, regs: Registers)
    ensures Scaled(sib, rex, regs)
         == (if RegOf(sib) != 4 then regs[RegOf(sib) + RexX(rex)] * [1, 2, 4, 8][ModOf(sib)] else 0)
            + (if sib / 8 % 8 == 4 && rex / 2 % 2 == 1 then regs[12] * ScaleOf(sib) else 0)
  {
  }

  // ---- what the encoder wrote ----

  lemma DispWritten(code: seq<byte>, q: nat, v: int, n: nat)
    requires (n == 1 && FitsInt8(v)) || (n == 4 && FitsInt32(v))
    requires At(code, q, Le(v, n))
    ensures Displacement(code, q, n) == Some(v)
  {
    DispField(code, q, 0, v, n);
    DispRead(code, q, n);
    hide Le, Signed, Displacement;
  }

  lemma HighBits(rex: byte, m: Mem)
    requires RexCovers(rex, Memory(m)) && WellFormed(m)
    ensures m.base.Some? ==> m.base.value == m.base.value % 8 + High(rex, 1)
    ensures m.base.None? ==> High(rex, 1) == 0
    ensures m.index.Some? ==> m.index.value == m.index.value % 8 + High(rex, 2)
    ensures m.index.None? ==> High(rex, 2) == 0
  {
    assert RexB(rex) == High(rex, 1) && RexX(rex) == High(rex, 2);
  }

  /** The fields of the two bytes, in the terms of Effective. */
  lemma Fields(mod: int, reg: int, rm: int, scale: int, index: int, base: int)
    requires 0 <= mod < 4
    ensures var b := MakeModRm(mod, reg, rm); b / 64 == mod && b % 8 == rm % 8
    ensures var s := MakeSib(scale, index, base);
      s / 8 % 8 == index % 8 && s % 8 == base % 8 && (ValidScale(scale) ==> ScaleOf(s) == scale)
  {
    ModRmFields(mod, reg, rm);
    SibFields(scale, index, base);
    assert ModOf(MakeModRm(mod, reg, rm)) == MakeModRm(mod, reg, rm) / 64;
    hide MakeModRm, MakeSib;
  }

  /** A displacement that the encoder leaves out where the tables need one: base rbp or r13, with an index. */
  predicate Swallows(m: Mem) {
    m.index.Some? && m.base.Some? && m.base.value % 8 == 5 && !m.hasDisp
  }

  /** What the address is off by: rbp joins an index without base, and an index rsp is none. */
  function Off(m: Mem, regs: Registers): int {
    (if m.index.Some? && m.base.None? then regs[5] else 0)
    - (if m.index == Some(4) then regs[4] * m.scale else 0)
  }

  lemma BaseAddress(reg: int, m: Mem, code: seq<byte>, p: nat, rex: byte, regs: Registers, next: int)
    requires WellFormed(m) && m.base.Some? && m.index.None? && !m.isRip
    requires RexCovers(rex, Memory(m)) && At(code, p, ModRmBase(reg, m, m.base.value))
    ensures p < |code| && code[p] / 64 != 3
    ensures Effective(code, p, rex, regs, next) == Some(Meant(m, regs, next))
  {
    hide MakeModRm, MakeSib, Le, Signed, Displacement, RexCovers, ScaleOf;
    var s := ModRmBase(reg, m, m.base.value);
    var b := m.base.value % 8;
    var n := if !m.hasDisp then (if b == 5 then 1 else if b == 4 then 4 else 0) else if FitsInt8(m.disp) then 1 else 4;
    var mod := if n == 0 then 0 else if n == 1 then 1 else 2;
    var sib := if b == 4 then [MakeSib(1, 4, b)] else [];
    var disp := if n == 0 then [] else Le(m.disp, n);
    Le1(m.disp);
    Fields(mod, reg, b, 1, 4, b);
    HighBits(rex, m);
    assert s == ([MakeModRm(mod, reg, b)] + sib) + disp;
    AtByte(code, p, s, 0);
    if b == 4 {
      AtByte(code, p, s, 1);
    }
    AtSplit(code, p, [MakeModRm(mod, reg, b)] + sib, disp);
    var q := p + 1 + |sib|;
    if n == 0 {
      DispRead(code, q, 0);
      NoDisp(code, q);
    } else {
      DispWritten(code, q, m.disp, n);
    }
  }

  lemma NoDisp(code: seq<byte>, q: nat)
    requires q <= |code|
    ensures Displacement(code, q, 0) == Some(0)
  {
  }

  lemma PlainAddress(reg: int, m: Mem, code: seq<byte>, p: nat, rex: byte, regs: Registers, next: int)
    requires WellFormed(m) && m.base.None? && m.index.None? && (m.hasDisp || m.disp == 0)
    requires RexCovers(rex, Memory(m)) && At(code, p, ModRmMem(reg, m).bytes)
    ensures p < |code| && code[p] / 64 != 3
    ensures Effective(code, p, rex, regs, next) == Some(Meant(m, regs, next))
  {
    hide MakeModRm, MakeSib, Le, Signed, Displacement, ScaleOf, RexCovers;
    HighBits(rex, m);
    var s := ModRmMem(reg, m).bytes;
    var head := if m.isRip then 1 else 2;
    AtByte(code, p, s, 0);
    AtByte(code, p, s, 1);
    Fields(0, reg, if m.isRip then 5 else 4, 1, 4, 5);
    assert s == s[..head] + Le(m.disp, 4);
    AtSplit(code, p, s[..head], Le(m.disp, 4));
    DispWritten(code, p + head, m.disp, 4);
  }

  lemma ScaledIndex(sib: byte, rex: byte, regs: Registers, m: Mem)
    requires m.index.Some? && IsGpr(m.index.value) && m.index.value == sib / 8 % 8 + High(rex, 2)
        && ScaleOf(sib) == m.scale
    ensures Scaled(sib, rex, regs)
         == regs[m.index.value] * m.scale - (if m.index == Some(4) then regs[4] * m.scale else 0)
  {
  }

  /** How many displacement bytes follow an indexed operand, by its own account. */
  function IndexDisp(m: Mem): nat {
    if !m.hasDisp && m.base.Some? then 0
    else if m.hasDisp && FitsInt8(m.disp) && !((m.base.None? || m.base.value % 8 == 5) && m.disp == 0) then 1
    else 4
  }

  lemma IndexBytes(reg: int, m: Mem)
    requires m.index.Some?
    ensures var n := IndexDisp(m); var mod := if n == 0 then 0 else if n == 1 then 1 else 2;
      ModRmIndex(reg, m, m.index.value)
      == [MakeModRm(mod, reg, 4), MakeSib(m.scale, m.index.value, if m.base.Some? then m.base.value % 8 else 5)]
         + (if n == 0 then [] else Le(m.disp, n))
  {
    hide MakeModRm, MakeSib;
    Le1(m.disp);
  }

  lemma IndexAddress(reg: int, m: Mem, code: seq<byte>, p: nat, rex: byte, regs: Registers, next: int)
    requires WellFormed(m) && m.index.Some? && !m.isRip && ValidScale(m.scale)
    requires RexCovers(rex, Memory(m)) && At(code, p, ModRmIndex(reg, m, m.index.value))
    ensures p + 1 < |code| && code[p] / 64 != 3
    ensures var a := Effective(code, p, rex, regs, next);
      if Swallows(m) then
        match Displacement(code, p + 2, 4)
        case None => a == None
        case Some(d) => a == Some(Meant(m, regs, next) + Off(m, regs) - regs[m.base.value] + d)
      else a == Some(Meant(m, regs, next) + Off(m, regs))
  {
    hide MakeModRm, MakeSib, Le, Signed, Displacement, RexCovers, ScaleOf, ModRmIndex, Scaled, High, ValidScale;
    IndexBytes(reg, m);
    var s := ModRmIndex(reg, m, m.index.value);
    var n := IndexDisp(m);
    var mod := if n == 0 then 0 else if n == 1 then 1 else 2;
    var b := if m.base.Some? then m.base.value % 8 else 5;
    var head := [MakeModRm(mod, reg, 4), MakeSib(m.scale, m.index.value, b)];
    Fields(mod, reg, 4, m.scale, m.index.value, b);
    HighBits(rex, m);
    AtByte(code, p, s, 0);
    AtByte(code, p, s, 1);
    AtSplit(code, p, head, if n == 0 then [] else Le(m.disp, n));
    hide At;
    if n == 0 {
      NoDisp(code, p + 2);
    } else {
      DispWritten(code, p + 2, m.disp, n);
    }
    SibAddress(m, code, p, rex, regs, next);
  }

  /** From the two bytes and the displacement behind them. */
  lemma SibAddress(m: Mem, code: seq<byte>, p: nat, rex: byte, regs: Registers, next: int)
    requires WellFormed(m) && m.index.Some? && !m.isRip && p + 1 < |code|
    requires var n := IndexDisp(m);
      && code[p] / 64 == (if n == 0 then 0 else if n == 1 then 1 else 2) && code[p] % 8 == 4
      && Displacement(code, p + 2, n) == Some(if n == 0 then 0 else m.disp)
    requires code[p + 1] % 8 == (if m.base.Some? then m.base.value % 8 else 5)
    requires m.base.Some? ==> m.base.value == m.base.value % 8 + High(rex, 1)
    requires m.base.None? ==> High(rex, 1) == 0
    requires m.index.value == code[p + 1] / 8 % 8 + High(rex, 2) && ScaleOf(code[p + 1]) == m.scale
    ensures var a := Effective(code, p, rex, regs, next);
      if Swallows(m) then
        match Displacement(code, p + 2, 4)
        case None => a == None
        case Some(d) => a == Some(Meant(m, regs, next) + Off(m, regs) - regs[m.base.value] + d)
      else a == Some(Meant(m, regs, next) + Off(m, regs))
  {
    hide Displacement, ScaleOf, Scaled, High;
    ScaledIndex(code[p + 1], rex, regs, m);
    var scaled := regs[m.index.value] * m.scale;
    var lost := regs[4] * m.scale;
    assert m.index == Some(4) ==> scaled == lost;
  }

  /**
   * The address formed from the bytes of any accepted operand: the one that was written, but for rbp joining an index
   * without base, an index rsp that is none, and a base rbp or r13 that is lost, with the four bytes behind
   * taken for a displacement, where an index and no displacement stand beside it.
   */
  lemma EncodedAddress(reg: int, m: Mem, code: seq<byte>, p: nat, rex: byte, regs: Registers, next: int)
    requires WellFormed(m) && RmAccepted(Memory(m))
    requires RexCovers(rex, Memory(m)) && At(code, p, ModRmMem(reg, m).bytes)
    ensures p < |code| && code[p] / 64 != 3
    ensures var a := Effective(code, p, rex, regs, next);
      if Swallows(m) then
        match Displacement(code, p + 2, 4)
        case None => a == None
        case Some(d) => a == Some(Meant(m, regs, next) + Off(m, regs) - regs[m.base.value] + d)
      else a == Some(Meant(m, regs, next) + Off(m, regs))
  {
    hide ModRmBase, ModRmIndex, Effective, At, RexCovers;
    if m.base.None? && m.index.None? {
      hide ModRmMem;
      PlainAddress(reg, m, code, p, rex, regs, next);
    } else if m.index.None? {
      BaseAddress(reg, m, code, p, rex, regs, next);
    } else {
      IndexAddress(reg, m, code, p, rex, regs, next);
    }
  }

  /** The operands whose address is formed as written. */
  predicate Addressable(m: Mem) {
    m.index.Some? ==> m.base.Some? && m.index.value != 4 && (m.base.value % 8 == 5 ==> m.hasDisp)
  }

  /** That is so in every state of the registers exactly for these. */
  lemma AddressKept(reg: int, m: Mem, code: seq<byte>, p: nat, rex: byte, next: int)
    requires WellFormed(m) && RmAccepted(Memory(m))
    requires RexCovers(rex, Memory(m)) && At(code, p, ModRmMem(reg, m).bytes)
    ensures p < |code| && code[p] / 64 != 3
    ensures (forall regs :: Effective(code, p, rex, regs, next) == Some(Meant(m, regs, next))) <==> Addressable(m)
  {
    hide ModRmMem, Effective, At, RexCovers, Displacement, WellFormed;
    GprOf(m);
    var zero: Registers := seq(16, _ => 0);
    EncodedAddress(reg, m, code, p, rex, zero, next);
    if Addressable(m) {
      forall regs: Registers
        ensures Effective(code, p, rex, regs, next) == Some(Meant(m, regs, next))
      {
        EncodedAddress(reg, m, code, p, rex, regs, next);
      }
    } else {
      var r := if m.base.None? then 5 else if Swallows(m) then m.base.value else 4;
      var one: Registers := zero[r := 1];
      EncodedAddress(reg, m, code, p, rex, one, next);
      assert Effective(code, p, rex, zero, next) != Some(Meant(m, zero, next))
        || Effective(code, p, rex, one, next) != Some(Meant(m, one, next));
    }
  }

  lemma GprOf(m: Mem)
    requires WellFormed(m)
    ensures (m.base.Some? ==> IsGpr(m.base.value)) && (m.index.Some? ==> IsGpr(m.index.value))
    ensures !m.hasDisp ==> m.disp == 0
  {
  }
}
