// emit_rex and emit_modrm_sib are undone by format_rm_operand exactly on the operands of
// RoundTrips, whatever bytes follow.

module RmRoundTrip {
  import opened Bytes
  import opened Operands
  import opened Encoding
  import opened Decoding

  /** What a memory operand denotes: an absent displacement counts as 0, and the scale matters only with an index. */
  function MemView(m: Mem): Mem {
    Mem(m.base, m.index, if m.index.Some? then m.scale else 1, if m.hasDisp then m.disp else 0,
        false, false, m.isRip, Default, "")
  }

  function View(o: Operand): Operand {
    if o.Memory? then Memory(MemView(o.mem)) else o
  }

  /**
   * Register numbers of general registers and an int32 displacement that is 0 when absent, as the parser builds
   * them.
   */
  predicate WellFormed(m: Mem) {
    && (m.base.Some? ==> IsGpr(m.base.value))
    && (m.index.Some? ==> IsGpr(m.index.value))
    && FitsInt32(m.disp)
    && (!m.hasDisp ==> m.disp == 0)
  }

  /**
   * The shapes that survive: an index needs a base, cannot be rsp or r12, and wants an explicit displacement on
   * rbp and r13.
   */
  predicate ShapeKept(m: Mem) {
    m.index.Some? ==>
      && m.base.Some?
      && m.index.value % 8 != 4
      && (m.base.value % 8 == 5 ==> m.hasDisp)
  }

  /** A label survives only where nothing stands beside it: emit_modrm_sib forgets it behind a base or an index. */
  predicate LabelKept(m: Mem) {
    m.lbl != "" ==> m.base.None? && m.index.None?
  }

  predicate RoundTrips(m: Mem) { ShapeKept(m) && LabelKept(m) }

  /** The label an emission leaves for fixup resolution, empty when there is none. */
  function FieldLabel(e: Emission): string {
    if e.field.Some? then e.field.value.lbl else ""
  }

  /** What an emission says of its operand is the label beside the bytes: kept exactly under LabelKept. */
  lemma LabelRoundTrip(reg: int, m: Mem)
    requires RmAccepted(Memory(m))
    ensures FieldLabel(ModRmMem(reg, m)) == m.lbl <==> LabelKept(m)
  {
    hide Le, MakeModRm, MakeSib;
  }

  /** [rbx+x] is accepted, and encodes as [rbx] with no field for x. */
  lemma BaseLabelLost()
    ensures var m := NO_MEM.(base := Some(3), lbl := "x");
      && WellFormed(m) && RmAccepted(Memory(m)) && ShapeKept(m) && !RoundTrips(m)
      && ModRmMem(0, m) == ModRmMem(0, m.(lbl := "")) == Plain([0x03])
  {
    var m := NO_MEM.(base := Some(3), lbl := "x");
    assert ModRmBase(0, m, 3) == [MakeModRm(0, 0, 3)] == [0x03];
  }

  function RexByte(s: seq<byte>): byte {
    if s == [] then 0 else s[0]
  }

  /** The REX bits a decoder needs for operand o. */
  predicate RexCovers(rex: byte, o: Operand) {
    && RexB(rex) == (if HighReg(Some(o)) || HighBase(Some(o)) then 8 else 0)
    && RexX(rex) == (if HighIndex(Some(o)) then 8 else 0)
  }

  lemma ModRmFields(mod: int, reg: int, rm: int)
    requires 0 <= mod < 4
    ensures ModOf(MakeModRm(mod, reg, rm)) == mod
    ensures RegOf(MakeModRm(mod, reg, rm)) == reg % 8
    ensures RmOf(MakeModRm(mod, reg, rm)) == rm % 8
  {
  }

  lemma SibFields(scale: int, index: int, base: int)
    ensures ModOf(MakeSib(scale, index, base)) == ScaleBits(scale)
    ensures RegOf(MakeSib(scale, index, base)) == index % 8
    ensures RmOf(MakeSib(scale, index, base)) == base % 8
    ensures ValidScale(scale) ==> [1, 2, 4, 8][ScaleBits(scale)] == scale
  {
    var high, low := ScaleBits(scale) * 8 + index % 8, base % 8;
    assert MakeSib(scale, index, base) == high * 8 + low;
  }

  /** emit_rex puts every high register bit where the decoder looks for it. */
  lemma RexFields(w: bool, regOp: Option<Operand>, rm: Operand)
    ensures var s := Rex(w, regOp, Some(rm)); var rex := RexByte(s);
      && RexCovers(rex, rm)
      && RexR(rex) == (if HighReg(regOp) then 8 else 0)
      && RexW(rex) == w
      && (s != [] ==> 0x40 <= s[0] <= 0x4F)
  {
    var r, x, b := HighReg(regOp), HighIndex(Some(rm)), HighReg(Some(rm)) || HighBase(Some(rm));
    var v := MakeRex(w, r, x, b);
    assert v % 2 == Bit(b) && v / 2 % 2 == Bit(x) && v / 4 % 2 == Bit(r) && v / 8 % 2 == Bit(w);
  }

  /** Reading a displacement field that was just written. */
  lemma DispField(code: seq<byte>, p: nat, head: nat, v: int, n: nat)
    requires n == 1 || n == 4
    requires n == 1 ==> FitsInt8(v)
    requires FitsInt32(v)
    requires At(code, p + head, Le(v, n))
    ensures ReadField(code, p + head, n) == Some(Le(v, n)) && Signed(Le(v, n)) == v
  {
    Pow256Values();
    SignedLe(v, n);
  }

  lemma SignedEmpty()
    ensures Signed([]) == 0
  {
    assert Unsigned([]) == 0;
  }

  lemma Le1(v: int)
    ensures Le(v, 1) == [v % 256]
  {
    assert Le(v / 256, 0) == [];
  }

  lemma {:induction false} BaseForm(reg: int, m: Mem, code: seq<byte>, p: nat, rex: byte, size: RegSize)
    requires WellFormed(m) && m.base.Some? && m.index.None? && !m.isRip
    requires RexCovers(rex, Memory(m))
    requires At(code, p, ModRmBase(reg, m, m.base.value))
    ensures var r := DecodeRm(code, p, rex, size);
      r.Some? && View(r.value.operand) == View(Memory(m)) && r.value.length == |ModRmBase(reg, m, m.base.value)|
      && RegOf(code[p]) == reg % 8
  {
    var b := m.base.value % 8;
    if !m.hasDisp && b != 4 && b != 5 {
      hide MakeModRm, MakeSib, ModOf, RegOf, RmOf, RexB, RexX, Le, Signed, Unsigned;
      AtByte(code, p, ModRmBase(reg, m, m.base.value), 0);
      ModRmFields(0, reg, b);
      SignedEmpty();
    } else {
      BaseDispForm(reg, m, code, p, rex, size);
    }
  }

  lemma {:induction false} BaseDispForm(reg: int, m: Mem, code: seq<byte>, p: nat, rex: byte, size: RegSize)
    requires WellFormed(m) && m.base.Some? && m.index.None? && !m.isRip
    requires m.hasDisp || m.base.value % 8 == 4 || m.base.value % 8 == 5
    requires RexCovers(rex, Memory(m))
    requires At(code, p, ModRmBase(reg, m, m.base.value))
    ensures var r := DecodeRm(code, p, rex, size);
      r.Some? && View(r.value.operand) == View(Memory(m)) && r.value.length == |ModRmBase(reg, m, m.base.value)|
      && RegOf(code[p]) == reg % 8
  {
    hide MakeModRm, MakeSib, ModOf, RegOf, RmOf, RexB, RexX, Le, Signed, Unsigned;
    var s := ModRmBase(reg, m, m.base.value);
    var b := m.base.value % 8;
    var n := if !m.hasDisp then (if b == 5 then 1 else 4) else if FitsInt8(m.disp) then 1 else 4;
    var mod := if n == 1 then 1 else 2;
    var sib := if b == 4 then [MakeSib(1, 4, b)] else [];
    Le1(m.disp);
    ModRmFields(mod, reg, b);
    SibFields(1, 4, b);
    assert s == ([MakeModRm(mod, reg, b)] + sib) + Le(m.disp, n);
    AtByte(code, p, s, 0);
    AtSplit(code, p, [MakeModRm(mod, reg, b)] + sib, Le(m.disp, n));
    if b == 4 {
      AtByte(code, p, s, 1);
    }
    DispField(code, p, 1 + |sib|, m.disp, n);
  }

  lemma {:induction false} IndexForm(reg: int, m: Mem, code: seq<byte>, p: nat, rex: byte, size: RegSize)
    requires WellFormed(m) && m.index.Some? && !m.isRip && ValidScale(m.scale)
    requires RexCovers(rex, Memory(m))
    requires At(code, p, ModRmIndex(reg, m, m.index.value))
    ensures RegOf(code[p]) == reg % 8
    ensures var r := DecodeRm(code, p, rex, size);
      if ShapeKept(m) then
        r.Some? && View(r.value.operand) == View(Memory(m)) && r.value.length == |ModRmIndex(reg, m, m.index.value)|
      else
        r.Some? ==> View(r.value.operand) != View(Memory(m))
  {
    hide MakeModRm, MakeSib, ModOf, RegOf, RmOf, RexB, RexX, Le, Signed, Unsigned;
    var s := ModRmIndex(reg, m, m.index.value);
    var b := if m.base.Some? then m.base.value % 8 else 5;
    AtByte(code, p, s, 0);
    AtByte(code, p, s, 1);
    ModRmFields(0, reg, 4); ModRmFields(1, reg, 4); ModRmFields(2, reg, 4);
    SibFields(m.scale, m.index.value, b);
    assert m.index.value == m.index.value % 8 + RexX(rex);
    assert m.base.Some? ==> m.base.value == b + RexB(rex);
    if ShapeKept(m) {
      if !m.hasDisp {
        SignedEmpty();
      } else {
        var n := if FitsInt8(m.disp) && !(b == 5 && m.disp == 0) then 1 else 4;
        var head := s[..2];
        Le1(m.disp);
        assert s == head + Le(m.disp, n);
        AtSplit(code, p, head, Le(m.disp, n));
        DispField(code, p, 2, m.disp, n);
      }
    }
  }

  lemma {:induction false} DispOnlyForm(reg: int, m: Mem, code: seq<byte>, p: nat, rex: byte, size: RegSize)
    requires WellFormed(m) && m.base.None? && m.index.None?
    requires At(code, p, ModRmMem(reg, m).bytes)
    ensures var r := DecodeRm(code, p, rex, size);
      r.Some? && View(r.value.operand) == View(Memory(m)) && r.value.length == |ModRmMem(reg, m).bytes|
      && RegOf(code[p]) == reg % 8
  {
    hide MakeModRm, MakeSib, ModOf, RegOf, RmOf, RexB, RexX, Le, Signed, Unsigned;
    var s := ModRmMem(reg, m).bytes;
    var head := if m.isRip then 1 else 2;
    AtByte(code, p, s, 0);
    AtByte(code, p, s, 1);
    ModRmFields(0, reg, 4); ModRmFields(0, reg, 5);
    SibFields(1, 4, 5);
    assert s == s[..head] + Le(m.disp, 4);
    AtSplit(code, p, s[..head], Le(m.disp, 4));
    DispField(code, p, head, m.disp, 4);
  }

  /** The shape alone: the decoded operand without its label. */
  lemma {:induction false} ShapeRoundTrip(reg: int, m: Mem, code: seq<byte>, p: nat, rex: byte, size: RegSize)
    requires WellFormed(m) && RmAccepted(Memory(m))
    requires RexCovers(rex, Memory(m))
    requires At(code, p, ModRmMem(reg, m).bytes)
    ensures RegOf(code[p]) == reg % 8
    ensures var r := DecodeRm(code, p, rex, size);
      ShapeKept(m) <==> r.Some? && View(r.value.operand) == View(Memory(m))
    ensures ShapeKept(m) ==> DecodeRm(code, p, rex, size).value.length == |ModRmMem(reg, m).bytes|
  {
    if m.base.None? && m.index.None? {
      DispOnlyForm(reg, m, code, p, rex, size);
    } else if m.index.None? {
      BaseForm(reg, m, code, p, rex, size);
    } else {
      IndexForm(reg, m, code, p, rex, size);
    }
  }

  /**
   * Memory operands: for every accepted operand and every continuation of the code, the emitted bytes
   * and the label left beside them give the operand back, with the right length, exactly when
   * RoundTrips holds.
   */
  lemma {:induction false} MemRoundTrip(reg: int, m: Mem, code: seq<byte>, p: nat, rex: byte, size: RegSize)
    requires WellFormed(m) && RmAccepted(Memory(m))
    requires RexCovers(rex, Memory(m))
    requires At(code, p, ModRmMem(reg, m).bytes)
    ensures RegOf(code[p]) == reg % 8
    ensures var r := DecodeRm(code, p, rex, size);
      RoundTrips(m) <==>
        r.Some? && View(r.value.operand) == View(Memory(m)) && FieldLabel(ModRmMem(reg, m)) == m.lbl
    ensures RoundTrips(m) ==> DecodeRm(code, p, rex, size).value.length == |ModRmMem(reg, m).bytes|
  {
    hide DecodeRm, ModRmMem, View, FieldLabel, ShapeKept, LabelKept;
    ShapeRoundTrip(reg, m, code, p, rex, size);
    LabelRoundTrip(reg, m);
  }

  /** Register and memory operands together, with the register field beside them and the label behind them. */
  lemma {:induction false} OperandRoundTrip(reg: int, o: Operand, code: seq<byte>, p: nat, rex: byte, size: RegSize)
    requires o.Reg? || o.Memory?
    requires o.Reg? ==> IsGpr(o.reg)
    requires o.Memory? ==> WellFormed(o.mem) && RmAccepted(o) && RoundTrips(o.mem)
    requires RexCovers(rex, o)
    requires At(code, p, ModRm(reg, o).value.bytes)
    ensures p < |code| && RegOf(code[p]) == reg % 8
    ensures FieldLabel(ModRm(reg, o).value) == if o.Memory? then o.mem.lbl else ""
    ensures var r := DecodeRm(code, p, rex, size);
      && r.Some?
      && r.value.length == |ModRm(reg, o).value.bytes|
      && View(r.value.operand) == (if o.Reg? then SelectReg(o.reg, size, rex != 0) else View(o))
  {
    if o.Reg? {
      AtByte(code, p, ModRm(reg, o).value.bytes, 0);
      ModRmFields(3, reg, o.reg);
    } else {
      hide ModRmMem, DecodeRm;
      MemRoundTrip(reg, o.mem, code, p, rex, size);
    }
  }

  /** r12 is a legal index register, but the decoder drops it; rbp as an index is fine. */
  lemma IndexR12Lost()
    ensures var m := NO_MEM.(base := Some(0), index := Some(12), scale := 2);
      && WellFormed(m) && RmAccepted(Memory(m)) && !RoundTrips(m)
      && ModRmMem(0, m).bytes == [0x04, 0x60]
      && DecodeRm([0x04, 0x60], 0, 0x42, R64) == Some(Rm(Memory(NO_MEM.(base := Some(0))), 2))
  {
    var m := NO_MEM.(base := Some(0), index := Some(12), scale := 2);
    assert ModRmIndex(0, m, 12) == [MakeModRm(0, 0, 4), MakeSib(2, 12, 0)];
    DropsIndex([0x04, 0x60]);
  }

  lemma DropsIndex(code: seq<byte>)
    requires code == [0x04, 0x60]
    ensures DecodeRm(code, 0, 0x42, R64) == Some(Rm(Memory(NO_MEM.(base := Some(0))), 2))
  {
    assert ModOf(code[0]) == 0 && RmOf(code[0]) == 4 && RegOf(code[1]) == 4 && RmOf(code[1]) == 0 && RexB(0x42) == 0;
    hide ModOf, RmOf, RegOf, RexB, RexX;
    assert code[2..2] == [];
    SignedEmpty();
  }
}
