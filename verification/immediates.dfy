// The choice among imm8, sign-extended imm32, zero-extended imm32 and imm64 keeps the value: the
// processor, reading the emitted bytes as the instruction set defines them, sees the source immediate.

module Immediates {
  import opened Bytes
  import opened Operands
  import opened Encoding
  import opened RmRoundTrip
  import Decoding

  // What the processor does with an instruction that has an immediate and a 64-bit register operand
  // (or pushes); the value is the 64-bit one after extension.
  datatype Effect = Loads(reg: Reg, value: int) | Computes(alu: AluOp, reg: Reg, value: int) | Pushes(value: int)

  function Word(v: int): int { v % TWO64 }

  predicate IsRex(b: byte) { 0x40 <= b < 0x50 }

  /** The instruction behind an optional REX prefix (Intel SDM volume 2, opcode maps): None for all other forms. */
  function Behind(rex: byte, t: seq<byte>): Option<Effect> {
    var w, b := Decoding.RexW(rex), Decoding.RexB(rex);
    if t == [] then None
    else if 0xB8 <= t[0] <= 0xBF && |t| == (if w then 9 else 5) then
      Some(Loads(t[0] - 0xB8 + b, Unsigned(t[1..])))
    else if t[0] == 0xC7 && w && |t| == 6 && Decoding.ModOf(t[1]) == 3 && Decoding.RegOf(t[1]) == 0 then
      Some(Loads(Decoding.RmOf(t[1]) + b, Word(Signed(t[2..]))))
    else if (t[0] == 0x83 || t[0] == 0x81) && w && |t| == (if t[0] == 0x83 then 3 else 6)
      && Decoding.ModOf(t[1]) == 3 then
      Some(Computes(Decoding.Group1Name(Decoding.RegOf(t[1])), Decoding.RmOf(t[1]) + b, Word(Signed(t[2..]))))
    else if t[0] < 0x40 && t[0] % 8 == 5 && w && |t| == 5 then
      Some(Computes(Decoding.Group1Name(t[0] / 8), 0, Word(Signed(t[1..]))))
    else if (t[0] == 0x6A && |t| == 2) || (t[0] == 0x68 && |t| == 5) then
      Some(Pushes(Word(Signed(t[1..]))))
    else None
  }

  function EffectOf(s: seq<byte>): Option<Effect> {
    if s != [] && IsRex(s[0]) then Behind(s[0], s[1..]) else Behind(0, s)
  }

  lemma WithRex(rex: byte, t: seq<byte>)
    requires IsRex(rex)
    ensures EffectOf([rex] + t) == Behind(rex, t)
  {
    assert ([rex] + t)[1..] == t;
  }

  lemma WithoutRex(t: seq<byte>)
    requires t != [] && !IsRex(t[0])
    ensures EffectOf(t) == Behind(0, t)
  {
  }

  lemma Tails(a: byte, b: byte, f: seq<byte>)
    ensures ([a] + f)[1..] == f && ([a, b] + f)[2..] == f
  {
  }

  /** MakeRex with only W, R and B in play. */
  lemma RexBits(w: bool, r: bool, b: bool)
    ensures var x := MakeRex(w, r, false, b);
      IsRex(x) && Decoding.RexW(x) == w && Decoding.RexB(x) == (if b then 8 else 0)
  {
    var x := MakeRex(w, r, false, b);
    assert x % 2 == Bit(b) && x / 8 % 2 == Bit(w);
  }

  // ---- mov ----

  /** The imm64 form, chosen for values that neither 32-bit extension reaches. */
  predicate Wide64(v: int) { !FitsInt32(v) && !(0 <= v <= UINT32_MAX) }

  /** B8+r with a 4- or 8-byte field. */
  lemma LoadField(w: bool, high: bool, b: bool, r: Reg, prefixed: bool, v: int)
    requires r < 8 && (!prefixed ==> !w && !b)
    requires !w ==> 0 <= v <= UINT32_MAX
    ensures EffectOf((if prefixed then [MakeRex(w, high, false, b)] else []) + ([0xB8 + r] + Le(v, if w then 8 else 4)))
         == Some(Loads(r + (if b then 8 else 0), Word(v)))
  {
    hide MakeRex, Le, Unsigned, Signed;
    var f := Le(v, if w then 8 else 4);
    var t := [0xB8 + r] + f;
    Tails(0xB8 + r, 0, f);
    if w { UnsignedLe64(v); } else { UnsignedLe32(v); }
    if prefixed {
      RexBits(w, high, b);
      WithRex(MakeRex(w, high, false, b), t);
    } else {
      assert [] + t == t;
      WithoutRex(t);
    }
  }

  /**
   * mov of a 64-bit register: whatever form is chosen, the value is the immediate modulo 2^64. The register
   * is right exactly when the imm64 form is not used on r8..r15, where the encoder sets REX.R for REX.B.
   */
  lemma MovKeepsValue(r: Reg, v: int)
    requires IsGpr(r)
    ensures var e := EncodeMov(Gpr(r), Imm(v));
      && e.Some?
      && EffectOf(e.value.bytes) == Some(Loads(if Wide64(v) then r % 8 else r, Word(v)))
      && (EffectOf(e.value.bytes) == Some(Loads(r, Word(v))) <==> r < 8 || !Wide64(v))
  {
    hide EffectOf, Le, MakeRex, MakeModRm;
    var e := MovRegImm(Gpr(r), v);
    assert EncodeMov(Gpr(r), Imm(v)) == e;
    if 0 <= v <= UINT32_MAX {
      LoadField(false, false, r >= 8, r % 8, r >= 8, v);
      assert e.value.bytes == (if r >= 8 then [MakeRex(false, false, false, true)] else [])
        + ([0xB8 + r % 8] + Le(v, 4));
    } else if Wide64(v) {
      LoadField(true, r >= 8, false, r % 8, true, v);
      assert e.value.bytes == [MakeRex(true, r >= 8, false, false)] + ([0xB8 + r % 8] + Le(v, 8));
    } else {
      MovSignExtended(r, v);
    }
  }

  lemma MovSignExtended(r: Reg, v: int)
    requires IsGpr(r) && FitsInt32(v) && v < 0
    ensures MovRegImm(Gpr(r), v).Some?
    ensures EffectOf(MovRegImm(Gpr(r), v).value.bytes) == Some(Loads(r, Word(v)))
  {
    hide Le, MakeRex, MakeModRm, Signed, Unsigned;
    var rex, m := MakeRex(true, false, false, r >= 8), MakeModRm(3, 0, r);
    assert MovRegImm(Gpr(r), v).value.bytes == [rex] + ([0xC7, m] + Le(v, 4));
    RexBits(true, false, r >= 8);
    ModRmFields(3, 0, r);
    WithRex(rex, [0xC7, m] + Le(v, 4));
    Tails(0xC7, m, Le(v, 4));
    SignedLe32(v);
  }

  /** mov of a 32-bit register zero-extends the low half, into the wrong register from r8d on. */
  lemma Mov32KeepsValue(r: Reg, v: int)
    requires IsGpr(r)
    ensures var e := EncodeMov(Reg(r, R32), Imm(v));
      && e.Some?
      && (EffectOf(e.value.bytes) == Some(Loads(r, v % TWO32)) <==> r < 8)
  {
    hide EffectOf, Le, MakeRex;
    var e := MovRegImm(Reg(r, R32), v);
    assert EncodeMov(Reg(r, R32), Imm(v)) == e;
    LeLow(v);
    LoadField(false, true, false, r % 8, r >= 8, v % TWO32);
    assert e.value.bytes == (if r >= 8 then [MakeRex(false, true, false, false)] else [])
      + ([0xB8 + r % 8] + Le(v % TWO32, 4));
  }

  lemma LeLow(v: int)
    ensures Le(v, 4) == Le(v % TWO32, 4) && Word(v % TWO32) == v % TWO32
  {
    UnsignedLe32(v);
    LeUnsigned(Le(v, 4));
  }

  // ---- arithmetic ----

  /** Every accepted arithmetic immediate on a 64-bit register extends back to itself. */
  lemma AluKeepsValue(a: AluOp, r: Reg, v: int)
    requires IsGpr(r)
    ensures var e := EncodeAlu(a, Gpr(r), Imm(v));
      && (e.Some? <==> FitsInt32(v))
      && (e.Some? ==> EffectOf(e.value.bytes) == Some(Computes(a, r, Word(v))))
  {
    hide EffectOf, Le, MakeRex, MakeModRm, ToInt32;
    var ext := Group1Code(a);
    assert EncodeAlu(a, Gpr(r), Imm(v)) == AluRegImm(ext, Gpr(r), v);
    var fits8 := FitsInt8(ToInt32(v));
    if FitsInt32(v) {
      var bytes := AluRegImm(ext, Gpr(r), v).value.bytes;
      var rex, m := MakeRex(true, false, false, r >= 8), MakeModRm(3, ext, r);
      if r == 0 && !fits8 {
        AluAccumulator(a, v);
        assert bytes == [MakeRex(true, false, false, false)] + ([0x05 + ext * 8] + Le(v, 4));
      } else if fits8 {
        AluField(a, r, 0x83, v);
        assert bytes == [rex] + ([0x83, m] + [v % 256]);
      } else {
        AluField(a, r, 0x81, v);
        assert bytes == [rex] + ([0x81, m] + Le(v, 4));
      }
    }
  }

  lemma AluAccumulator(a: AluOp, v: int)
    requires FitsInt32(v)
    ensures EffectOf([MakeRex(true, false, false, false)] + ([0x05 + Group1Code(a) * 8] + Le(v, 4)))
      == Some(Computes(a, 0, Word(v)))
  {
    hide Le, MakeRex, Signed, Unsigned;
    var op: byte := 0x05 + Group1Code(a) * 8;
    RexBits(true, false, false);
    WithRex(MakeRex(true, false, false, false), [op] + Le(v, 4));
    Tails(op, 0, Le(v, 4));
    SignedLe32(v);
  }

  lemma AluField(a: AluOp, r: Reg, op: byte, v: int)
    requires IsGpr(r) && FitsInt32(v) && (op == 0x81 || (op == 0x83 && FitsInt8(ToInt32(v))))
    ensures EffectOf([MakeRex(true, false, false, r >= 8)]
      + ([op, MakeModRm(3, Group1Code(a), r)] + (if op == 0x83 then [v % 256] else Le(v, 4))))
         == Some(Computes(a, r, Word(v)))
  {
    hide Le, MakeRex, MakeModRm, Signed, Unsigned;
    var ext := Group1Code(a);
    var rex, m := MakeRex(true, false, false, r >= 8), MakeModRm(3, ext, r);
    var f := if op == 0x83 then [v % 256] else Le(v, 4);
    RexBits(true, false, r >= 8);
    ModRmFields(3, ext, r);
    WithRex(rex, [op, m] + f);
    Tails(op, m, f);
    SignedLe32(v);
    Byte(v);
  }

  lemma Byte(v: int)
    ensures FitsInt8(v) ==> Signed([v % 256]) == v
  {
    SignedFits([v % 256]);
  }

  // ---- push ----

  /** push of an int32 pushes its sign extension. */
  lemma PushKeepsValue(v: int)
    requires FitsInt32(v)
    ensures EncodePushPop(true, Imm(v)).Some?
    ensures EffectOf(EncodePushPop(true, Imm(v)).value.bytes) == Some(Pushes(Word(v)))
  {
    hide Le, Signed, Unsigned;
    var op: byte, f := if FitsInt8(v) then 0x6A else 0x68, if FitsInt8(v) then [v % 256] else Le(v, 4);
    assert EncodePushPop(true, Imm(v)).value.bytes == [op] + f;
    WithoutRex([op] + f);
    Tails(op, 0, f);
    Byte(v);
    SignedLe32(v);
  }

  /** mov r8, 2^40 loads rax. */
  lemma MovHighRegisterLost()
    ensures EffectOf(EncodeMov(Gpr(8), Imm(0x100_0000_0000)).value.bytes) == Some(Loads(0, 0x100_0000_0000))
  {
    hide EffectOf, EncodeMov;
    MovKeepsValue(8, 0x100_0000_0000);
  }
}
