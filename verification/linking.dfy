// After fixup resolution each statement's bytes are those of the instruction with its label replaced
// by the final address, standing at the statement's own place.

module Linking {
  import opened Bytes
  import opened Operands
  import opened Encoding
  import opened Decoding
  import opened RmRoundTrip
  import opened RoundTrip
  import opened Symbols
  import L = Layout
  import R = Relaxation
  import F = Fixups

  type Chunk = L.Chunk

  // ---- the resolved text, statement by statement ----

  /** The value a statement's field ends up with. */
  function FieldValue(c: Chunk, addresses: map<string, int>): int
    requires c.e.field.Some? && c.e.field.value.offset + 4 <= |c.e.bytes|
    requires c.e.field.value.lbl in addresses
  {
    var f := c.e.field.value;
    addresses[f.lbl] + Signed(c.e.bytes[f.offset..f.offset + 4]) - (if f.relative then c.at + f.offset + 4 else 0)
  }

  function Replace(s: seq<byte>, offset: nat, v: int): (r: seq<byte>)
    requires offset + 4 <= |s|
    ensures |r| == |s|
  {
    s[..offset] + Le(v, 4) + s[offset + 4..]
  }

  ghost predicate Linkable(c: Chunk, addresses: map<string, int>) {
    L.FieldInside(c.e) && (c.e.field.Some? ==> c.e.field.value.lbl in addresses && FitsInt32(FieldValue(c, addresses)))
  }

  ghost function LinkedBytes(c: Chunk, addresses: map<string, int>): (r: seq<byte>)
    requires Linkable(c, addresses)
    ensures |r| == |c.e.bytes|
  {
    if c.e.field.None? then c.e.bytes
    else Replace(c.e.bytes, c.e.field.value.offset, FieldValue(c, addresses))
  }

  function Start(cs: seq<Chunk>, k: nat): nat
    requires k <= |cs|
  {
    |L.Text(cs[..k])|
  }

  lemma {:induction false} StartsOrdered(cs: seq<Chunk>, j: nat, k: nat)
    requires j < k <= |cs|
    ensures Start(cs, j) + |cs[j].e.bytes| <= Start(cs, k) <= |L.Text(cs)|
  {
    hide L.Text;
    L.TextSplit(cs, j);
    L.TextSplit(cs, k);
    assert cs[..k][..j + 1] == cs[..j + 1];
    L.TextSplit(cs[..k], j + 1);
  }

  lemma {:induction false} ChunkText(cs: seq<Chunk>, k: nat)
    requires k < |cs|
    ensures At(L.Text(cs), Start(cs, k), cs[k].e.bytes)
  {
    hide L.Text;
    L.TextSplit(cs, k);
    L.TextSplit(cs, k + 1);
  }

  lemma {:induction false} FixupMembers(cs: seq<Chunk>)
    ensures forall j :: 0 <= j < |cs| && cs[j].e.field.Some? ==> L.FixupOf(cs[j]) in L.Fixups(cs)
    ensures forall g :: g in L.Fixups(cs) ==> exists j :: 0 <= j < |cs| && cs[j].e.field.Some? && L.FixupOf(cs[j]) == g
  {
    if cs != [] {
      var rest := cs[..|cs| - 1];
      FixupMembers(rest);
      assert forall j :: 0 <= j < |rest| ==> rest[j] == cs[j];
    }
  }

  /** A field lies in the range of its own statement and of no other. */
  lemma OwnField(cs: seq<Chunk>, k: nat, p: nat, g: L.Fixup)
    requires L.Placed(cs) && k < |cs| && Start(cs, k) <= p < Start(cs, k) + |cs[k].e.bytes|
    requires g in L.Fixups(cs) && F.InField(g, p)
    ensures cs[k].e.field.Some? && g == L.FixupOf(cs[k])
  {
    hide L.Text, L.Fixups;
    FixupMembers(cs);
    var j :| 0 <= j < |cs| && cs[j].e.field.Some? && L.FixupOf(cs[j]) == g;
    assert L.FieldInside(cs[j].e);
    if j < k {
      StartsOrdered(cs, j, k);
    } else if k < j {
      StartsOrdered(cs, k, j);
    }
  }

  /** One byte of a statement in the resolved text. */
  lemma LinkedByte(cs: seq<Chunk>, addresses: map<string, int>, text: seq<byte>, k: nat, p: nat)
    requires L.Placed(cs) && k < |cs| && |text| == |L.Text(cs)|
    requires F.Separate(L.Fixups(cs), |L.Text(cs)|) && F.Resolved(L.Text(cs), L.Fixups(cs), addresses, text)
    requires Linkable(cs[k], addresses) && cs[k].at == L.BASE + Start(cs, k)
    requires At(L.Text(cs), Start(cs, k), cs[k].e.bytes)
    requires Start(cs, k) <= p < Start(cs, k) + |cs[k].e.bytes|
    ensures p < |text| && text[p] == LinkedBytes(cs[k], addresses)[p - Start(cs, k)]
  {
    hide L.Text, L.Fixups, L.Placed, F.Resolved, F.Separate, F.InField, F.Slice, LinkedBytes, Linkable, Start,
         FieldValue;
    var c, s := cs[k], Start(cs, k);
    PlacedAt(cs, k);
    if c.e.field.Some? && F.InField(L.FixupOf(c), p) {
      OwnFieldBytes(cs, addresses, text, k);
      FieldByte(c, s, p, addresses, text);
    } else {
      forall j | 0 <= j < |L.Fixups(cs)|
        ensures !F.InField(L.Fixups(cs)[j], p)
      {
        if F.InField(L.Fixups(cs)[j], p) {
          OwnField(cs, k, p, L.Fixups(cs)[j]);
        }
      }
      AtByte(L.Text(cs), s, c.e.bytes, p - s);
      F.Untouched(L.Text(cs), L.Fixups(cs), addresses, text, p);
      OutsideOwnField(c, s, p, addresses);
    }
  }

  lemma FieldByte(c: Chunk, s: nat, p: nat, addresses: map<string, int>, text: seq<byte>)
    requires Linkable(c, addresses) && c.e.field.Some? && c.at == L.BASE + s && s <= p < s + |c.e.bytes|
    requires F.InField(L.FixupOf(c), p) && F.Inside(L.FixupOf(c), |text|)
    requires F.Slice(text, L.FixupOf(c)) == Le(FieldValue(c, addresses), 4)
    ensures text[p] == LinkedBytes(c, addresses)[p - s]
  {
    hide FieldValue, Le;
    InOwnField(c, s, p);
    assert text[p] == F.Slice(text, L.FixupOf(c))[p - F.Offset(L.FixupOf(c))];
  }

  lemma PlacedAt(cs: seq<Chunk>, k: nat)
    requires L.Placed(cs) && k < |cs|
    ensures cs[k].at == L.BASE + Start(cs, k) && L.FieldInside(cs[k].e)
  {
  }

  /** Resolution leaves each statement with its linked bytes, at its own place. */
  lemma {:induction false} ChunkLinked(cs: seq<Chunk>, addresses: map<string, int>, text: seq<byte>, k: nat)
    requires L.Placed(cs) && k < |cs|
    requires F.Resolve(L.Text(cs), L.Fixups(cs), addresses) == Some(text)
    ensures |text| == |L.Text(cs)|
    ensures Linkable(cs[k], addresses) && At(text, Start(cs, k), LinkedBytes(cs[k], addresses))
  {
    hide L.Text, L.Fixups, L.Placed, F.Resolve, F.Resolved, F.Separate, F.InField, F.Slice, LinkedBytes, Start,
         FieldValue;
    F.PassSeparate(cs);
    F.ResolveFields(L.Text(cs), L.Fixups(cs), addresses);
    F.SameLength(L.Text(cs), L.Fixups(cs), addresses, text);
    ChunkText(cs, k);
    PlacedAt(cs, k);
    var c, s := cs[k], Start(cs, k);
    if c.e.field.Some? {
      OwnFieldBytes(cs, addresses, text, k);
    }
    forall p | s <= p < s + |c.e.bytes|
      ensures text[p] == LinkedBytes(c, addresses)[p - s]
    {
      LinkedByte(cs, addresses, text, k, p);
    }
  }

  lemma InOwnField(c: Chunk, s: nat, p: nat)
    requires c.e.field.Some? && c.at == L.BASE + s && F.InField(L.FixupOf(c), p) && L.FieldInside(c.e)
    ensures c.e.field.value.offset <= p - s < c.e.field.value.offset + 4
    ensures F.Offset(L.FixupOf(c)) == s + c.e.field.value.offset
  {
  }

  lemma OutsideOwnField(c: Chunk, s: nat, p: nat, addresses: map<string, int>)
    requires Linkable(c, addresses) && c.at == L.BASE + s && s <= p < s + |c.e.bytes|
    requires c.e.field.Some? ==> !F.InField(L.FixupOf(c), p)
    ensures LinkedBytes(c, addresses)[p - s] == c.e.bytes[p - s]
  {
    hide FieldValue, Le;
  }

  lemma OwnFieldBytes(cs: seq<Chunk>, addresses: map<string, int>, text: seq<byte>, k: nat)
    requires L.Placed(cs) && k < |cs| && cs[k].e.field.Some? && L.FieldInside(cs[k].e)
    requires F.Separate(L.Fixups(cs), |L.Text(cs)|)
    requires F.Resolved(L.Text(cs), L.Fixups(cs), addresses, text)
    ensures var f := L.FixupOf(cs[k]);
      F.Inside(f, |text|) && |text| == |L.Text(cs)| && Linkable(cs[k], addresses)
      && F.Slice(text, f) == Le(FieldValue(cs[k], addresses), 4)
  {
    hide L.Text, L.Fixups, L.Placed, F.Resolved, F.Separate, Signed, Le;
    FixupMembers(cs);
    var c, f, s := cs[k], L.FixupOf(cs[k]), Start(cs, k);
    var j :| 0 <= j < |L.Fixups(cs)| && L.Fixups(cs)[j] == f;
    F.ResolvedField(L.Text(cs), L.Fixups(cs), addresses, text, j);
    ChunkText(cs, k);
    PlacedAt(cs, k);
    EmittedField(c, s, L.Text(cs));
  }

  lemma EmittedField(c: Chunk, s: nat, text: seq<byte>)
    requires c.e.field.Some? && L.FieldInside(c.e) && c.at == L.BASE + s && At(text, s, c.e.bytes)
    ensures var o := c.e.field.value.offset; var f := L.FixupOf(c);
      F.Inside(f, |text|) && F.Slice(text, f) == c.e.bytes[o..o + 4]
  {
    var o := c.e.field.value.offset;
    forall q | 0 <= q < 4
      ensures F.Slice(text, L.FixupOf(c))[q] == c.e.bytes[o + q]
    {
      AtByte(text, s, c.e.bytes, o + q);
    }
  }

  /** Resolution succeeds exactly when every statement can be linked. */
  lemma {:induction false} ResolvesLinkable(cs: seq<Chunk>, addresses: map<string, int>)
    requires L.Placed(cs)
    ensures F.Resolve(L.Text(cs), L.Fixups(cs), addresses).Some?
       <==> forall k :: 0 <= k < |cs| ==> Linkable(cs[k], addresses)
  {
    hide L.Text, L.Fixups, L.Placed, F.Resolve, F.Resolved, F.Slice, Linkable, Signed, Le;
    var text, fs := L.Text(cs), L.Fixups(cs);
    F.PassSeparate(cs);
    F.ResolveFields(text, fs, addresses);
    if F.Resolve(text, fs, addresses).Some? {
      forall k | 0 <= k < |cs|
        ensures Linkable(cs[k], addresses)
      {
        ChunkLinked(cs, addresses, F.Resolve(text, fs, addresses).value, k);
      }
    }
    if forall k :: 0 <= k < |cs| ==> Linkable(cs[k], addresses) {
      FixupMembers(cs);
      forall j | 0 <= j < |fs|
        ensures F.Resolvable(text, fs[j], addresses)
      {
        assert fs[j] in fs;
        var k :| 0 <= k < |cs| && cs[k].e.field.Some? && L.FixupOf(cs[k]) == fs[j];
        ChunkText(cs, k);
        PlacedAt(cs, k);
        EmittedField(cs[k], Start(cs, k), text);
        assert Linkable(cs[k], addresses);
        LinkableFits(cs[k], addresses);
      }
    }
  }

  lemma LinkableFits(c: Chunk, addresses: map<string, int>)
    requires c.e.field.Some? && Linkable(c, addresses)
    ensures L.FieldInside(c.e) && c.e.field.value.lbl in addresses && FitsInt32(FieldValue(c, addresses))
  {
  }

  // ---- linked instructions ----

  /** Memory operands whose displacement is a label field. */
  predicate LabelMem(o: Operand) {
    o.Memory? && o.mem.lbl != "" && (o.mem.isRip || (o.mem.base.None? && o.mem.index.None?))
  }

  /** The operand with v for its displacement, and no label any more. */
  function LinkOperand(o: Operand, v: int): Operand {
    if LabelMem(o) then Memory(o.mem.(disp := v, hasDisp := true, lbl := "")) else o
  }

  function LinkInst(i: Instruction, v: int): Instruction {
    Instruction(i.op, seq(|i.operands|, k requires 0 <= k < |i.operands| => LinkOperand(i.operands[k], v)))
  }

  /** Putting v into the displacement of a labelled operand replaces exactly its field. */
  lemma LinkForm(w: bool, regOp: Option<Operand>, rm: Operand, opcode: seq<byte>, reg: int, imm: seq<byte>, v: int)
    requires regOp.Some? ==> regOp.value.Reg?
    requires Form([], w, regOp, rm, opcode, reg, imm).Some?
    ensures var e := Form([], w, regOp, rm, opcode, reg, imm).value;
      var e' := Form([], w, regOp, LinkOperand(rm, v), opcode, reg, imm);
      && L.FieldInside(e)
      && (e.field.Some? <==> LabelMem(rm))
      && (e.field.Some? ==> e'.Some? && e'.value.bytes == Replace(e.bytes, e.field.value.offset, v))
  {
    hide MakeModRm, MakeSib, Rex, Le;
    L.FormInside([], w, regOp, rm, opcode, reg, imm);
    if LabelMem(rm) {
      SameRex(w, regOp, rm, v);
      var head := Rex(w, regOp, Some(rm)) + opcode;
      assert [] + Rex(w, regOp, Some(rm)) + opcode == head;
      LinkMem(reg, rm.mem, v);
      ReplaceInside(head, ModRmMem(reg, rm.mem).bytes, imm, if rm.mem.isRip then 1 else 2, v);
    }
  }

  lemma LinkMem(reg: int, m: Mem, v: int)
    requires LabelMem(Memory(m))
    ensures var k := if m.isRip then 1 else 2; var s := ModRmMem(reg, m).bytes;
      k + 4 == |s| && ModRmMem(reg, m.(disp := v, hasDisp := true, lbl := "")).bytes == Replace(s, k, v)
  {
    hide MakeModRm, MakeSib, Le;
  }

  lemma ReplaceInside(head: seq<byte>, s: seq<byte>, imm: seq<byte>, k: nat, v: int)
    requires k + 4 == |s|
    ensures head + Replace(s, k, v) + imm == Replace(head + s + imm, |head| + k, v)
  {
    hide Le;
  }

  lemma SameRex(w: bool, regOp: Option<Operand>, rm: Operand, v: int)
    ensures Rex(w, regOp, Some(LinkOperand(rm, v))) == Rex(w, regOp, Some(rm))
  {
  }

  lemma LinkKeeps(o: Operand, v: int)
    requires FitsInt32(v)
    ensures RmIn(o) ==> RmIn(LinkOperand(o, v)) && RmSize(LinkOperand(o, v)) == RmSize(o)
    ensures MemIn(o) ==> MemIn(LinkOperand(o, v))
    ensures o.Memory? <==> LinkOperand(o, v).Memory?
    ensures !o.Memory? ==> LinkOperand(o, v) == o
  {
  }

  lemma LinkStraight(i: Instruction, v: int)
    requires Straight(i) && FitsInt32(v)
    ensures Straight(LinkInst(i, v))
  {
    hide MemIn, RmIn, LinkOperand, RegIn, RmSize;
    var os := i.operands;
    if |os| > 0 {
      OperandKept(os[0], v);
    }
    if |os| > 1 {
      OperandKept(os[1], v);
    }
  }

  lemma OperandKept(o: Operand, v: int)
    requires FitsInt32(v)
    ensures RmIn(o) ==> RmIn(LinkOperand(o, v)) && RmSize(LinkOperand(o, v)) == RmSize(o)
    ensures MemIn(o) ==> MemIn(LinkOperand(o, v))
    ensures RegIn(o) ==> RegIn(LinkOperand(o, v))
    ensures o.Memory? <==> LinkOperand(o, v).Memory?
    ensures !o.Memory? ==> LinkOperand(o, v) == o
    ensures RmIn(o) <==> RegIn(o) || MemIn(o)
    ensures MemIn(o) ==> o.Memory?
    ensures RegIn(o) ==> o.Reg?
    ensures NeedsRex(LinkOperand(o, v)) == NeedsRex(o) && IsHigh8(LinkOperand(o, v)) == IsHigh8(o)
  {
    LinkKeeps(o, v);
    MemOrReg(o);
    SameConflict(o, v);
  }

  lemma MemOrReg(o: Operand)
    ensures RmIn(o) <==> RegIn(o) || MemIn(o)
    ensures MemIn(o) ==> o.Memory?
  {
  }

  lemma LinkParts(i: Instruction, v: int)
    ensures var j := LinkInst(i, v); var os := i.operands;
      && j.op == i.op && |j.operands| == |os|
      && (|os| > 0 ==> j.operands[0] == LinkOperand(os[0], v))
      && (|os| > 1 ==> j.operands[1] == LinkOperand(os[1], v))
  {
  }

  /** The form of the linked instruction is the form with the linked operand. */
  lemma LinkShape(i: Instruction, v: int)
    requires Straight(i) && FitsInt32(v)
    ensures Straight(LinkInst(i, v))
    ensures match ShapeOf(i)
      case None => ShapeOf(LinkInst(i, v)) == None
      case Some(s) => ShapeOf(LinkInst(i, v)) == Some(s.(rm := LinkOperand(s.rm, v)))
  {
    LinkStraight(i, v);
    LinkParts(i, v);
    hide LinkInst;
    hide MemIn, RmIn, LinkOperand, RegIn, CondCode, Group1Code, BitCode, UnaryCode, ByteReg, FitsInt8, FitsInt32;
    var os := i.operands;
    if |os| > 0 {
      OperandKept(os[0], v);
    }
    if |os| > 1 {
      OperandKept(os[1], v);
    }
  }

  /** Encoding the linked instruction gives the linked bytes. */
  lemma LinkDispatch(i: Instruction, env: Env, v: int)
    requires Straight(i) && Dispatch(i, env).Some? && Dispatch(i, env).value.field.Some? && FitsInt32(v)
    ensures var e := Dispatch(i, env).value; var e' := Dispatch(LinkInst(i, v), env);
      L.FieldInside(e) && e'.Some? && e'.value.bytes == Replace(e.bytes, e.field.value.offset, v)
  {
    hide Form, LinkOperand, LinkInst, Straight, ShapeOf, Dispatch, MemIn, LabelledMem, ImmBytes, Replace;
    DispatchShape(i, env);
    LinkShape(i, v);
    DispatchShape(LinkInst(i, v), env);
    var s := ShapeOf(i).value;
    LinkForm(s.w, s.regOp, s.rm, s.opcode, s.reg, s.imm, v);
  }

  // ---- what a labelled operand denotes ----

  /** The address of an operand without base and index, seen from an instruction that ends at end. */
  function Denotes(m: Mem, end: int): int {
    m.disp + (if m.isRip then end else 0)
  }

  /**
   * How far behind its label a linked operand lands: the fixup counts from the end of the displacement field,
   * the processor from the end of the instruction.
   */
  function Slip(i: Instruction): nat {
    if LabelledMem(i).Some? && LabelledMem(i).value.isRip then ImmBytes(i) else 0
  }

  /** The displacement of the linked operand of a straight instruction that ends at end. */
  function LinkDisp(i: Instruction, end: int, addresses: map<string, int>): int
    requires LabelledMem(i).Some? && LabelledMem(i).value.lbl in addresses
  {
    var m := LabelledMem(i).value;
    addresses[m.lbl] + m.disp + Slip(i) - (if m.isRip then end else 0)
  }

  /** The field of a straight instruction ends up with that displacement. */
  lemma FieldMeaning(c: Chunk, i: Instruction, env: Env, addresses: map<string, int>)
    requires Straight(i) && Dispatch(i, env) == Some(c.e)
    requires Linkable(c, addresses)
    ensures c.e.field.Some? <==> LabelledMem(i).Some?
    ensures c.e.field.Some? ==>
      && LabelledMem(i).value.lbl in addresses
      && FieldValue(c, addresses) == LinkDisp(i, c.at + |c.e.bytes|, addresses)
  {
    hide Straight, Dispatch, LabelledMem, ImmBytes, Le, Signed;
    StraightField(i, env);
    if c.e.field.Some? {
      LabelledFits(i);
      SignedLe32(LabelledMem(i).value.disp);
    }
  }

  lemma LabelledFits(i: Instruction)
    requires Straight(i)
    ensures LabelledMem(i).Some? ==> FitsInt32(LabelledMem(i).value.disp)
    ensures LabelledMem(i).Some? ==> LabelMem(Memory(LabelledMem(i).value))
  {
  }

  lemma SameConflict(o: Operand, v: int)
    ensures NeedsRex(LinkOperand(o, v)) == NeedsRex(o) && IsHigh8(LinkOperand(o, v)) == IsHigh8(o)
  {
  }
}
