// Labelled memory operands: which address the processor reads from the resolved text, and when that is
// the address of the label.

module Reaching {
  import opened Bytes
  import opened Operands
  import opened Encoding
  import opened Decoding
  import opened RmRoundTrip
  import opened RoundTrip
  import opened Linking
  import opened Listing
  import Symbols
  import L = Layout
  import F = Fixups

  /** An instruction with a memory operand that names a label, or a load from a label. */
  predicate LabelRef(i: Instruction) {
    (Straight(i) && LabelledMem(i).Some?) || LabelLoad(i)
  }

  /** Which operand that is. */
  function LabelIndex(i: Instruction): nat
    requires LabelRef(i)
  {
    if i.operands[0].Memory? && i.operands[0].mem.lbl != "" then 0 else 1
  }

  /** The displacement written beside the label. */
  function Addend(i: Instruction): int
    requires LabelRef(i)
  {
    if LabelLoad(i) then 0 else LabelledMem(i).value.disp
  }

  /** The form whose fixup misses: a label relative to rip, with an immediate behind it. */
  predicate RipBeforeImmediate(i: Instruction) {
    LabelledMem(i).Some? && LabelledMem(i).value.isRip && ImmBytes(i) > 0
  }

  /** The listed operand denotes label plus addend, moved on by the immediate bytes behind a rip-relative one. */
  lemma FinalDenotes(i: Instruction, end: int, addresses: map<string, int>)
    requires LabelRef(i) && LabelKnown(i, addresses)
    ensures LabelOf(i).Some? && !LabelBranch(i)
    ensures var os, j := FinalInst(i, end, addresses).operands, LabelIndex(i);
      && j < |os| && os[j].Memory? && os[j].mem.base == None && os[j].mem.index == None
      && Denotes(os[j].mem, end)
         == addresses[LabelOf(i).value] + Addend(i) + (if RipBeforeImmediate(i) then ImmBytes(i) else 0)
  {
    if LabelLoad(i) {
      assert LabelledMem(i) == None;
    } else {
      NotLabel(i);
      LabelledFits(i);
      LinkedDenotes(i, LinkDisp(i, end, addresses));
    }
  }

  lemma LinkedDenotes(i: Instruction, v: int)
    requires Straight(i) && LabelledMem(i).Some?
    ensures var os, j := Shown(LinkInst(i, v)).operands, LabelIndex(i);
      && j < |os| && os[j].Memory? && os[j].mem.base == None && os[j].mem.index == None
      && os[j].mem.disp == v && os[j].mem.isRip == LabelledMem(i).value.isRip
  {
    hide Shown, LinkInst, ImmBytes;
    LinkParts(i, v);
    ShownMemory(LinkInst(i, v), LabelIndex(i));
    LinkedOperand(i, v);
  }

  /** The operand with the label, linked. */
  lemma LinkedOperand(i: Instruction, v: int)
    requires Straight(i) && LabelledMem(i).Some?
    ensures var k := LabelIndex(i);
      && k < |i.operands| && i.operands[k].Memory? && LinkOperand(i.operands[k], v).Memory?
      && var m := View(LinkOperand(i.operands[k], v)).mem;
         m.base == None && m.index == None && m.disp == v && m.isRip == LabelledMem(i).value.isRip
  {
    hide WellFormed, RmAccepted, ShapeKept, IsGpr, Wide, Shown, LinkInst;
  }

  /** A memory operand of a listed instruction is shown in its place. */
  lemma ShownMemory(i: Instruction, k: nat)
    requires k < |i.operands| && i.operands[k].Memory?
    ensures |Shown(i).operands| == |i.operands| && Shown(i).operands[k] == View(i.operands[k])
  {
  }

  /**
   * The memory analogue of branch soundness: in any pass whose fixups resolve, settled or not, a memory
   * operand that names a label decodes to one that denotes label plus addend, if and only if it is not
   * rip-relative with an immediate behind it; then it denotes the address as many bytes further on.
   */
  lemma MemorySoundness(prog: seq<L.Statement>, forward: bool, symbols: map<string, Symbols.Sym>,
                        addresses: map<string, int>, text: seq<byte>, k: nat)
    requires L.Pass(prog, forward, symbols).Some?
    requires var cs := L.Pass(prog, forward, symbols).value.chunks;
      && k < |cs| && cs[k].stmt.body.Inst? && LabelRef(cs[k].stmt.body.inst)
      && F.Resolve(L.Text(cs), L.Fixups(cs), addresses) == Some(text)
    ensures var cs := L.Pass(prog, forward, symbols).value.chunks; var i := cs[k].stmt.body.inst;
      var d, j := DecodeOne(text, L.BASE, Start(cs, k)), LabelIndex(i);
      && LabelOf(i).Some? && LabelOf(i).value in addresses
      && d.Some? && d.value.length == |cs[k].e.bytes| && j < |ViewInst(d.value.inst).operands|
      && var o := ViewInst(d.value.inst).operands[j];
         var target := addresses[LabelOf(i).value] + Addend(i);
         && o.Memory? && o.mem.base == None && o.mem.index == None
         && Denotes(o.mem, End(cs[k])) == target + (if RipBeforeImmediate(i) then ImmBytes(i) else 0)
         && (Denotes(o.mem, End(cs[k])) == target <==> !RipBeforeImmediate(i))
  {
    hide L.Run, L.Text, L.Fixups, L.EncodedAt, F.Resolve, Encode, Dispatch, Straight, DecodeOne, L.Emitted, L.Placed;
    hide LabelIndex, Addend, ImmBytes, FinalInst, ViewInst, LabelledMem;
    var cs := L.Pass(prog, forward, symbols).value.chunks;
    var c, i := cs[k], cs[k].stmt.body.inst;
    L.RunPlaced(prog, |prog|, forward, symbols);
    ChunkLinked(cs, addresses, text, k);
    var seen := L.AllEncoded(prog, |prog|, forward, symbols, k);
    var env := Env(c.at, seen, forward);
    RefLabel(i);
    EncodedDispatch(cs, k, env);
    if LabelLoad(i) {
      LoadDecodes(c, env, addresses, text, Start(cs, k));
    } else {
      StraightDecodes(c, env, addresses, text, Start(cs, k));
    }
    FinalDenotes(i, End(c), addresses);
    MissedBytes(i);
  }

  lemma RefLabel(i: Instruction)
    requires LabelRef(i)
    ensures LabelOf(i).Some? && !LabelBranch(i)
  {
    if !LabelLoad(i) {
      NotLabel(i);
    }
  }

  lemma MissedBytes(i: Instruction)
    ensures RipBeforeImmediate(i) ==> ImmBytes(i) == 1 || ImmBytes(i) == 4
  {
  }

  // ---- a program that misses its label ----

  const MISSING: Instruction := Instruction(Alu(Add), [Memory(NO_MEM.(isRip := true, lbl := "x")), Imm(1)])
  const MISSING_PROGRAM: seq<L.Statement> := [L.Statement("", L.Inst(MISSING), 1)]
  const MISSING_SYMBOLS: map<string, Symbols.Sym> := map["x" := Symbols.Sym(0x50_0000, 1, false)]

  lemma MissingBytes(env: Env)
    ensures Straight(MISSING) && Encode(MISSING, env)
         == Some(Emission([0x48, 0x83, 0x05] + Le(0, 4) + [1], Some(Field("x", 3, 4, true))))
  {
    var rm := MISSING.operands[0];
    NoPrefix(MISSING, env);
    AluImmForm(Add, rm, 1);
    assert Rex(true, None, Some(rm)) == [0x48] && MakeModRm(0, 0, 5) == 0x05;
    hide Rex, MakeModRm, Le;
    assert ([] + [0x48] + [0x83]) + ([0x05] + Le(0, 4)) + [1] == [0x48, 0x83, 0x05] + Le(0, 4) + [1];
  }

  /** The one pass of that program. */
  lemma MissingPass()
    ensures var st := L.Pass(MISSING_PROGRAM, false, MISSING_SYMBOLS);
      && st.Some? && !st.value.changed && st.value.symbols == MISSING_SYMBOLS
      && st.value.chunks == [L.Chunk(L.BASE, MISSING_PROGRAM[0],
           Emission([0x48, 0x83, 0x05] + Le(0, 4) + [1], Some(Field("x", 3, 4, true))))]
  {
    hide Encode, Le, L.Step;
    var start := L.PassState(false, MISSING_SYMBOLS, [], false);
    assert L.Run(MISSING_PROGRAM, 0, false, MISSING_SYMBOLS) == Some(start);
    assert |MISSING_PROGRAM| == 1;
    assert L.Run(MISSING_PROGRAM, 1, false, MISSING_SYMBOLS) == L.Step(MISSING_PROGRAM[0], false, start);
    MissingStep(start);
  }

  lemma MissingStep(start: L.PassState)
    requires start == L.PassState(false, MISSING_SYMBOLS, [], false)
    ensures L.Step(MISSING_PROGRAM[0], false, start)
         == Some(start.(chunks := [L.Chunk(L.BASE, MISSING_PROGRAM[0],
              Emission([0x48, 0x83, 0x05] + Le(0, 4) + [1], Some(Field("x", 3, 4, true))))]))
  {
    hide Encode, Le;
    assert L.Here(start) == L.BASE && L.Text([]) == [] && L.Fixups([]) == [];
    var env := Env(L.BASE, L.Addresses(MISSING_SYMBOLS), false);
    MissingBytes(env);
    var e := Emission([0x48, 0x83, 0x05] + Le(0, 4) + [1], Some(Field("x", 3, 4, true)));
    assert |e.bytes| == 8;
    assert L.Emitted(MISSING_PROGRAM[0], env, L.CAPACITY) == Some(e);
    hide L.Emitted;
    assert [] + [L.Chunk(L.BASE, MISSING_PROGRAM[0], e)] == [L.Chunk(L.BASE, MISSING_PROGRAM[0], e)];
  }

  /** add qword [rip+x], 1 is assembled without complaint and adds to the address behind x. */
  lemma RipImmediateMisses()
    ensures var st := L.Pass(MISSING_PROGRAM, false, MISSING_SYMBOLS);
      && st.Some? && !st.value.changed
      && var cs := st.value.chunks;
         var text := F.Resolve(L.Text(cs), L.Fixups(cs), L.Addresses(MISSING_SYMBOLS));
         && text.Some? && DecodeOne(text.value, L.BASE, 0).Some?
         && var d := DecodeOne(text.value, L.BASE, 0).value;
            && |ViewInst(d.inst).operands| > 0 && ViewInst(d.inst).operands[0].Memory?
            && Denotes(ViewInst(d.inst).operands[0].mem, L.BASE + d.length) == 0x50_0001
  {
    hide Encode, Le, L.Run, DecodeOne, ViewInst, F.Resolve, L.Text, L.Fixups, Straight, ImmBytes;
    MissingPass();
    var cs := L.Pass(MISSING_PROGRAM, false, MISSING_SYMBOLS).value.chunks;
    MissingResolves(cs);
    MissingShape();
    StartZero(cs);
    var text := F.Resolve(L.Text(cs), L.Fixups(cs), L.Addresses(MISSING_SYMBOLS)).value;
    MemorySoundness(MISSING_PROGRAM, false, MISSING_SYMBOLS, L.Addresses(MISSING_SYMBOLS), text, 0);
  }

  lemma MissingShape()
    ensures Straight(MISSING) && LabelRef(MISSING) && RipBeforeImmediate(MISSING) && ImmBytes(MISSING) == 1
    ensures LabelIndex(MISSING) == 0 && Addend(MISSING) == 0 && LabelOf(MISSING) == Some("x")
  {
    MissingBytes(Env(0, map[], false));
    hide Straight;
  }

  lemma MissingResolves(cs: seq<Chunk>)
    requires cs == [L.Chunk(L.BASE, MISSING_PROGRAM[0],
                            Emission([0x48, 0x83, 0x05] + Le(0, 4) + [1], Some(Field("x", 3, 4, true))))]
    ensures F.Resolve(L.Text(cs), L.Fixups(cs), L.Addresses(MISSING_SYMBOLS)).Some?
  {
    hide Le, Signed;
    assert cs[..0] == [] && L.Text([]) == [] && L.Fixups([]) == [];
    assert L.Text(cs) == [0x48, 0x83, 0x05] + Le(0, 4) + [1];
    var f := L.Fixup("x", L.BASE + 3, 4, true);
    assert L.Fixups(cs) == [f];
    var text := L.Text(cs);
    assert F.Slice(text, f) == Le(0, 4);
    SignedLe32(0);
    hide F.Resolve;
    F.ResolveFields(text, [f], L.Addresses(MISSING_SYMBOLS));
  }
}
