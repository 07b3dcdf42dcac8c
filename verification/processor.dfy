// What the processor is told by the bytes the assembler appends for an instruction: the row of the opcode map,
// the operands with their sizes and values, and the segment. The encoder's forms are compared with that.

module Processor {
  import opened Bytes
  import opened Operands
  import opened Encoding
  import opened Decoding
  import opened Text
  import opened RmRoundTrip
  import opened RoundTrip
  import opened Manual
  import Mnemonics

  // ---- reading an instruction as the instruction set defines it ----

  datatype Run = Run(word: string, operands: seq<Operand>, segment: Segment, length: int)

  /** The row of the opcode map at p, for the one- and two-byte opcodes. */
  function RowOf(code: seq<byte>, p: nat): Option<Mnemonics.Found>
    requires p < |code|
  {
    if code[p] != 0x0F then
      var row :- OneByte(code[p], if p + 1 < |code| then RegOf(code[p + 1]) else 0);
      Some(Mnemonics.Found(row, code[p], p + 1))
    else if p + 1 >= |code| then None
    else
      var row :- TwoByte(code[p + 1], if p + 2 < |code| then RegOf(code[p + 2]) else 0);
      Some(Mnemonics.Found(row, code[p + 1], p + 2))
  }

  /** Immediates are extended with their sign, but for single bytes of their own and the operand of ret. */
  function Taken(n: Count, field: seq<byte>): int {
    if n == Unsigned8 || n == Count.Two then Unsigned(field) else Signed(field)
  }

  function Operate(slot: Slot, at: Place, field: seq<byte>, next: int): Operand {
    if slot.OfImm? then Imm(Taken(slot.n, field)) else View(OperandOf(slot, at, field, next))
  }

  function OperateAll(slots: seq<Slot>, at: Place, field: seq<byte>, next: int): seq<Operand> {
    seq(|slots|, k requires 0 <= k < |slots| => Operate(slots[k], at, field, next))
  }

  function SegmentIn(prefixes: seq<byte>): Segment {
    if 0x64 in prefixes then Fs else if 0x65 in prefixes then Gs else Default
  }

  /** The instruction at start. */
  function Executes(code: seq<byte>, base: int, start: nat): Option<Run>
    requires start <= |code|
  {
    var pre := ScanPrefixes(code, start, false, 0);
    if pre.cursor >= |code| then None
    else
      var f :- RowOf(code, pre.cursor);
      var at := Place(code, f.behind, f.op, pre.rex, pre.opSize);
      var r :- Read(f.row.slots, at, base);
      Some(Run(f.row.word, OperateAll(f.row.slots, at, r.field, base + r.end),
               SegmentIn(code[start..pre.cursor]), r.end - start))
  }

  // ---- what a form's parts become ----

  type Gp = r: int | 0 <= r < 16

  // The sizes in force, whether there is a REX byte, the ModRM operand, the register field, the register in the
  // opcode, and the immediate bytes.
  datatype Facts = Facts(wide: bool, narrow: bool, rexed: bool, rm: Operand, reg: Gp, low: Gp, imm: seq<byte>) {
    predicate Valid() { (rm.Reg? && IsGpr(rm.reg)) || rm.Memory? }

    function Size(w: Width): RegSize {
      match w
      case Byte => R8
      case Word => R16
      case Dword => R32
      case Qword => R64
      case Sized => if wide then R64 else if narrow then R16 else R32
    }

    function Length(n: Count): nat {
      match n
      case Signed8 | Unsigned8 => 1
      case Two => 2
      case Near => 4
      case Four => if narrow && !wide then 2 else 4
      case Full => if wide then 8 else if narrow then 2 else 4
    }

    function Show(slot: Slot): Operand
      requires Valid()
    {
      match slot
      case OfRm(w) => if rm.Reg? then SelectReg(rm.reg, Size(w), rexed) else View(rm)
      case OfReg(w) => SelectReg(reg, Size(w), rexed)
      case OfOpcode(w) => SelectReg(low, Size(w), rexed)
      case OfAx(w) => SelectReg(0, Size(w), rexed)
      case OfImm(n) => Imm(Taken(n, imm))
      case OfRel(n) => Imm(0)
    }

    function ShowAll(slots: seq<Slot>): seq<Operand>
      requires Valid()
    {
      seq(|slots|, k requires 0 <= k < |slots| => Show(slots[k]))
    }
  }

  /** Slots without a displacement, with an immediate of imm bytes at most at the end. */
  predicate SlotsFit(slots: seq<Slot>, f: Facts) {
    && (forall k :: 0 <= k < |slots| ==> !slots[k].OfRel?)
    && (forall k :: 0 <= k < |slots| - 1 ==> !slots[k].OfImm?)
    && |f.imm| == (if slots != [] && slots[|slots| - 1].OfImm? then f.Length(slots[|slots| - 1].n) else 0)
  }

  predicate Agree(f: Facts, at: Place) {
    f.wide == RexW(at.rex) && f.narrow == at.narrow && f.rexed == (at.rex != 0)
  }

  lemma {:induction false} FieldBytes(slots: seq<Slot>, f: Facts, at: Place)
    requires SlotsFit(slots, f) && Agree(f, at)
    ensures FieldLength(slots, at) == |f.imm|
  {
    if |slots| > 1 {
      var rest := slots[1..];
      assert rest[|rest| - 1] == slots[|slots| - 1];
      assert forall k :: 0 <= k < |rest| ==> rest[k] == slots[k + 1];
      FieldBytes(rest, f, at);
    } else if |slots| == 1 {
      assert slots[1..] == [];
    }
  }

  /** The ModRM operand among the slots. */
  predicate RmAt(slots: seq<Slot>, j: nat) {
    j < |slots| && slots[j].OfRm? && forall k :: 0 <= k < |slots| && slots[k].OfRm? ==> k == j
  }

  predicate NoRm(slots: seq<Slot>) { forall k :: 0 <= k < |slots| ==> !slots[k].OfRm? && !slots[k].OfReg? }

  lemma {:induction false} RmBytes(slots: seq<Slot>, j: nat, at: Place)
    requires RmAt(slots, j)
    ensures RmLength(slots, at)
         == match DecodeRm(at.code, at.p, at.rex, SizeOf(slots[j].w, at))
            case None => None
            case Some(r) => Some(r.length)
    decreases j
  {
    hide DecodeRm, SizeOf;
    if j > 0 {
      assert forall k :: 0 <= k < |slots| - 1 ==> slots[1..][k] == slots[k + 1];
      RmBytes(slots[1..], j - 1, at);
    }
  }

  lemma {:induction false} NoRmBytes(slots: seq<Slot>, at: Place)
    requires NoRm(slots)
    ensures RmLength(slots, at) == Some(0)
  {
    hide DecodeRm, SizeOf;
    if slots != [] {
      NoRmBytes(slots[1..], at);
    }
  }

  /** The bytes give the slot what the facts say. */
  ghost predicate Given(slot: Slot, f: Facts, at: Place)
    requires f.Valid()
  {
    match slot
    case OfRm(w) =>
      var r := DecodeRm(at.code, at.p, at.rex, f.Size(w));
      r.Some? && View(r.value.operand) == f.Show(slot)
    case OfReg(_) => at.p < |at.code| && RegOf(at.code[at.p]) + RexR(at.rex) == f.reg
    case OfOpcode(_) => at.op % 8 + RexB(at.rex) == f.low
    case OfAx(_) => true
    case OfImm(_) => true
    case OfRel(_) => false
  }

  lemma SlotShown(slot: Slot, f: Facts, at: Place, next: int)
    requires f.Valid() && Agree(f, at) && Given(slot, f, at)
    ensures Operate(slot, at, f.imm, next) == f.Show(slot)
  {
    hide DecodeRm, RegOf, RexR, RexB, RexW, Signed, Unsigned;
  }

  /** The row and its operands, from the prefixes, the opcode and the parts behind it. */
  lemma Told(code: seq<byte>, base: int, start: nat, q: nat, rex: byte, found: Mnemonics.Found, length: nat, f: Facts)
    requires start <= q < |code| && ScanPrefixes(code, start, false, 0) == Prefixes(q, f.narrow, rex)
    requires RowOf(code, q) == Some(found) && f.Valid() && SlotsFit(found.row.slots, f)
    requires var at := Place(code, found.behind, found.op, rex, f.narrow);
      && Agree(f, at) && RmLength(found.row.slots, at) == Some(length)
      && ReadField(code, found.behind + length, |f.imm|) == Some(f.imm)
      && forall k :: 0 <= k < |found.row.slots| ==> Given(found.row.slots[k], f, at)
    ensures Executes(code, base, start)
         == Some(Run(found.row.word, f.ShowAll(found.row.slots), SegmentIn(code[start..q]),
                     found.behind + length + |f.imm| - start))
  {
    hide Given, Operate, RmLength, FieldLength, OperandsOf, ScanPrefixes, RowOf, SlotsFit, SegmentIn;
    var at := Place(code, found.behind, found.op, rex, f.narrow);
    FieldBytes(found.row.slots, f, at);
    var next := base + found.behind + length + |f.imm|;
    forall k | 0 <= k < |found.row.slots|
      ensures Operate(found.row.slots[k], at, f.imm, next) == f.Show(found.row.slots[k])
    {
      SlotShown(found.row.slots[k], f, at, next);
    }
    hide Facts.Show, Agree;
    assert OperateAll(found.row.slots, at, f.imm, next) == f.ShowAll(found.row.slots);
  }

  // ---- prefixes ----

  predicate Lead(lead: seq<byte>) { lead == [] || lead == [0x64] || lead == [0x65] }

  function Narrowing(narrow: bool): seq<byte> { if narrow then [0x66] else [] }

  lemma ScanPast(code: seq<byte>, p: nat, opSize: bool, rex: byte)
    requires p < |code| && IsPrefix(code[p])
    ensures ScanPrefixes(code, p, opSize, rex) == ScanPrefixes(code, p + 1, opSize || code[p] == 0x66,
                                                               if 0x40 <= code[p] <= 0x4F then code[p] else rex)
  {
  }

  lemma RexPassed(code: seq<byte>, r: nat, narrow: bool, rex: seq<byte>, op: byte)
    requires |rex| <= 1 && (rex != [] ==> 0x40 <= rex[0] <= 0x4F) && !IsPrefix(op)
    requires At(code, r, rex + [op])
    ensures var q := r + |rex|;
      q < |code| && code[q] == op && ScanPrefixes(code, r, narrow, 0) == Prefixes(q, narrow, RexByte(rex))
  {
    hide At;
    var q := r + |rex|;
    AtInside(code, r, rex + [op]);
    AtByte(code, r, rex + [op], |rex|);
    if rex != [] {
      AtByte(code, r, rex + [op], 0);
    }
    assert ScanPrefixes(code, q, narrow, RexByte(rex)) == Prefixes(q, narrow, RexByte(rex));
    hide ScanPrefixes;
    if rex != [] {
      ScanPast(code, r, narrow, 0);
    }
  }

  /** One of the bytes 64, 65 and 66, or none. */
  lemma OnePassed(code: seq<byte>, p: nat, s: seq<byte>, opSize: bool)
    requires At(code, p, s) && (s == [] || s == [0x64] || s == [0x65] || s == [0x66])
    ensures ScanPrefixes(code, p, opSize, 0) == ScanPrefixes(code, p + |s|, opSize || s == [0x66], 0)
  {
    hide ScanPrefixes, At;
    AtInside(code, p, s);
    if s != [] {
      AtByte(code, p, s, 0);
      ScanPast(code, p, opSize, 0);
    }
  }

  lemma PrefixesPassed(code: seq<byte>, start: nat, lead: seq<byte>, narrow: bool, rex: seq<byte>, op: byte)
    requires Lead(lead) && |rex| <= 1 && (rex != [] ==> 0x40 <= rex[0] <= 0x4F) && !IsPrefix(op)
    requires At(code, start, (lead + Narrowing(narrow)) + (rex + [op]))
    ensures var q := start + |lead| + |Narrowing(narrow)| + |rex|;
      && q < |code| && code[q] == op && ScanPrefixes(code, start, false, 0) == Prefixes(q, narrow, RexByte(rex))
      && SegmentIn(code[start..q]) == SegmentIn(lead)
  {
    hide At, SegmentIn, ScanPrefixes, IsPrefix;
    var n := start + |lead|;
    var r := n + |Narrowing(narrow)|;
    AtSplit(code, start, lead + Narrowing(narrow), rex + [op]);
    AtSplit(code, start, lead, Narrowing(narrow));
    AtSplit(code, r, rex, [op]);
    RexPassed(code, r, narrow, rex, op);
    OnePassed(code, n, Narrowing(narrow), false);
    OnePassed(code, start, lead, false);
    SegmentSeen(code, start, lead, narrow, rex);
  }

  lemma SegmentSeen(code: seq<byte>, start: nat, lead: seq<byte>, narrow: bool, rex: seq<byte>)
    requires Lead(lead) && |rex| <= 1 && (rex != [] ==> 0x40 <= rex[0] <= 0x4F)
    requires At(code, start, lead) && At(code, start + |lead|, Narrowing(narrow))
    requires At(code, start + |lead| + |Narrowing(narrow)|, rex)
    ensures SegmentIn(code[start..start + |lead| + |Narrowing(narrow)| + |rex|]) == SegmentIn(lead)
  {
    hide SegmentIn;
    AtJoin(code, start, lead, Narrowing(narrow));
    AtJoin(code, start, lead + Narrowing(narrow), rex);
    SegmentOfParts(lead, Narrowing(narrow), rex);
    assert code[start..start + |(lead + Narrowing(narrow)) + rex|] == (lead + Narrowing(narrow)) + rex;
  }

  lemma SegmentOfParts(lead: seq<byte>, more: seq<byte>, rex: seq<byte>)
    requires forall b :: b in more || b in rex ==> b != 0x64 && b != 0x65
    ensures SegmentIn((lead + more) + rex) == SegmentIn(lead)
  {
  }

  // ---- the forms ----

  ghost predicate IsRow(opcode: seq<byte>, ext: nat, row: Row)
    requires ext < 8
  {
    if |opcode| == 1 then opcode[0] != 0x0F && !IsPrefix(opcode[0]) && OneByte(opcode[0], ext) == Some(row)
    else |opcode| == 2 && opcode[0] == 0x0F && TwoByte(opcode[1], ext) == Some(row)
  }

  /** A general register, or memory that survives the ModRM byte, with any segment. */
  predicate GprOrMem(o: Operand) {
    (o.Reg? && IsGpr(o.reg)) || (o.Memory? && WellFormed(o.mem) && RmAccepted(o) && RoundTrips(o.mem))
  }

  function Bare(o: Operand): Operand { if o.Memory? then Memory(o.mem.(segment := Default)) else o }

  lemma SegmentIgnored(prefix: seq<byte>, w: bool, regOp: Option<Operand>, rm: Operand, opcode: seq<byte>, reg: int,
                       imm: seq<byte>)
    requires GprOrMem(rm)
    ensures Form(prefix, w, regOp, rm, opcode, reg, imm) == Form(prefix, w, regOp, Bare(rm), opcode, reg, imm)
    ensures Rex(w, regOp, Some(rm)) == Rex(w, regOp, Some(Bare(rm)))
    ensures View(Bare(rm)) == View(rm) && (rm.Memory? ==> MemIn(Bare(rm)))
  {
    hide Le, MakeModRm, MakeSib, MakeRex;
  }

  lemma Chained(n: seq<byte>, rex: seq<byte>, opcode: seq<byte>, m: seq<byte>, imm: seq<byte>)
    ensures n + rex + opcode + m + imm == n + ([] + rex + opcode + m + imm)
  {
  }

  lemma NarrowForm(narrow: bool, w: bool, regOp: Option<Operand>, rm: Operand, opcode: seq<byte>, reg: int,
      imm: seq<byte>)
    requires Form([], w, regOp, rm, opcode, reg, imm).Some?
    ensures Form(Narrowing(narrow), w, regOp, rm, opcode, reg, imm).Some?
    ensures Form(Narrowing(narrow), w, regOp, rm, opcode, reg, imm).value.bytes
         == Narrowing(narrow) + Form([], w, regOp, rm, opcode, reg, imm).value.bytes
  {
    hide ModRm, Rex, Narrowing;
    Chained(Narrowing(narrow), Rex(w, regOp, Some(rm)), opcode, ModRm(reg, rm).value.bytes, imm);
  }

  function FormFacts(narrow: bool, w: bool, regOp: Option<Operand>, rm: Operand, reg: Gp, imm: seq<byte>): Facts {
    Facts(w, narrow, Rex(w, regOp, Some(rm)) != [], rm, reg, 0, imm)
  }

  /** The register field: a register operand, or an extension of the opcode. */
  predicate FieldOf(regOp: Option<Operand>, reg: Gp) {
    if regOp.Some? then regOp.value.Reg? && regOp.value.reg == reg else reg < 8
  }

  /** Behind the override and 66 stands the form without them. */
  lemma FormStands(lead: seq<byte>, narrow: bool, w: bool, regOp: Option<Operand>, rm: Operand, opcode: seq<byte>,
                   reg: int, imm: seq<byte>, code: seq<byte>, start: nat)
    requires GprOrMem(rm)
    requires Form(Narrowing(narrow), w, regOp, rm, opcode, reg, imm).Some?
    requires At(code, start, lead + Form(Narrowing(narrow), w, regOp, rm, opcode, reg, imm).value.bytes)
    ensures var n, e := Narrowing(narrow), Form([], w, regOp, Bare(rm), opcode, reg, imm);
      && e.Some? && At(code, start, lead + n) && At(code, start + |lead| + |n|, e.value.bytes)
      && |Form(n, w, regOp, rm, opcode, reg, imm).value.bytes| == |n| + |e.value.bytes|
  {
    hide Form, At, GprOrMem, RmAccepted;
    SegmentIgnored(Narrowing(narrow), w, regOp, rm, opcode, reg, imm);
    FormAccepted(Narrowing(narrow), w, regOp, Bare(rm), opcode, reg, imm);
    FormAccepted([], w, regOp, Bare(rm), opcode, reg, imm);
    NarrowForm(narrow, w, regOp, Bare(rm), opcode, reg, imm);
    var e, n := Form([], w, regOp, Bare(rm), opcode, reg, imm).value.bytes, Narrowing(narrow);
    assert lead + (n + e) == (lead + n) + e;
    AtSplit(code, start, lead + n, e);
  }

  lemma FormRuns(lead: seq<byte>, narrow: bool, w: bool, regOp: Option<Operand>, rm: Operand, opcode: seq<byte>,
                 reg: Gp, imm: seq<byte>, row: Row, j: nat, code: seq<byte>, base: int, start: nat)
    requires Lead(lead) && GprOrMem(rm) && FieldOf(regOp, reg) && IsRow(opcode, reg % 8, row) && RmAt(row.slots, j)
    requires SlotsFit(row.slots, FormFacts(narrow, w, regOp, rm, reg, imm))
    requires forall k :: 0 <= k < |row.slots| ==> !row.slots[k].OfOpcode?
    requires Form(Narrowing(narrow), w, regOp, rm, opcode, reg, imm).Some?
    requires At(code, start, lead + Form(Narrowing(narrow), w, regOp, rm, opcode, reg, imm).value.bytes)
    ensures start <= |code|
    ensures Executes(code, base, start)
         == Some(Run(row.word, FormFacts(narrow, w, regOp, rm, reg, imm).ShowAll(row.slots), SegmentIn(lead),
                     |lead| + |Form(Narrowing(narrow), w, regOp, rm, opcode, reg, imm).value.bytes|))
  {
    hide Form, Rex, ModRm, DecodeRm, RegOf, RexB, RexX, RexR, RexW, Executes, SegmentIn, ScanPrefixes, At, View,
         RoundTrips, WellFormed, RmAccepted, SlotsFit, IsPrefix, OneByte, TwoByte, RmLength;
    FormStands(lead, narrow, w, regOp, rm, opcode, reg, imm, code, start);
    SegmentIgnored([], w, regOp, rm, opcode, reg, imm);
    var o, n := Bare(rm), Narrowing(narrow);
    var e := Form([], w, regOp, o, opcode, reg, imm).value.bytes;
    var s0 := start + |lead| + |n|;
    var rex := Rex(w, regOp, Some(o));
    var f := FormFacts(narrow, w, regOp, rm, reg, imm);
    var size := f.Size(row.slots[j].w);
    FormParts(w, regOp, o, opcode, reg, imm, code, s0, size);
    hide Parts;
    FormHead(w, regOp, o, opcode, reg, imm);
    NoPrefixOpcode(opcode, reg % 8, row);
    OpcodeStands(code, start, lead, narrow, rex, opcode, e);
    var length := |ModRm(reg, o).value.bytes|;
    PartsRun(code, base, start, s0 + |rex|, narrow, w, regOp, rm, opcode, reg, imm, row, j, length);
  }

  lemma FormHead(w: bool, regOp: Option<Operand>, rm: Operand, opcode: seq<byte>, reg: int, imm: seq<byte>)
    requires Form([], w, regOp, rm, opcode, reg, imm).Some?
    ensures Rex(w, regOp, Some(rm)) + opcode <= Form([], w, regOp, rm, opcode, reg, imm).value.bytes
    ensures var rex := Rex(w, regOp, Some(rm)); rex != [] ==> 0x40 <= rex[0] <= 0x4F
  {
    hide Rex, ModRm, Form;
    FormBytes(w, regOp, rm, opcode, reg, imm);
    RexFields(w, regOp, rm);
  }

  lemma NoPrefixOpcode(opcode: seq<byte>, ext: nat, row: Row)
    requires ext < 8 && IsRow(opcode, ext, row)
    ensures (|opcode| == 1 || |opcode| == 2) && !IsPrefix(opcode[0])
  {
    hide OneByte, TwoByte;
  }

  /** Behind the prefixes: the opcode's row on the parts of the form. */
  lemma PartsRun(code: seq<byte>, base: int, start: nat, q: nat, narrow: bool, w: bool, regOp: Option<Operand>,
                 rm: Operand,
                 opcode: seq<byte>, reg: Gp, imm: seq<byte>, row: Row, j: nat, length: nat)
    requires GprOrMem(rm) && FieldOf(regOp, reg) && IsRow(opcode, reg % 8, row) && RmAt(row.slots, j)
    requires var f := FormFacts(narrow, w, regOp, rm, reg, imm);
      && SlotsFit(row.slots, f) && (forall k :: 0 <= k < |row.slots| ==> !row.slots[k].OfOpcode?)
      && var rex := Rex(w, regOp, Some(Bare(rm)));
         start <= q && |rex| <= q && q + |opcode| <= |code| && code[q] == opcode[0]
             && (|opcode| == 2 ==> code[q + 1] == opcode[1])
         && ScanPrefixes(code, start, false, 0) == Prefixes(q, narrow, RexByte(rex))
         && Parts(code, q - |rex|, rex, opcode, f.Size(row.slots[j].w), reg, Bare(rm), length, imm)
    ensures start <= |code|
    ensures Executes(code, base, start)
         == Some(Run(row.word, FormFacts(narrow, w, regOp, rm, reg, imm).ShowAll(row.slots), SegmentIn(code[start..q]),
                     q + |opcode| + length + |imm| - start))
  {
    hide Form, Rex, ModRm, DecodeRm, RegOf, RexB, RexX, RexR, RexW, Executes, SegmentIn, ScanPrefixes, At, View,
         RoundTrips, WellFormed, RmAccepted, SlotsFit, IsPrefix, OneByte, TwoByte, RmLength, SelectReg;
    SegmentIgnored([], w, regOp, rm, opcode, reg, imm);
    var o := Bare(rm);
    var rex := Rex(w, regOp, Some(o));
    RexFields(w, regOp, o);
    var f := FormFacts(narrow, w, regOp, rm, reg, imm);
    var p := q + |opcode|;
    var at := Place(code, p, opcode[|opcode| - 1], RexByte(rex), narrow);
    RmBytes(row.slots, j, at);
    SizeAgrees(row.slots[j].w, f, at);
    var found := Mnemonics.Found(row, opcode[|opcode| - 1], p);
    assert RowOf(code, q) == Some(found);
    hide RowOf, IsRow, GprOrMem;
    assert Given(row.slots[j], f, at);
    hide Facts.Show;
    forall k | 0 <= k < |row.slots|
      ensures Given(row.slots[k], f, at)
    {
      if k != j {
        assert !row.slots[k].OfRm? && !row.slots[k].OfRel?  by { NoRelative(row.slots, f, k); }
      }
    }
    Told(code, base, start, q, RexByte(rex), found, length, f);
  }

  lemma NoRelative(slots: seq<Slot>, f: Facts, k: nat)
    requires SlotsFit(slots, f) && k < |slots|
    ensures !slots[k].OfRel?
  {
  }

  lemma SizeAgrees(w: Width, f: Facts, at: Place)
    requires Agree(f, at)
    ensures f.Size(w) == SizeOf(w, at)
  {
  }

  lemma OpcodeStands(code: seq<byte>, start: nat, lead: seq<byte>, narrow: bool, rex: seq<byte>, opcode: seq<byte>,
      e: seq<byte>)
    requires Lead(lead) && |rex| <= 1 && (rex != [] ==> 0x40 <= rex[0] <= 0x4F)
    requires |opcode| == 1 || |opcode| == 2
    requires !IsPrefix(opcode[0])
    requires At(code, start, lead + Narrowing(narrow)) && At(code, start + |lead| + |Narrowing(narrow)|, e)
    requires rex + opcode <= e
    ensures var q := start + |lead| + |Narrowing(narrow)| + |rex|;
      && q + |opcode| <= |code| && code[q] == opcode[0] && (|opcode| == 2 ==> code[q + 1] == opcode[1])
      && ScanPrefixes(code, start, false, 0) == Prefixes(q, narrow, RexByte(rex))
      && SegmentIn(code[start..q]) == SegmentIn(lead)
  {
    hide At, ScanPrefixes, SegmentIn, IsPrefix;
    var r := start + |lead| + |Narrowing(narrow)|;
    AtBeginning(code, r, rex + opcode, e);
    AtSplit(code, r, rex, opcode);
    AtInside(code, r + |rex|, opcode);
    AtByte(code, r + |rex|, opcode, 0);
    AtByte(code, r + |rex|, opcode, |opcode| - 1);
    AtBeginning(code, r, rex + [opcode[0]], rex + opcode);
    AtJoin(code, start, lead + Narrowing(narrow), rex + [opcode[0]]);
    PrefixesPassed(code, start, lead, narrow, rex, opcode[0]);
  }

  lemma AtBeginning(code: seq<byte>, p: nat, a: seq<byte>, s: seq<byte>)
    requires At(code, p, s) && a <= s
    ensures At(code, p, a)
  {
    assert a + s[|a|..] == s;
    AtSplit(code, p, a, s[|a|..]);
  }

  lemma AtJoin(code: seq<byte>, p: nat, a: seq<byte>, b: seq<byte>)
    requires At(code, p, a) && At(code, p + |a|, b)
    ensures At(code, p, a + b)
  {
    assert code[p..p + |a + b|] == code[p..p + |a|] + code[p + |a|..p + |a| + |b|];
  }

  /** What is known of an encoding without a ModRM byte. */
  function PlainFacts(narrow: bool, rex: seq<byte>, op: byte, imm: seq<byte>): Facts {
    Facts(RexW(RexByte(rex)), narrow, rex != [], Gpr(0), 0, op % 8 + RexB(RexByte(rex)), imm)
  }

  lemma Regrouped(lead: seq<byte>, n: seq<byte>, rex: seq<byte>, opcode: seq<byte>, imm: seq<byte>)
    ensures lead + (n + rex + opcode + imm) == (lead + n) + (rex + opcode + imm)
  {
  }

  lemma PlainRuns(lead: seq<byte>, narrow: bool, rex: seq<byte>, opcode: seq<byte>, imm: seq<byte>, row: Row,
                  code: seq<byte>, base: int, start: nat)
    requires Lead(lead) && |rex| <= 1 && (rex != [] ==> 0x40 <= rex[0] <= 0x4F) && 1 <= |opcode| <= 2
    requires (forall ext: nat | ext < 8 :: IsRow(opcode, ext, row)) && NoRm(row.slots)
    requires SlotsFit(row.slots, PlainFacts(narrow, rex, opcode[|opcode| - 1], imm))
    requires At(code, start, lead + (Narrowing(narrow) + rex + opcode + imm))
    ensures start <= |code|
    ensures Executes(code, base, start)
         == Some(Run(row.word, PlainFacts(narrow, rex, opcode[|opcode| - 1], imm).ShowAll(row.slots), SegmentIn(lead),
                     |lead| + |Narrowing(narrow)| + |rex| + |opcode| + |imm|))
  {
    hide Executes, SegmentIn, ScanPrefixes, At, IsRow, SlotsFit, NoRm, PlainFacts, Facts.ShowAll, IsPrefix;
    var n := Narrowing(narrow);
    var e := rex + opcode + imm;
    assert IsRow(opcode, 0, row);
    NoPrefixOpcode(opcode, 0, row);
    Regrouped(lead, n, rex, opcode, imm);
    AtSplit(code, start, lead + n, e);
    OpcodeStands(code, start, lead, narrow, rex, opcode, e);
    AtSplit(code, start + |lead| + |n|, rex + opcode, imm);
    PlainTold(code, base, start, start + |lead| + |n| + |rex|, narrow, rex, opcode, imm, row);
  }

  lemma PlainTold(code: seq<byte>, base: int, start: nat, q: nat, narrow: bool, rex: seq<byte>, opcode: seq<byte>,
                  imm: seq<byte>, row: Row)
    requires |rex| <= 1 && (rex != [] ==> 0x40 <= rex[0] <= 0x4F) && 1 <= |opcode| <= 2
    requires (forall ext: nat | ext < 8 :: IsRow(opcode, ext, row)) && NoRm(row.slots)
    requires SlotsFit(row.slots, PlainFacts(narrow, rex, opcode[|opcode| - 1], imm))
    requires start <= q && q + |opcode| <= |code| && code[q] == opcode[0]
        && (|opcode| == 2 ==> code[q + 1] == opcode[1])
    requires ScanPrefixes(code, start, false, 0) == Prefixes(q, narrow, RexByte(rex)) && At(code, q + |opcode|, imm)
    ensures Executes(code, base, start)
         == Some(Run(row.word, PlainFacts(narrow, rex, opcode[|opcode| - 1], imm).ShowAll(row.slots),
                     SegmentIn(code[start..q]), q + |opcode| + |imm| - start))
  {
    hide RexB, RexW, Executes, SegmentIn, ScanPrefixes, At, IsRow, RmLength, SlotsFit, NoRm, Facts.ShowAll, RowOf,
         Given;
    var p := q + |opcode|;
    AtInside(code, p, imm);
    AtField(code, p, imm);
    var f := PlainFacts(narrow, rex, opcode[|opcode| - 1], imm);
    var at := Place(code, p, opcode[|opcode| - 1], RexByte(rex), narrow);
    NoRmBytes(row.slots, at);
    PlainGiven(row.slots, f, at);
    PlainRow(code, q, opcode, row);
    Told(code, base, start, q, RexByte(rex), Mnemonics.Found(row, opcode[|opcode| - 1], p), 0, f);
  }

  lemma PlainGiven(slots: seq<Slot>, f: Facts, at: Place)
    requires f.Valid() && NoRm(slots) && SlotsFit(slots, f) && at.op % 8 + RexB(at.rex) == f.low
    ensures forall k :: 0 <= k < |slots| ==> Given(slots[k], f, at)
  {
    hide DecodeRm, RegOf, RexR, RexB;
  }

  lemma PlainRow(code: seq<byte>, q: nat, opcode: seq<byte>, row: Row)
    requires forall ext: nat | ext < 8 :: IsRow(opcode, ext, row)
    requires q + |opcode| <= |code| && opcode != [] && code[q] == opcode[0]
        && (|opcode| == 2 ==> code[q + 1] == opcode[1])
    ensures RowOf(code, q) == Some(Mnemonics.Found(row, opcode[|opcode| - 1], q + |opcode|))
  {
    hide OneByte, TwoByte;
    var p := q + |opcode|;
    assert IsRow(opcode, if p < |code| then RegOf(code[p]) else 0, row);
  }

  // ---- the shapes of rows ----

  /** Where the bytes of an encoding stand, behind lead, this is what runs. */
  ghost predicate RunsAs(e: Option<Emission>, lead: seq<byte>, word: string, os: seq<Operand>,
                         code: seq<byte>, base: int, start: nat)
  {
    e.Some? && At(code, start, lead + e.value.bytes) ==>
      start <= |code|
      && Executes(code, base, start) == Some(Run(word, os, SegmentIn(lead), |lead| + |e.value.bytes|))
  }

  /** A register at size s; memory as it is. */
  function As(o: Operand, s: RegSize): Operand { if o.Reg? then Reg(o.reg, s) else View(o) }

  /** The operand size of a form. */
  function SizeIs(narrow: bool, w: bool): RegSize { if w then R64 else if narrow then R16 else R32 }

  lemma ShownOne(a: Slot, f: Facts)
    requires f.Valid()
    ensures f.ShowAll([a]) == [f.Show(a)]
  {
    hide Facts.Show;
  }

  lemma ShownTwo(a: Slot, b: Slot, f: Facts)
    requires f.Valid()
    ensures f.ShowAll([a, b]) == [f.Show(a), f.Show(b)]
  {
    hide Facts.Show;
  }

  lemma ShownThree(a: Slot, b: Slot, c: Slot, f: Facts)
    requires f.Valid()
    ensures f.ShowAll([a, b, c]) == [f.Show(a), f.Show(b), f.Show(c)]
  {
    hide Facts.Show;
  }

  lemma RunRmReg(lead: seq<byte>, narrow: bool, w: bool, r: Operand, rm: Operand, opcode: seq<byte>, regFirst: bool,
                 word: string, code: seq<byte>, base: int, start: nat)
    requires Lead(lead) && GprOrMem(rm) && r.Reg? && IsGpr(r.reg)
    requires var a, b := OfReg(Sized), OfRm(Sized);
      IsRow(opcode, r.reg % 8, Row(word, if regFirst then [a, b] else [b, a]))
    ensures var s := SizeIs(narrow, w); var e := Form(Narrowing(narrow), w, Some(r), rm, opcode, r.reg, []);
      RunsAs(e, lead, word, if regFirst then [As(r, s), As(rm, s)] else [As(rm, s), As(r, s)], code, base, start)
  {
    hide Form, IsRow, Executes, SegmentIn, Rex, At, Lead;
    var a, b := OfReg(Sized), OfRm(Sized);
    var slots := if regFirst then [a, b] else [b, a];
    var f := FormFacts(narrow, w, Some(r), rm, r.reg, []);
    ShownTwo(slots[0], slots[1], f);
    var e := Form(Narrowing(narrow), w, Some(r), rm, opcode, r.reg, []);
    if e.Some? && At(code, start, lead + e.value.bytes) {
      FormRuns(lead, narrow, w, Some(r), rm, opcode, r.reg, [], Row(word, slots), if regFirst then 1 else 0, code,
          base, start);
    }
  }

  /** The form of imul with three operands. */
  lemma RunRegRmImm(lead: seq<byte>, w: bool, r: Operand, rm: Operand, opcode: seq<byte>, n: Count, imm: seq<byte>,
                    word: string, code: seq<byte>, base: int, start: nat)
    requires Lead(lead) && GprOrMem(rm) && r.Reg? && IsGpr(r.reg)
    requires IsRow(opcode, r.reg % 8, Row(word, [OfReg(Sized), OfRm(Sized), OfImm(n)]))
    requires |imm| == (if n == Signed8 then 1 else 4) && (n == Signed8 || n == Four)
    ensures var s := SizeIs(false, w); var e := Form([], w, Some(r), rm, opcode, r.reg, imm);
      RunsAs(e, lead, word, [As(r, s), As(rm, s), Imm(Signed(imm))], code, base, start)
  {
    hide Form, IsRow, Executes, SegmentIn, Rex, At, Lead, Signed;
    var slots := [OfReg(Sized), OfRm(Sized), OfImm(n)];
    var f := FormFacts(false, w, Some(r), rm, r.reg, imm);
    ShownThree(slots[0], slots[1], slots[2], f);
    var e := Form([], w, Some(r), rm, opcode, r.reg, imm);
    if e.Some? && At(code, start, lead + e.value.bytes) {
      FormRuns(lead, false, w, Some(r), rm, opcode, r.reg, imm, Row(word, slots), 1, code, base, start);
    }
  }

  /** A byte operand of a form: without a REX byte, numbers 4 to 7 are ah, ch, dh and bh. */
  function AsByte(o: Operand): Operand {
    if o.Reg? then Reg(o.reg, if 4 <= o.reg < 8 then R8H else R8) else View(o)
  }

  function AtWidth(width: Width, w: bool, rm: Operand): Operand {
    if width == Byte then AsByte(rm) else As(rm, if width == Qword then R64 else SizeIs(false, w))
  }

  lemma WidthShown(width: Width, w: bool, rm: Operand, reg: Gp, imm: seq<byte>)
    requires width == Sized || width == Qword || (width == Byte && !w)
    requires GprOrMem(rm)
    ensures FormFacts(false, w, None, rm, reg, imm).Show(OfRm(width)) == AtWidth(width, w, rm)
  {
    hide MakeRex, WellFormed, RoundTrips, RmAccepted;
  }

  lemma RunRm(lead: seq<byte>, w: bool, rm: Operand, opcode: seq<byte>, ext: nat, width: Width,
              word: string, code: seq<byte>, base: int, start: nat)
    requires Lead(lead) && GprOrMem(rm) && ext < 8
    requires width == Sized || width == Qword || (width == Byte && !w)
    requires IsRow(opcode, ext, Row(word, [OfRm(width)]))
    ensures RunsAs(Form([], w, None, rm, opcode, ext, []), lead, word, [AtWidth(width, w, rm)], code, base, start)
  {
    hide Form, IsRow, Executes, SegmentIn, Rex, At, Lead, AtWidth, Facts.Show;
    var f := FormFacts(false, w, None, rm, ext, []);
    ShownOne(OfRm(width), f);
    WidthShown(width, w, rm, ext, []);
    var e := Form([], w, None, rm, opcode, ext, []);
    if e.Some? && At(code, start, lead + e.value.bytes) {
      FormRuns(lead, false, w, None, rm, opcode, ext, [], Row(word, [OfRm(width)]), 0, code, base, start);
    }
  }

  lemma RunRmImm(lead: seq<byte>, w: bool, rm: Operand, opcode: seq<byte>, ext: nat, width: Width, n: Count,
                 imm: seq<byte>, word: string, code: seq<byte>, base: int, start: nat)
    requires Lead(lead) && GprOrMem(rm) && ext < 8
    requires width == Sized || (width == Byte && !w)
    requires IsRow(opcode, ext, Row(word, [OfRm(width), OfImm(n)]))
    requires |imm| == (if n == Four then 4 else 1) && (n == Signed8 || n == Unsigned8 || n == Four)
    ensures RunsAs(Form([], w, None, rm, opcode, ext, imm), lead, word, [AtWidth(width, w, rm), Imm(Taken(n, imm))],
                   code, base, start)
  {
    hide Form, IsRow, Executes, SegmentIn, Rex, At, Lead, AtWidth, Facts.Show, Taken;
    var f := FormFacts(false, w, None, rm, ext, imm);
    var slots := [OfRm(width), OfImm(n)];
    ShownTwo(slots[0], slots[1], f);
    WidthShown(width, w, rm, ext, imm);
    ImmShown(n, f);
    var e := Form([], w, None, rm, opcode, ext, imm);
    if e.Some? && At(code, start, lead + e.value.bytes) {
      FormRuns(lead, false, w, None, rm, opcode, ext, imm, Row(word, slots), 0, code, base, start);
    }
  }

  lemma ImmShown(n: Count, f: Facts)
    requires f.Valid()
    ensures f.Show(OfImm(n)) == Imm(Taken(n, f.imm))
  {
  }

  // ---- instructions without labels ----

  /** Operands as the parser builds them: general registers, memory that survives the ModRM byte, immediates. */
  predicate Sane(o: Operand) {
    match o
    case Reg(r, size) => IsGpr(r) && size != Xmm && (size == R8H ==> 4 <= r < 8)
    case Memory(m) => WellFormed(m) && RoundTrips(m)
    case Imm(_) => true
    case Label(_) => false
  }

  predicate AllSane(i: Instruction) { forall k :: 0 <= k < |i.operands| ==> Sane(i.operands[k]) }

  /** One of ah, ch, dh, bh beside an operand that takes a REX byte. */
  predicate Clash(a: Operand, b: Operand) {
    ((a.Reg? && a.size == R8H) || (b.Reg? && b.size == R8H)) && (Extended(a) || Extended(b))
  }

  predicate Extended(o: Operand) {
    match o
    case Reg(r, size) => r >= 8 || (size == R8 && 4 <= r)
    case Memory(m) => m.base in HIGH || m.index in HIGH
    case _ => false
  }

  const HIGH: set<Option<Reg>> :=
    {Some(8), Some(9), Some(10), Some(11), Some(12), Some(13), Some(14), Some(15)}

  /** Destination and source of a two-operand instruction: no two memory operands, no immediate destination. */
  predicate Pair(a: Operand, b: Operand) {
    RmAccepted(a) && (b.Imm? || RmAccepted(b)) && !(a.Memory? && b.Memory?)
  }

  /** The instructions that are encoded at all. */
  predicate Accepted(i: Instruction) {
    var os := i.operands;
    match i.op
    case Mov | Movzx | Movsx => |os| == 2 && Pair(os[0], os[1]) && !Clash(os[0], os[1])
    case Push => |os| == 1 && (os[0].Imm? || RmAccepted(os[0]))
    case Pop => |os| == 1 && RmAccepted(os[0])
    case Lea => |os| == 2 && os[0].Reg? && os[0].size in {R16, R32, R64} && os[1].Memory? && RmAccepted(os[1])
    case Alu(_) =>
      && |os| == 2 && Pair(os[0], os[1]) && !Clash(os[0], os[1])
      && (os[0].Reg? && os[0].size == R64 && os[1].Imm? ==> FitsInt32(os[1].value))
    case Unary(_) => |os| == 1 && RmAccepted(os[0])
    case Test => |os| == 2 && RmAccepted(os[0]) && (os[1].Reg? || os[1].Imm?) && !Clash(os[0], os[1])
    case Imul =>
      || (|os| == 1 && RmAccepted(os[0]))
      || (2 <= |os| <= 3 && os[0].Reg? && RmAccepted(os[1]) && (|os| == 3 ==> os[2].Imm?))
    case Cmov(_) =>
      && |os| == 2 && os[0].Reg? && os[0].size in {R16, R32, R64} && RmAccepted(os[1])
      && (os[1].Reg? ==> os[1].size == os[0].size)
    case SetCc(_) => |os| == 1 && RmAccepted(os[0]) && (os[0].Reg? ==> os[0].size in {R8, R8H})
    case Bits(_) => |os| == 2 && RmAccepted(os[0]) && (os[1].Imm? || (os[1].Reg? && os[1].reg == 1))
    case Bsf | Bsr => |os| == 2 && os[0].Reg? && RmAccepted(os[1])
    case Jmp | Call => |os| == 1 && RmAccepted(os[0])
    case Ret => |os| == 0 || (|os| == 1 && os[0].Imm?)
    case Nop => |os| == 0
    case Syscall | Leave => true
    case _ => false
  }

  /** The word of the row: an extending move is a plain one. */
  function WordRun(op: Op): string { if op.Movzx? || op.Movsx? then "mov" else OpText(op) }

  /** Registers of any other size are used as 32-bit ones. */
  function Widened(o: Operand): RegSize { if o.Memory? || (o.Reg? && o.size == R64) then R64 else R32 }

  /** Two operands at the size of the destination, or of the source where that is memory. */
  function BothAt(a: Operand, b: Operand): seq<Operand> {
    var s := Widened(if a.Reg? then a else b);
    [As(a, s), As(b, s)]
  }

  function Int(v: int, half: int): int
    requires half > 0
  {
    (v + half) % (2 * half) - half
  }

  /** mov of an immediate to a register: the forms with a REX byte reach only the low eight registers. */
  function LoadRun(r: Reg, size: RegSize, v: int): seq<Operand>
    requires IsGpr(r)
  {
    if size == R64 && (FitsInt32(v) || 0 <= v <= UINT32_MAX) then
      [Reg(r, if v < 0 then R64 else R32), Imm(ToInt32(v))]
    else if size == R64 then [Reg(r % 8, R64), Imm(Int(v, 0x8000_0000_0000_0000))]
    else if size == R32 then [Reg(r % 8, R32), Imm(ToInt32(v))]
    else if size == R16 then [Reg(r % 8, R16), Imm(Int(v, 0x8000))]
    else [if r >= 8 then Reg(r % 8, R8) else AsByte(Reg(r, R8)), Imm(v % 256)]
  }

  /** What the processor does instead of i.operands. */
  function OperandsRun(i: Instruction): seq<Operand>
    requires AllSane(i) && Accepted(i)
  {
    var os := i.operands;
    match i.op
    case Mov | Movzx | Movsx =>
      if os[1].Imm? then
        if os[0].Reg? then LoadRun(os[0].reg, os[0].size, os[1].value) else [View(os[0]), Imm(ToInt32(os[1].value))]
      else BothAt(os[0], os[1])
    case Push => if os[0].Imm? then [Imm(ToInt32(os[0].value))] else [As(os[0], R64)]
    case Pop | Jmp | Call => [As(os[0], R64)]
    case Lea => [os[0], View(os[1])]
    case Alu(_) =>
      if os[1].Imm? then
        var s := Widened(os[0]);
        [if os[0].Reg? && s == R32 then Reg(os[0].reg % 8, R32) else As(os[0], s), Imm(ToInt32(os[1].value))]
      else BothAt(os[0], os[1])
    case Unary(_) => [As(os[0], Widened(os[0]))]
    case Test =>
      if os[1].Reg? then [As(os[0], Widened(os[1])), As(os[1], Widened(os[1]))]
      else if os[0].Reg? && os[0].size == R8 then [AsByte(os[0]), Imm(os[1].value % 256)]
      else [As(os[0], Widened(os[0])), Imm(ToInt32(os[1].value))]
    case Imul =>
      var s := Widened(os[0]);
      if |os| == 1 then [As(os[0], s)]
      else if |os| == 2 then [As(os[0], s), As(os[1], s)]
      else [As(os[0], s), As(os[1], s), Imm(ToInt32(os[2].value))]
    case Cmov(_) => [os[0], View(os[1])]
    case SetCc(_) => [AsByte(os[0])]
    case Bits(_) =>
      var s := Widened(os[0]);
      [As(os[0], s), if os[1].Imm? then Imm(os[1].value % 256) else Reg(1, s)]
    case Bsf | Bsr => [As(os[0], Widened(os[0])), As(os[1], Widened(os[0]))]
    case Ret => if os == [] then [] else [Imm(os[0].value % 65536)]
    case _ => []
  }

  // ---- words and rows ----

  lemma ConditionRow(c: Cond)
    ensures OpText(Cmov(c)) == "cmov" + CONDITION[CondCode(c)] && OpText(SetCc(c)) == "set" + CONDITION[CondCode(c)]
  {
    CondTable(c);
    Mnemonics.ConditionOps(CondCode(c));
  }

  lemma ArithmeticRow(a: AluOp)
    ensures OpText(Alu(a)) == ARITHMETIC[Group1Code(a)]
  {
    Mnemonics.ArithmeticWord(Group1Code(a));
    assert Group1Name(Group1Code(a)) == a;
  }

  /** Immediates of one byte and of n bytes, read with their sign. */
  lemma {:induction false} SignedLow(v: int, n: nat)
    requires n > 0
    ensures Pow256(n) % 2 == 0 && Signed(Le(v, n)) == (v + Pow256(n) / 2) % Pow256(n) - Pow256(n) / 2
  {
    hide Le, Unsigned, Pow256;
    var p, s := Pow256(n), Signed(Le(v, n));
    SignedRange(Le(v, n));
    var q := LeLoss(v, n);
    HalfEven(n);
    if Le(v, n)[n - 1] >= 128 {
      WrapUnique(v, s, q + 1, p);
    } else {
      WrapUnique(v, s, q, p);
    }
  }

  lemma SignedRange(s: seq<byte>)
    requires s != []
    ensures 0 <= 2 * Signed(s) + Pow256(|s|) && 2 * Signed(s) < Pow256(|s|)
  {
    hide Unsigned, Pow256;
    UnsignedBound(s);
    TopByte(s);
  }

  lemma WrapUnique(v: int, s: int, q: int, p: int)
    requires p > 0 && p % 2 == 0 && v == s + q * p && 0 <= 2 * s + p && 2 * s < p
    ensures s == (v + p / 2) % p - p / 2
  {
    var h := p / 2;
    assert v + h == (s + h) + q * p && 0 <= s + h < p;
    ModUnique(v + h, s + h, q, p);
  }

  lemma ModUnique(a: int, r: int, q: int, p: int)
    requires p > 0 && a == r + q * p && 0 <= r < p
    ensures a % p == r
  {
    MultipleInRange(r - a % p, a / p - q, p);
  }

  lemma FormAccepted(prefix: seq<byte>, w: bool, regOp: Option<Operand>, rm: Operand, opcode: seq<byte>, reg: int,
                     imm: seq<byte>)
    ensures Form(prefix, w, regOp, rm, opcode, reg, imm).Some? <==> RmAccepted(rm)
  {
    hide ModRmMem, Rex;
  }

  /** A sane operand that emit_modrm_sib accepts. */
  lemma SaneRm(o: Operand)
    requires Sane(o)
    ensures RmAccepted(o) ==> GprOrMem(o) && (o.Reg? || o.Memory?)
    ensures o.Reg? ==> RmAccepted(o)
    ensures o.Memory? || o.Reg? || o.Imm?
    ensures Extended(o) == NeedsRex(o)
  {
    hide RoundTrips, ValidScale;
    if o.Memory? {
      HighRegister(o.mem.base);
      HighRegister(o.mem.index);
    }
  }

  lemma HighRegister(r: Option<Reg>)
    requires r.Some? ==> IsGpr(r.value)
    ensures r in HIGH <==> r.Some? && r.value >= 8
  {
  }

  // ---- moves and arithmetic ----

  function PairForm(store: byte, load: byte, a: Operand, b: Operand): Option<Emission>
    requires a.Reg? || b.Reg?
  {
    if a.Reg? && b.Memory? then Form([], a.size == R64, Some(a), b, [load], a.reg, [])
    else if b.Reg? then Form([], (if a.Reg? then a else b).size == R64, Some(b), a, [store], b.reg, [])
    else None
  }

  lemma PairRuns(store: byte, load: byte, word: string, a: Operand, b: Operand, lead: seq<byte>,
                 code: seq<byte>, base: int, start: nat)
    requires Lead(lead) && Sane(a) && Sane(b) && Pair(a, b) && !b.Imm?
    requires forall ext: nat | ext < 8 :: IsRow([store], ext, Row(word, [OfRm(Sized), OfReg(Sized)]))
    requires forall ext: nat | ext < 8 :: IsRow([load], ext, Row(word, [OfReg(Sized), OfRm(Sized)]))
    ensures PairForm(store, load, a, b).Some?
    ensures RunsAs(PairForm(store, load, a, b), lead, word, BothAt(a, b), code, base, start)
  {
    hide Form, IsRow, RunsAs, Sane, RmAccepted, Lead;
    SaneRm(a);
    SaneRm(b);
    SaneReg(a);
    SaneReg(b);
    if a.Reg? && b.Memory? {
      var ext: nat := a.reg % 8;
      FormAccepted([], a.size == R64, Some(a), b, [load], a.reg, []);
      assert IsRow([load], ext, Row(word, [OfReg(Sized), OfRm(Sized)]));
      RunRmReg(lead, false, a.size == R64, a, b, [load], true, word, code, base, start);
    } else {
      var ext: nat, w := b.reg % 8, (if a.Reg? then a else b).size == R64;
      FormAccepted([], w, Some(b), a, [store], b.reg, []);
      assert IsRow([store], ext, Row(word, [OfRm(Sized), OfReg(Sized)]));
      RunRmReg(lead, false, w, b, a, [store], false, word, code, base, start);
    }
  }

  /** Refused exactly with a memory operand that emit_modrm_sib refuses. */
  lemma PairRefused(store: byte, load: byte, a: Operand, b: Operand)
    requires a.Reg? || b.Reg?
    requires Sane(a) && Sane(b)
    ensures PairForm(store, load, a, b).Some? <==> RmAccepted(a) && RmAccepted(b)
  {
    hide Form, Sane, RmAccepted;
    SaneRm(a);
    SaneRm(b);
    if a.Reg? && b.Memory? {
      FormAccepted([], a.size == R64, Some(a), b, [load], a.reg, []);
    } else if b.Reg? {
      FormAccepted([], (if a.Reg? then a else b).size == R64, Some(b), a, [store], b.reg, []);
    } else {
      ImmRefused(b);
    }
  }

  lemma ImmRefused(o: Operand)
    requires o.Imm?
    ensures !RmAccepted(o)
  {
  }

  lemma NothingRuns(lead: seq<byte>, word: string, os: seq<Operand>, code: seq<byte>, base: int, start: nat)
    ensures RunsAs(None, lead, word, os, code, base, start)
  {
  }

  lemma SaneReg(o: Operand)
    requires Sane(o)
    ensures o.Reg? ==> IsGpr(o.reg) && o.size != Xmm
  {
    hide WellFormed, RoundTrips;
  }

  /** The rows of the moves. */
  lemma MovRows(ext: nat)
    requires ext < 8
    ensures IsRow([0x89], ext, Row("mov", [OfRm(Sized), OfReg(Sized)]))
    ensures IsRow([0x8B], ext, Row("mov", [OfReg(Sized), OfRm(Sized)]))
    ensures IsRow([0xC7], 0, Row("mov", [OfRm(Sized), OfImm(Four)]))
  {
    hide TestGroup, ShiftGroup;
  }

  lemma LoadRows(r: Reg, ext: nat)
    requires ext < 8
    ensures IsRow([0xB8 + r % 8], ext, Row("mov", [OfOpcode(Sized), OfImm(Full)]))
    ensures IsRow([0xB0 + r % 8], ext, Row("mov", [OfOpcode(Byte), OfImm(Unsigned8)]))
  {
    hide TestGroup, ShiftGroup;
  }

  lemma SignedLows(v: int)
    ensures Signed(Le(v, 4)) == ToInt32(v) && Signed(Le(v, 8)) == Int(v, 0x8000_0000_0000_0000)
    ensures Signed(Le(v, 2)) == Int(v, 0x8000) && Unsigned(Le(v, 2)) == v % 65536
  {
    Pow256Values();
    SignedLow(v, 2);
    SignedLow(v, 4);
    SignedLow(v, 8);
    var q := LeLoss(v, 2);
    UnsignedBound(Le(v, 2));
    hide Le, Unsigned, Signed, Pow256;
    ModUnique(v, Unsigned(Le(v, 2)), q, 65536);
  }

  /** One immediate byte, with and without its sign. */
  lemma ByteLow(v: int)
    ensures Unsigned([v % 256]) == v % 256
    ensures FitsInt8(ToInt32(v)) ==> Signed([v % 256]) == ToInt32(v)
  {
    assert [v % 256][1..] == [];
    SignedFits([v % 256]);
    assert ToInt32(v) % 256 == v % 256;
  }

  // An encoding without a ModRM byte.
  datatype Load = Load(narrow: bool, rex: seq<byte>, op: byte, imm: seq<byte>, slots: seq<Slot>) {
    function Bytes(): seq<byte> { Narrowing(narrow) + rex + [op] + imm }
  }

  function LoadOf(r: Reg, size: RegSize, v: int): Load
    requires IsGpr(r)
  {
    var low := size == R64 && 0 <= v <= UINT32_MAX;
    var bytes := size == R8 || size == R8H;
    Load(size == R16,
         if low then (if r >= 8 then [0x41] else [])
         else if size == R64 then [if r >= 8 then 0x4C else 0x48]
         else if r >= 8 then [0x44] else [],
         (if bytes then 0xB0 else 0xB8) + r % 8,
         if bytes then [v % 256] else Le(v, if size == R64 && !low then 8 else if size == R16 then 2 else 4),
         if bytes then [OfOpcode(Byte), OfImm(Unsigned8)] else [OfOpcode(Sized), OfImm(Full)])
  }

  lemma LoadBytes(dst: Operand, v: int)
    requires Sane(dst) && dst.Reg? && !(dst.size == R64 && FitsInt32(v) && v < 0)
    ensures MovRegImm(dst, v) == Some(Plain(LoadOf(dst.reg, dst.size, v).Bytes()))
  {
    hide Le;
    assert MakeRex(true, true, false, false) == 0x4C && MakeRex(true, false, false, false) == 0x48
      && MakeRex(false, true, false, false) == 0x44 && MakeRex(false, false, false, true) == 0x41;
    hide MakeRex;
    var l := LoadOf(dst.reg, dst.size, v);
    assert [] + l.rex + [l.op] + l.imm == l.rex + [l.op] + l.imm;
    assert [] + [l.op] + l.imm == [l.op] + l.imm;
  }

  lemma LoadFacts(r: Reg, size: RegSize, v: int)
    requires Sane(Reg(r, size)) && !(size == R64 && FitsInt32(v) && v < 0)
    ensures var l := LoadOf(r, size, v); var f := PlainFacts(l.narrow, l.rex, l.op, l.imm);
      SlotsFit(l.slots, f) && NoRm(l.slots) && f.ShowAll(l.slots) == LoadRun(r, size, v)
  {
    hide Le, Signed, Unsigned, ToInt32, Int;
    var l := LoadOf(r, size, v);
    var f := PlainFacts(l.narrow, l.rex, l.op, l.imm);
    LowBits(r, l.rex, l.op);
    hide RexB, RexW;
    ShownTwo(l.slots[0], l.slots[1], f);
    SignedLows(v);
    ByteLow(v);
  }

  lemma LowBits(r: Reg, rex: seq<byte>, op: byte)
    requires IsGpr(r) && (op == 0xB8 + r % 8 || op == 0xB0 + r % 8)
    requires rex == [] || rex == [0x41] || rex == [0x44] || rex == [0x48] || rex == [0x4C]
    ensures op % 8 + RexB(RexByte(rex)) == (if rex == [0x41] then r % 8 + 8 else r % 8)
    ensures RexW(RexByte(rex)) == (rex == [0x48] || rex == [0x4C])
  {
  }

  /** mov of an immediate to a register by an opcode that holds the register. */
  lemma LoadRuns(dst: Operand, v: int, lead: seq<byte>, code: seq<byte>, base: int, start: nat)
    requires Lead(lead) && Sane(dst) && dst.Reg?
    requires !(dst.size == R64 && FitsInt32(v) && v < 0)
    ensures MovRegImm(dst, v).Some?
    ensures RunsAs(MovRegImm(dst, v), lead, "mov", LoadRun(dst.reg, dst.size, v), code, base, start)
  {
    hide IsRow, Lead, Executes, SegmentIn, Le, LoadRun, MovRegImm, PlainFacts, SlotsFit, NoRm, At, Facts.ShowAll;
    LoadBytes(dst, v);
    SaneReg(dst);
    LoadFacts(dst.reg, dst.size, v);
    var l := LoadOf(dst.reg, dst.size, v);
    var row := Row("mov", l.slots);
    forall ext: nat | ext < 8
      ensures IsRow([l.op], ext, row)
    {
      LoadRows(dst.reg, ext);
    }
    if At(code, start, lead + l.Bytes()) {
      PlainRuns(lead, l.narrow, l.rex, [l.op], l.imm, row, code, base, start);
    }
  }

  /** Accepted, and what runs. */
  ghost predicate Right(i: Instruction, env: Env, lead: seq<byte>, code: seq<byte>, base: int, start: nat)
    requires AllSane(i)
  {
    && (Dispatch(i, env).Some? <==> Accepted(i))
    && (Accepted(i) ==> RunsAs(Dispatch(i, env), lead, WordRun(i.op), OperandsRun(i), code, base, start))
  }

  lemma ClashIs(a: Operand, b: Operand)
    requires Sane(a) && Sane(b)
    ensures Clash(a, b) == RexConflict(a, b)
  {
    hide NeedsRex, Extended, Sane;
    SaneRm(a);
    SaneRm(b);
  }

  lemma MovRuns(i: Instruction, env: Env, lead: seq<byte>, code: seq<byte>, base: int, start: nat)
    requires AllSane(i) && Lead(lead) && (i.op == Mov || i.op == Movzx || i.op == Movsx)
    ensures Right(i, env, lead, code, base, start)
  {
    hide Form, IsRow, RunsAs, Lead, MovRegImm, BothAt, LoadRun, Sane, RexConflict, Clash, RmAccepted, MakeModRm, Le,
         ToInt32;
    var os := i.operands;
    if |os| == 2 {
      var a, b := os[0], os[1];
      ClashIs(a, b);
      SaneRm(a);
      SaneRm(b);
      assert Dispatch(i, env) == EncodeMov(a, b);
      if b.Imm? {
        ImmRefused(b);
        if a.Reg? {
          MovImmRuns(a, b.value, lead, code, base, start);
        } else if a.Memory? {
          FormAccepted([], true, None, a, [0xC7], 0, Le(b.value, 4));
          if RmAccepted(a) {
            ImmRuns([0xC7], 0, "mov", true, a, b.value, lead, code, base, start);
          }
        } else {
          ImmRefused(a);
        }
      } else if a.Imm? {
        ImmRefused(a);
      } else if a.Reg? || b.Reg? {
        PairRefused(0x89, 0x8B, a, b);
        if Accepted(i) {
          forall ext: nat | ext < 8
            ensures IsRow([0x89], ext, Row("mov", [OfRm(Sized), OfReg(Sized)]))
            ensures IsRow([0x8B], ext, Row("mov", [OfReg(Sized), OfRm(Sized)]))
          {
            MovRows(ext);
          }
          PairRuns(0x89, 0x8B, "mov", a, b, lead, code, base, start);
        }
      }
    }
  }

  lemma MovImmRuns(a: Operand, v: int, lead: seq<byte>, code: seq<byte>, base: int, start: nat)
    requires Sane(a) && a.Reg? && Lead(lead)
    ensures MovRegImm(a, v).Some?
    ensures RunsAs(MovRegImm(a, v), lead, "mov", LoadRun(a.reg, a.size, v), code, base, start)
  {
    hide Form, RunsAs, Lead, LoadRun, Sane, Le, ToInt32, Rex, MakeRex;
    SaneReg(a);
    if a.size == R64 && FitsInt32(v) && v < 0 {
      ImmRuns([0xC7], 0, "mov", true, a, v, lead, code, base, start);
      LoadNegative(a.reg, v);
    } else {
      LoadRuns(a, v, lead, code, base, start);
    }
  }

  lemma LoadNegative(r: Reg, v: int)
    requires IsGpr(r) && FitsInt32(v) && v < 0
    ensures LoadRun(r, R64, v) == [Gpr(r), Imm(ToInt32(v))]
  {
  }

  predicate WideImm(opcode: seq<byte>, ext: nat, word: string)
    requires ext < 8
  {
    || (opcode == [0xC7] && ext == 0 && word == "mov")
    || (opcode == [0x81] && word == ARITHMETIC[ext])
    || (opcode == [0xF7] && ext == 0 && word == "test")
  }

  /** An operand with a 32-bit immediate behind it. */
  lemma ImmRuns(opcode: seq<byte>, ext: nat, word: string, w: bool, rm: Operand, v: int, lead: seq<byte>,
                code: seq<byte>, base: int, start: nat)
    requires ext < 8 && Lead(lead) && Sane(rm) && RmAccepted(rm)
    requires WideImm(opcode, ext, word)
    ensures var e := Form([], w, None, rm, opcode, ext, Le(v, 4));
      e.Some? && RunsAs(e, lead, word, [As(rm, SizeIs(false, w)), Imm(ToInt32(v))], code, base, start)
  {
    hide Form, RunsAs, Lead, Sane, Le, Signed, ToInt32, RmAccepted, GprOrMem;
    SaneRm(rm);
    ImmRow(opcode, ext, word);
    FormAccepted([], w, None, rm, opcode, ext, Le(v, 4));
    RunRmImm(lead, w, rm, opcode, ext, Sized, Four, Le(v, 4), word, code, base, start);
    SignedLows(v);
  }

  lemma ImmRow(opcode: seq<byte>, ext: nat, word: string)
    requires ext < 8
    requires WideImm(opcode, ext, word)
    ensures IsRow(opcode, ext, Row(word, [OfRm(Sized), OfImm(Four)]))
  {
    hide ShiftGroup;
  }

  lemma AluRows(op: byte, ext: nat)
    requires op < 0x40 && ext < 8
    ensures op % 8 == 1 ==> IsRow([op], ext, Row(ARITHMETIC[op / 8], [OfRm(Sized), OfReg(Sized)]))
    ensures op % 8 == 3 ==> IsRow([op], ext, Row(ARITHMETIC[op / 8], [OfReg(Sized), OfRm(Sized)]))
    ensures op % 8 == 5 ==> IsRow([op], ext, Row(ARITHMETIC[op / 8], [OfAx(Sized), OfImm(Four)]))
  {
    hide TestGroup, ShiftGroup;
    assert OneByte(op, ext) == if op % 8 == 1 then Some(Row(ARITHMETIC[op / 8], [OfRm(Sized), OfReg(Sized)]))
                               else if op % 8 == 3 then Some(Row(ARITHMETIC[op / 8], [OfReg(Sized), OfRm(Sized)]))
                               else if op % 8 == 5 then Some(Row(ARITHMETIC[op / 8], [OfAx(Sized), OfImm(Four)]))
                               else None;
    hide OneByte;
  }

  lemma ByteImmRow(k: nat)
    requires k < 8
    ensures IsRow([0x83], k, Row(ARITHMETIC[k], [OfRm(Sized), OfImm(Signed8)]))
  {
    hide TestGroup, ShiftGroup;
  }

  lemma AluRow(op: byte)
    requires op < 0x40
    ensures op % 8 == 1 ==> forall ext: nat | ext < 8 ::
        IsRow([op], ext, Row(ARITHMETIC[op / 8], [OfRm(Sized), OfReg(Sized)]))
    ensures op % 8 == 3 ==> forall ext: nat | ext < 8 ::
        IsRow([op], ext, Row(ARITHMETIC[op / 8], [OfReg(Sized), OfRm(Sized)]))
    ensures op % 8 == 5 ==> forall ext: nat | ext < 8 ::
        IsRow([op], ext, Row(ARITHMETIC[op / 8], [OfAx(Sized), OfImm(Four)]))
  {
    hide IsRow;
    forall ext: nat | ext < 8
      ensures op % 8 == 1 ==> IsRow([op], ext, Row(ARITHMETIC[op / 8], [OfRm(Sized), OfReg(Sized)]))
      ensures op % 8 == 3 ==> IsRow([op], ext, Row(ARITHMETIC[op / 8], [OfReg(Sized), OfRm(Sized)]))
      ensures op % 8 == 5 ==> IsRow([op], ext, Row(ARITHMETIC[op / 8], [OfAx(Sized), OfImm(Four)]))
    {
      AluRows(op, ext);
    }
  }

  lemma AluRuns(i: Instruction, env: Env, lead: seq<byte>, code: seq<byte>, base: int, start: nat)
    requires AllSane(i) && Lead(lead) && i.op.Alu?
    ensures Right(i, env, lead, code, base, start)
  {
    hide Form, IsRow, RunsAs, Lead, AluRegImm, BothAt, Sane, RexConflict, Clash, RmAccepted, Le, ToInt32, OpText;
    var os, k := i.operands, Group1Code(i.op.alu);
    if |os| == 2 {
      var a, b := os[0], os[1];
      ClashIs(a, b);
      SaneRm(a);
      SaneRm(b);
      ArithmeticRow(i.op.alu);
      assert Dispatch(i, env) == EncodeAlu(i.op.alu, a, b);
      if b.Imm? {
        ImmRefused(b);
        if a.Imm? {
          ImmRefused(a);
        } else if RmAccepted(a) {
          AluImmRuns(k, a, b.value, lead, code, base, start);
        } else {
          FormAccepted([], true, None, a, [0x83], k, [b.value % 256]);
          FormAccepted([], true, None, a, [0x81], k, Le(b.value, 4));
        }
      } else if a.Imm? {
        ImmRefused(a);
      } else if a.Reg? || b.Reg? {
        var store: byte, load: byte := 0x01 + k * 8, 0x03 + k * 8;
        PairRefused(store, load, a, b);
        if Accepted(i) {
          assert store % 8 == 1 && load % 8 == 3 && store / 8 == load / 8 == k;
          AluRow(store);
          AluRow(load);
          PairRuns(store, load, ARITHMETIC[k], a, b, lead, code, base, start);
        }
      }
    }
  }

  function AluImm(ext: nat, a: Operand, v: int): Option<Emission>
    requires ext < 8
  {
    if a.Reg? then AluRegImm(ext, a, v)
    else if FitsInt8(ToInt32(v)) then Form([], true, None, a, [0x83], ext, [v % 256])
    else Form([], true, None, a, [0x81], ext, Le(v, 4))
  }

  lemma AluImmRuns(k: nat, a: Operand, v: int, lead: seq<byte>, code: seq<byte>, base: int, start: nat)
    requires k < 8 && Lead(lead) && Sane(a) && RmAccepted(a)
    ensures AluImm(k, a, v).Some? <==> (a.Reg? && a.size == R64 ==> FitsInt32(v))
    ensures var s := Widened(a);
      RunsAs(AluImm(k, a, v), lead, ARITHMETIC[k],
             [if a.Reg? && s == R32 then Reg(a.reg % 8, R32) else As(a, s), Imm(ToInt32(v))], code, base, start)
  {
    hide Form, IsRow, RunsAs, Lead, Sane, RmAccepted, Le, ToInt32, ModRm, MakeRex, GprOrMem;
    SaneRm(a);
    SaneReg(a);
    var fits8 := FitsInt8(ToInt32(v));
    var imm := if fits8 && !(a.Reg? && a.size == R8) then [v % 256] else Le(v, 4);
    if a.Memory? {
      AluFormRuns(k, true, a, v, fits8, lead, code, base, start);
    } else if a.size == R64 && !FitsInt32(v) {
      NothingRuns(lead, ARITHMETIC[k], [As(a, R64), Imm(ToInt32(v))], code, base, start);
    } else if a.reg == 0 && !fits8 && (a.size == R64 || a.size == R32) {
      AccumulatorRuns(k, a.size == R64, v, lead, code, base, start);
    } else {
      var low := if a.size == R64 then a else Reg(a.reg % 8, R32);
      AluLow(k, a, v);
      SaneLow(a.reg, low.size);
      SaneRm(low);
      AluFormRuns(k, a.size == R64, low, v, fits8 && a.size != R8, lead, code, base, start);
    }
  }

  lemma SaneLow(r: Reg, s: RegSize)
    requires IsGpr(r) && (s == R64 || s == R32)
    ensures Sane(Reg(r % 8, s)) && Sane(Reg(r, s))
  {
  }

  /** Without a REX byte the form is that of one of the low eight registers. */
  lemma AluLow(k: nat, a: Operand, v: int)
    requires k < 8 && Sane(a) && a.Reg?
    requires !(a.size == R64 && !FitsInt32(v))
    requires !(a.reg == 0 && !FitsInt8(ToInt32(v)) && (a.size == R64 || a.size == R32))
    ensures var low := if a.size == R64 then a else Reg(a.reg % 8, R32);
      var byte := FitsInt8(ToInt32(v)) && a.size != R8;
      AluRegImm(k, a, v) == Form([], a.size == R64, None, low, [if byte then 0x83 else 0x81], k,
                                 if byte then [v % 256] else Le(v, 4))
  {
    hide Le, ToInt32, MakeRex;
    var low := if a.size == R64 then a else Reg(a.reg % 8, R32);
    assert MakeModRm(3, k, a.reg) == MakeModRm(3, k, low.reg);
    hide MakeModRm;
    var rex := Rex(a.size == R64, None, Some(low));
    assert [] + rex + [0x83] == rex + [0x83] && [] + rex + [0x81] == rex + [0x81];
  }

  lemma AluFormRuns(k: nat, w: bool, rm: Operand, v: int, byte: bool, lead: seq<byte>, code: seq<byte>, base: int,
      start: nat)
    requires k < 8 && Lead(lead) && Sane(rm) && RmAccepted(rm) && (byte ==> FitsInt8(ToInt32(v)))
    ensures var e := Form([], w, None, rm, [if byte then 0x83 else 0x81], k, if byte then [v % 256] else Le(v, 4));
      e.Some? && RunsAs(e, lead, ARITHMETIC[k], [As(rm, SizeIs(false, w)), Imm(ToInt32(v))], code, base, start)
  {
    hide Form, IsRow, RunsAs, Lead, Sane, RmAccepted, Le, ToInt32, GprOrMem, Signed;
    if byte {
      SaneRm(rm);
      ByteImmRow(k);
      FormAccepted([], w, None, rm, [0x83], k, [v % 256]);
      RunRmImm(lead, w, rm, [0x83], k, Sized, Signed8, [v % 256], ARITHMETIC[k], code, base, start);
      ByteLow(v);
    } else {
      ImmRuns([0x81], k, ARITHMETIC[k], w, rm, v, lead, code, base, start);
    }
  }

  /** The accumulator with a 32-bit immediate, and test of it. */
  lemma AccumulatorRuns(k: nat, w: bool, v: int, lead: seq<byte>, code: seq<byte>, base: int, start: nat)
    requires k < 8 && Lead(lead)
    ensures var size := if w then R64 else R32;
      RunsAs(Some(Plain((if w then Rex(true, Some(Reg(0, size)), None) else []) + [0x05 + k * 8] + Le(v, 4))), lead,
             ARITHMETIC[k], [Reg(0, size), Imm(ToInt32(v))], code, base, start)
  {
    hide IsRow, Lead, Le, ToInt32, Signed, Executes, At;
    assert MakeRex(true, false, false, false) == 0x48;
    hide MakeRex;
    var op: byte := 0x05 + k * 8;
    assert op % 8 == 5 && op / 8 == k;
    AluRow(op);
    AxRuns(op, ARITHMETIC[k], w, v, lead, code, base, start);
  }

  lemma AxRuns(op: byte, word: string, w: bool, v: int, lead: seq<byte>, code: seq<byte>, base: int, start: nat)
    requires Lead(lead) && forall ext: nat | ext < 8 :: IsRow([op], ext, Row(word, [OfAx(Sized), OfImm(Four)]))
    ensures RunsAs(Some(Plain((if w then [0x48] else []) + [op] + Le(v, 4))), lead,
                   word, [Reg(0, if w then R64 else R32), Imm(ToInt32(v))], code, base, start)
  {
    hide IsRow, Lead, Le, ToInt32, Signed, Executes, At, SegmentIn;
    var rex := if w then [0x48] else [];
    var f := PlainFacts(false, rex, op, Le(v, 4));
    var e := rex + [op] + Le(v, 4);
    assert [] + rex + [op] + Le(v, 4) == e;
    assert f.wide == w;
    ShownTwo(OfAx(Sized), OfImm(Four), f);
    SignedLows(v);
    if At(code, start, lead + e) {
      PlainRuns(lead, false, rex, [op], Le(v, 4), Row(word, [OfAx(Sized), OfImm(Four)]), code, base, start);
    }
  }

  // ---- one operand ----

  lemma UnaryRows(u: UnaryOp)
    ensures IsRow([if u.Inc? || u.Dec? then 0xFF else 0xF7], UnaryCode(u), Row(OpText(Unary(u)), [OfRm(Sized)]))
    ensures IsRow([0xF7], 5, Row("imul", [OfRm(Sized)])) && IsRow([0xFF], 6, Row("push", [OfRm(Qword)]))
    ensures IsRow([0x8F], 0, Row("pop", [OfRm(Qword)])) && IsRow([0xFF], 4, Row("jmp", [OfRm(Qword)]))
    ensures IsRow([0xFF], 2, Row("call", [OfRm(Qword)]))
  {
  }

  lemma SetRow(c: Cond)
    ensures IsRow([0x0F, 0x90 + CondCode(c)], 0, Row(OpText(SetCc(c)), [OfRm(Byte)]))
  {
    ConditionRow(c);
    hide CondCode, OpText;
  }

  /** The forms that have one ModRM operand and nothing else. */
  lemma OneRuns(i: Instruction, env: Env, lead: seq<byte>, code: seq<byte>, base: int, start: nat,
                w: bool, opcode: seq<byte>, ext: nat, width: Width)
    requires AllSane(i) && Lead(lead) && |i.operands| == 1 && ext < 8
    requires width == Sized || width == Qword || (width == Byte && !w)
    requires IsRow(opcode, ext, Row(WordRun(i.op), [OfRm(width)]))
    requires Accepted(i) ==> RmAccepted(i.operands[0]) && OperandsRun(i) == [AtWidth(width, w, i.operands[0])]
    requires if Accepted(i) then Dispatch(i, env) == Form([], w, None, i.operands[0], opcode, ext, [])
             else Dispatch(i, env) == None
    ensures Right(i, env, lead, code, base, start)
  {
    hide Form, IsRow, RunsAs, Lead, Sane, RmAccepted, Dispatch, Accepted, OperandsRun, AtWidth, WordRun, GprOrMem;
    var o := i.operands[0];
    SaneRm(o);
    if Accepted(i) {
      FormAccepted([], w, None, o, opcode, ext, []);
      RunRm(lead, w, o, opcode, ext, width, WordRun(i.op), code, base, start);
    }
  }

  lemma SingleRuns(i: Instruction, env: Env, lead: seq<byte>, code: seq<byte>, base: int, start: nat)
    requires AllSane(i) && Lead(lead) && |i.operands| == 1 && (i.op.Unary? || i.op.SetCc? || i.op == Imul)
    ensures Right(i, env, lead, code, base, start)
  {
    hide Form, IsRow, RunsAs, Lead, Sane, RmAccepted, Right, CondCode, CondText;
    var o := i.operands[0];
    SaneRm(o);
    if o.Imm? { ImmRefused(o); }
    var w := RmSize(o) == R64;
    match i.op
    case Unary(u) =>
      var opcode: seq<byte> := [if u.Inc? || u.Dec? then 0xFF else 0xF7];
      UnaryRows(u);
      FormAccepted([], w, None, o, opcode, UnaryCode(u), []);
      OneRuns(i, env, lead, code, base, start, w, opcode, UnaryCode(u), Sized);
    case SetCc(c) =>
      SetRow(c);
      FormAccepted([], false, None, o, [0x0F, 0x90 + CondCode(c)], 0, []);
      OneRuns(i, env, lead, code, base, start, false, [0x0F, 0x90 + CondCode(c)], 0, Byte);
    case Imul =>
      UnaryRows(Inc);
      FormAccepted([], w, None, o, [0xF7], 5, []);
      OneRuns(i, env, lead, code, base, start, w, [0xF7], 5, Sized);
  }

  lemma TransferRuns(i: Instruction, env: Env, lead: seq<byte>, code: seq<byte>, base: int, start: nat)
    requires AllSane(i) && Lead(lead) && |i.operands| == 1 && (i.op == Jmp || i.op == Call)
    ensures Right(i, env, lead, code, base, start)
  {
    hide Form, IsRow, RunsAs, Lead, Sane, RmAccepted, Right;
    var o, ext := i.operands[0], if i.op == Jmp then 4 else 2;
    SaneRm(o);
    if o.Imm? { ImmRefused(o); }
    UnaryRows(Inc);
    FormAccepted([], true, None, o, [0xFF], ext, []);
    OneRuns(i, env, lead, code, base, start, true, [0xFF], ext, Qword);
  }

  lemma PushRows(r: Reg, ext: nat)
    requires ext < 8
    ensures IsRow([0x50 + r % 8], ext, Row("push", [OfOpcode(Qword)]))
    ensures IsRow([0x58 + r % 8], ext, Row("pop", [OfOpcode(Qword)]))
    ensures IsRow([0x6A], ext, Row("push", [OfImm(Signed8)])) && IsRow([0x68], ext, Row("push", [OfImm(Four)]))
  {
    hide TestGroup, ShiftGroup;
  }

  lemma StackRuns(i: Instruction, env: Env, lead: seq<byte>, code: seq<byte>, base: int, start: nat)
    requires AllSane(i) && Lead(lead) && (i.op == Push || i.op == Pop)
    ensures Right(i, env, lead, code, base, start)
  {
    hide Form, IsRow, RunsAs, Lead, Sane, RmAccepted, Le, ToInt32, MakeRex;
    var os := i.operands;
    if |os| == 1 {
      var o, push := os[0], i.op == Push;
      SaneRm(o);
      if o.Imm? {
        ImmRefused(o);
        if push { PushImmRuns(o.value, lead, code, base, start); }
      } else if o.Reg? {
        SaneReg(o);
        StackReg(push, o, lead, code, base, start);
      } else {
        UnaryRows(Inc);
        FormAccepted([], true, None, o, [0xFF], 6, []);
        FormAccepted([], true, None, o, [0x8F], 0, []);
        if push {
          OneRuns(i, env, lead, code, base, start, true, [0xFF], 6, Qword);
        } else {
          OneRuns(i, env, lead, code, base, start, true, [0x8F], 0, Qword);
        }
      }
    }
  }

  lemma StackReg(push: bool, o: Operand, lead: seq<byte>, code: seq<byte>, base: int, start: nat)
    requires Lead(lead) && o.Reg? && IsGpr(o.reg)
    ensures EncodePushPop(push, o).Some?
    ensures RunsAs(EncodePushPop(push, o), lead, if push then "push" else "pop", [Reg(o.reg, R64)], code, base, start)
  {
    hide IsRow, Lead, Executes, At, SegmentIn;
    assert MakeRex(false, false, false, true) == 0x41;
    hide MakeRex;
    var r := o.reg as int;
    var rex: seq<byte> := if r >= 8 then [0x41] else [];
    var op: byte := if push then 0x50 + r % 8 else 0x58 + r % 8;
    var e := rex + [op];
    assert EncodePushPop(push, o).value.bytes == e && [] + rex + [op] + [] == e;
    var row := Row(if push then "push" else "pop", [OfOpcode(Qword)]);
    forall ext: nat | ext < 8
      ensures IsRow([op], ext, row)
    {
      PushRows(r, ext);
    }
    hide EncodePushPop;
    StackFacts(push, r);
    if At(code, start, lead + e) {
      PlainRuns(lead, false, rex, [op], [], row, code, base, start);
    }
  }

  lemma StackFacts(push: bool, r: Reg)
    requires IsGpr(r)
    ensures var op := (if push then 0x50 else 0x58) + r as int % 8;
      var f := PlainFacts(false, if r >= 8 then [0x41] else [], op, []);
      SlotsFit([OfOpcode(Qword)], f) && NoRm([OfOpcode(Qword)]) && f.ShowAll([OfOpcode(Qword)]) == [Reg(r, R64)]
  {
    var op := (if push then 0x50 else 0x58) + r as int % 8;
    var f := PlainFacts(false, if r >= 8 then [0x41] else [], op, []);
    assert f.low == r;
    ShownOne(OfOpcode(Qword), f);
  }

  lemma PushImmRuns(v: int, lead: seq<byte>, code: seq<byte>, base: int, start: nat)
    requires Lead(lead)
    ensures EncodePushPop(true, Imm(v)).Some?
    ensures RunsAs(EncodePushPop(true, Imm(v)), lead, "push", [Imm(ToInt32(v))], code, base, start)
  {
    hide IsRow, Lead, Executes, At, SegmentIn, Le, Signed, Unsigned, ToInt32;
    var short := FitsInt8(ToInt32(v));
    var op: byte, imm, slot := if short then 0x6A else 0x68, if short then [v % 256] else Le(v, 4),
      OfImm(if short then Signed8 else Four);
    var e := [op] + imm;
    assert EncodePushPop(true, Imm(v)).value.bytes == e && [] + [] + [op] + imm == e;
    forall ext: nat | ext < 8
      ensures IsRow([op], ext, Row("push", [slot]))
    {
      PushRows(0, ext);
    }
    var f := PlainFacts(false, [], op, imm);
    ShownOne(slot, f);
    SignedLows(v);
    ByteLow(v);
    if At(code, start, lead + e) {
      PlainRuns(lead, false, [], [op], imm, Row("push", [slot]), code, base, start);
    }
  }

  // ---- the other instructions ----

  lemma TestRows(ext: nat)
    requires ext < 8
    ensures IsRow([0x85], ext, Row("test", [OfRm(Sized), OfReg(Sized)]))
    ensures IsRow([0xA9], ext, Row("test", [OfAx(Sized), OfImm(Four)]))
    ensures IsRow([0xF6], 0, Row("test", [OfRm(Byte), OfImm(Unsigned8)]))
  {
    hide ShiftGroup;
  }

  lemma TestRuns(i: Instruction, env: Env, lead: seq<byte>, code: seq<byte>, base: int, start: nat)
    requires AllSane(i) && Lead(lead) && i.op == Test
    ensures Right(i, env, lead, code, base, start)
  {
    hide Form, IsRow, RunsAs, Lead, Sane, RexConflict, Clash, RmAccepted, Le, MakeRex, ToInt32;
    var os := i.operands;
    if |os| == 2 {
      var a, b := os[0], os[1];
      ClashIs(a, b);
      SaneRm(a);
      SaneReg(a);
      SaneReg(b);
      if a.Imm? { ImmRefused(a); }
      if b.Imm? {
        if !a.Imm? && !Clash(a, b) {
          TestImmRuns(a, b.value, lead, code, base, start);
        }
      } else if b.Reg? {
        FormAccepted([], b.size == R64, Some(b), a, [0x85], b.reg, []);
        if RmAccepted(a) {
          TestRows(b.reg % 8);
          RunRmReg(lead, false, b.size == R64, b, a, [0x85], false, "test", code, base, start);
        }
      }
    }
  }

  function TestImm(a: Operand, v: int): Option<Emission> {
    if a.Reg? && a.reg == 0 && RmSize(a) != R8 then
      Some(Plain(Rex(RmSize(a) == R64, None, None) + [0xA9] + Le(v, 4)))
    else if RmSize(a) == R8 then Form([], false, None, a, [0xF6], 0, [v % 256])
    else Form([], RmSize(a) == R64, None, a, [0xF7], 0, Le(v, 4))
  }

  lemma TestImmRuns(a: Operand, v: int, lead: seq<byte>, code: seq<byte>, base: int, start: nat)
    requires Sane(a) && !a.Imm? && Lead(lead)
    ensures TestImm(a, v).Some? <==> RmAccepted(a)
    ensures RunsAs(TestImm(a, v), lead, "test",
                   if a.Reg? && a.size == R8 then [AsByte(a), Imm(v % 256)]
                   else [As(a, Widened(a)), Imm(ToInt32(v))], code, base, start)
  {
    hide Form, IsRow, RunsAs, Lead, Sane, RmAccepted, Le, ToInt32, GprOrMem;
    SaneRm(a);
    SaneReg(a);
    var w := RmSize(a) == R64;
    if a.Reg? && a.reg == 0 && a.size != R8 {
      assert MakeRex(true, false, false, false) == 0x48;
      hide MakeRex;
      forall ext: nat | ext < 8
        ensures IsRow([0xA9], ext, Row("test", [OfAx(Sized), OfImm(Four)]))
      {
        TestRows(ext);
      }
      AxRuns(0xA9, "test", w, v, lead, code, base, start);
    } else if RmSize(a) == R8 {
      FormAccepted([], false, None, a, [0xF6], 0, [v % 256]);
      TestRows(0);
      ByteLow(v);
      RunRmImm(lead, false, a, [0xF6], 0, Byte, Unsigned8, [v % 256], "test", code, base, start);
    } else if RmAccepted(a) {
      ImmRuns([0xF7], 0, "test", w, a, v, lead, code, base, start);
    } else {
      FormAccepted([], w, None, a, [0xF7], 0, Le(v, 4));
      NothingRuns(lead, "test", [As(a, Widened(a)), Imm(ToInt32(v))], code, base, start);
    }
  }

  lemma RegisterFirstRows(ext: nat)
    requires ext < 8
    ensures IsRow([0x8D], ext, Row("lea", [OfReg(Sized), OfRm(Sized)]))
    ensures IsRow([0x0F, 0xAF], ext, Row("imul", [OfReg(Sized), OfRm(Sized)]))
    ensures IsRow([0x0F, 0xBC], ext, Row("bsf", [OfReg(Sized), OfRm(Sized)]))
    ensures IsRow([0x0F, 0xBD], ext, Row("bsr", [OfReg(Sized), OfRm(Sized)]))
    ensures IsRow([0x6B], ext, Row("imul", [OfReg(Sized), OfRm(Sized), OfImm(Signed8)]))
    ensures IsRow([0x69], ext, Row("imul", [OfReg(Sized), OfRm(Sized), OfImm(Four)]))
  {
    hide ShiftGroup, TestGroup;
  }

  lemma CmovRow(c: Cond, ext: nat)
    requires ext < 8
    ensures IsRow([0x0F, 0x40 + CondCode(c)], ext, Row(OpText(Cmov(c)), [OfReg(Sized), OfRm(Sized)]))
  {
    ConditionRow(c);
    hide CondCode, OpText;
  }

  /** lea, cmov, bsf, bsr and imul of two operands: a register and what is read. */
  lemma RegisterFirst(i: Instruction, env: Env, lead: seq<byte>, code: seq<byte>, base: int, start: nat,
                      narrow: bool, opcode: seq<byte>)
    requires AllSane(i) && Lead(lead) && |i.operands| == 2 && i.operands[0].Reg?
    requires IsRow(opcode, i.operands[0].reg % 8, Row(WordRun(i.op), [OfReg(Sized), OfRm(Sized)]))
    requires var a, b := i.operands[0], i.operands[1];
      && Dispatch(i, env) == Form(Narrowing(narrow), a.size == R64, Some(a), b, opcode, a.reg, [])
      && (Accepted(i) <==> RmAccepted(b))
      && (Accepted(i) ==> var s := SizeIs(narrow, a.size == R64); OperandsRun(i) == [As(a, s), As(b, s)])
    ensures Right(i, env, lead, code, base, start)
  {
    hide Form, IsRow, RunsAs, Lead, Sane, RmAccepted, Dispatch, Accepted, OperandsRun, WordRun, GprOrMem;
    var a, b := i.operands[0], i.operands[1];
    SaneRm(b);
    SaneReg(a);
    FormAccepted(Narrowing(narrow), a.size == R64, Some(a), b, opcode, a.reg, []);
    if Accepted(i) {
      RunRmReg(lead, narrow, a.size == R64, a, b, opcode, true, WordRun(i.op), code, base, start);
    }
  }

  lemma LoadingRuns(i: Instruction, env: Env, lead: seq<byte>, code: seq<byte>, base: int, start: nat)
    requires AllSane(i) && Lead(lead) && |i.operands| == 2 && i.operands[0].Reg?
    requires i.op == Lea || i.op.Cmov? || i.op == Bsf || i.op == Bsr || i.op == Imul
    ensures Right(i, env, lead, code, base, start)
  {
    hide Form, IsRow, RunsAs, Lead, Sane, RmAccepted, CondCode, CondText;
    var a, b := i.operands[0], i.operands[1];
    SaneRm(b);
    SaneReg(a);
    SaneReg(b);
    RegisterFirstRows(a.reg % 8);
    var narrow := a.size == R16;
    match i.op
    case Lea =>
      if b.Memory? && a.size in {R16, R32, R64} {
        RegisterFirst(i, env, lead, code, base, start, narrow, [0x8D]);
      }
    case Cmov(c) =>
      if b.Imm? { ImmRefused(b); }
      if !b.Imm? && a.size in {R16, R32, R64} && (b.Reg? ==> b.size == a.size) {
        CmovRow(c, a.reg % 8);
        RegisterFirst(i, env, lead, code, base, start, narrow, [0x0F, 0x40 + CondCode(c)]);
      }
    case Bsf => RegisterFirst(i, env, lead, code, base, start, false, [0x0F, 0xBC]);
    case Bsr => RegisterFirst(i, env, lead, code, base, start, false, [0x0F, 0xBD]);
    case Imul => RegisterFirst(i, env, lead, code, base, start, false, [0x0F, 0xAF]);
  }

  lemma Imul3Runs(i: Instruction, env: Env, lead: seq<byte>, code: seq<byte>, base: int, start: nat)
    requires AllSane(i) && Lead(lead) && i.op == Imul && |i.operands| == 3
    ensures Right(i, env, lead, code, base, start)
  {
    hide Form, IsRow, RunsAs, Lead, Sane, RmAccepted, Le, ToInt32, Signed, GprOrMem;
    var os := i.operands;
    if os[0].Reg? && os[2].Imm? {
      var a, b, v := os[0], os[1], os[2].value;
      var w, short := a.size == R64, FitsInt8(ToInt32(v));
      var op: byte, n, imm := if short then 0x6B else 0x69, if short then Signed8 else Four,
        if short then [v % 256] else Le(v, 4);
      SaneRm(b);
      SaneReg(a);
      RegisterFirstRows(a.reg % 8);
      FormAccepted([], w, Some(a), b, [op], a.reg, imm);
      SignedLows(v);
      ByteLow(v);
      if RmAccepted(b) {
        RunRegRmImm(lead, w, a, b, [op], n, imm, "imul", code, base, start);
      }
    }
  }

  lemma BitRows(b: BitOp, ext: nat)
    requires ext < 8
    ensures IsRow([0x0F, 0xBA], BitCode(b), Row(OpText(Bits(b)), [OfRm(Sized), OfImm(Unsigned8)]))
    ensures IsRow([0x0F, 0xA3 + (BitCode(b) - 4) * 8], ext, Row(OpText(Bits(b)), [OfRm(Sized), OfReg(Sized)]))
  {
  }

  lemma BitsRuns(i: Instruction, env: Env, lead: seq<byte>, code: seq<byte>, base: int, start: nat)
    requires AllSane(i) && Lead(lead) && i.op.Bits?
    ensures Right(i, env, lead, code, base, start)
  {
    hide Form, IsRow, RunsAs, Lead, Sane, RmAccepted, GprOrMem, OpText, BitCode;
    var os := i.operands;
    if |os| == 2 {
      var a, b := os[0], os[1];
      var w := RmSize(a) == R64;
      SaneRm(a);
      SaneReg(b);
      if a.Imm? { ImmRefused(a); }
      if b.Imm? {
        BitRows(i.op.bit, 0);
        FormAccepted([], w, None, a, [0x0F, 0xBA], BitCode(i.op.bit), [b.value % 256]);
        if RmAccepted(a) {
          ByteLow(b.value);
          RunRmImm(lead, w, a, [0x0F, 0xBA], BitCode(i.op.bit), Sized, Unsigned8, [b.value % 256], OpText(i.op),
                   code, base, start);
        }
      } else if b.Reg? && b.reg == 1 {
        BitRows(i.op.bit, 1);
        var op: byte := 0xA3 + (BitCode(i.op.bit) - 4) * 8;
        FormAccepted([], w, Some(b), a, [0x0F, op], b.reg, []);
        if RmAccepted(a) {
          RunRmReg(lead, false, w, b, a, [0x0F, op], false, OpText(i.op), code, base, start);
        }
      }
    }
  }

  lemma FixedRows(ext: nat)
    requires ext < 8
    ensures IsRow([0xC3], ext, Row("ret", [])) && IsRow([0x90], ext, Row("nop", []))
        && IsRow([0xC9], ext, Row("leave", []))
    ensures IsRow([0x0F, 0x05], ext, Row("syscall", [])) && IsRow([0xC2], ext, Row("ret", [OfImm(Count.Two)]))
  {
    hide ShiftGroup, TestGroup;
  }

  lemma NoneShown(f: Facts)
    requires f.Valid()
    ensures f.ShowAll([]) == []
  {
  }

  lemma BareRuns(opcode: seq<byte>, word: string, lead: seq<byte>, code: seq<byte>, base: int, start: nat)
    requires Lead(lead) && 1 <= |opcode| <= 2 && forall ext: nat | ext < 8 :: IsRow(opcode, ext, Row(word, []))
    ensures RunsAs(Some(Plain(opcode)), lead, word, [], code, base, start)
  {
    hide IsRow, Lead, Executes, At, SegmentIn, Facts.ShowAll;
    assert [] + [] + opcode + [] == opcode;
    assert SlotsFit([], PlainFacts(false, [], opcode[|opcode| - 1], [])) && NoRm([]);
    hide SlotsFit, NoRm;
    NoneShown(PlainFacts(false, [], opcode[|opcode| - 1], []));
    hide PlainFacts;
    if At(code, start, lead + opcode) {
      PlainRuns(lead, false, [], opcode, [], Row(word, []), code, base, start);
    }
  }

  lemma FixedRuns(i: Instruction, env: Env, lead: seq<byte>, code: seq<byte>, base: int, start: nat)
    requires AllSane(i) && Lead(lead) && (i.op == Ret || i.op == Syscall || i.op == Nop || i.op == Leave)
    ensures Right(i, env, lead, code, base, start)
  {
    hide IsRow, Lead, RunsAs, Sane, Le, Unsigned;
    var opcode: seq<byte> := if i.op == Ret then [0xC3] else if i.op == Syscall then [0x0F, 0x05]
                             else if i.op == Nop then [0x90] else [0xC9];
    forall ext: nat | ext < 8
      ensures IsRow(opcode, ext, Row(OpText(i.op), []))
    {
      FixedRows(ext);
    }
    BareRuns(opcode, OpText(i.op), lead, code, base, start);
    if i.op == Ret && |i.operands| == 1 && i.operands[0].Imm? {
      RetRuns(i.operands[0].value, lead, code, base, start);
    }
  }

  lemma RetRuns(v: int, lead: seq<byte>, code: seq<byte>, base: int, start: nat)
    requires Lead(lead)
    ensures RunsAs(Some(Plain([0xC2] + Le(v, 2))), lead, "ret", [Imm(v % 65536)], code, base, start)
  {
    hide IsRow, Lead, Executes, At, SegmentIn, Le, Unsigned, Signed;
    forall ext: nat | ext < 8
      ensures IsRow([0xC2], ext, Row("ret", [OfImm(Count.Two)]))
    {
      FixedRows(ext);
    }
    var f := PlainFacts(false, [], 0xC2, Le(v, 2));
    ShownOne(OfImm(Count.Two), f);
    SignedLows(v);
    var e := [0xC2] + Le(v, 2);
    assert [] + [] + [0xC2] + Le(v, 2) == e;
    if At(code, start, lead + e) {
      PlainRuns(lead, false, [], [0xC2], Le(v, 2), Row("ret", [OfImm(Count.Two)]), code, base, start);
    }
  }

  // ---- any instruction ----

  lemma DispatchRuns(i: Instruction, env: Env, lead: seq<byte>, code: seq<byte>, base: int, start: nat)
    requires AllSane(i) && Lead(lead)
    ensures Right(i, env, lead, code, base, start)
  {
    hide Right, Sane, Lead;
    match i.op
    case Mov | Movzx | Movsx => MovRuns(i, env, lead, code, base, start);
    case Alu(_) => AluRuns(i, env, lead, code, base, start);
    case Push | Pop => StackRuns(i, env, lead, code, base, start);
    case Test => TestRuns(i, env, lead, code, base, start);
    case Bits(_) => BitsRuns(i, env, lead, code, base, start);
    case Ret | Syscall | Nop | Leave => FixedRuns(i, env, lead, code, base, start);
    case _ => OthersRun(i, env, lead, code, base, start);
  }

  lemma OthersRun(i: Instruction, env: Env, lead: seq<byte>, code: seq<byte>, base: int, start: nat)
    requires AllSane(i) && Lead(lead)
    requires !i.op.Mov? && !i.op.Movzx? && !i.op.Movsx? && !i.op.Alu? && !i.op.Push? && !i.op.Pop? && !i.op.Test?
    requires !i.op.Bits? && !i.op.Ret? && !i.op.Syscall? && !i.op.Nop? && !i.op.Leave?
    ensures Right(i, env, lead, code, base, start)
  {
    hide Lead, Form, RunsAs;
    var os := i.operands;
    if |os| == 1 && (i.op.Unary? || i.op.SetCc? || i.op == Imul) {
      SingleRuns(i, env, lead, code, base, start);
    } else if |os| == 1 && (i.op == Jmp || i.op == Call) {
      TransferRuns(i, env, lead, code, base, start);
    } else if |os| == 2 && os[0].Reg? && (i.op == Lea || i.op.Cmov? || i.op == Bsf || i.op == Bsr || i.op == Imul) {
      LoadingRuns(i, env, lead, code, base, start);
    } else if |os| == 3 && i.op == Imul {
      Imul3Runs(i, env, lead, code, base, start);
    } else {
      assert !Accepted(i);
      if |os| == 1 && (i.op.Jcc? || i.op.Jnz?) {
        assert Sane(os[0]);
      }
      assert Dispatch(i, env) == None;
    }
  }

  /** A memory operand with that segment override. */
  predicate Overrides(os: seq<Operand>, s: Segment) {
    exists k :: 0 <= k < |os| && os[k].Memory? && os[k].mem.segment == s
  }

  /** The override byte: 64 for fs, 65 for gs; refused where both are asked for. */
  lemma {:induction false} OverrideByte(os: seq<Operand>)
    ensures SegmentOf(os) == if Overrides(os, Fs) && Overrides(os, Gs) then None
                             else Some(if Overrides(os, Fs) then Fs else if Overrides(os, Gs) then Gs else Default)
    ensures SegmentPrefix(Default) == [] && SegmentPrefix(Fs) == [0x64] && SegmentPrefix(Gs) == [0x65]
  {
    if os != [] {
      var n := |os| - 1;
      OverrideByte(os[..n]);
      assert forall s :: Overrides(os[..n], s) ==> Overrides(os, s) by {
        forall s | Overrides(os[..n], s)
          ensures Overrides(os, s)
        {
          var k :| 0 <= k < n && os[..n][k].Memory? && os[..n][k].mem.segment == s;
          assert os[k].Memory? && os[k].mem.segment == s;
        }
      }
      assert forall s :: Overrides(os, s) ==> Overrides(os[..n], s) || (os[n].Memory? && os[n].mem.segment == s) by {
        forall s | Overrides(os, s)
          ensures Overrides(os[..n], s) || (os[n].Memory? && os[n].mem.segment == s)
        {
          var k :| 0 <= k < |os| && os[k].Memory? && os[k].mem.segment == s;
          assert k < n ==> os[..n][k] == os[k];
        }
      }
    }
  }

  /** The segment the processor uses. */
  function SegmentRun(os: seq<Operand>): Segment {
    if Overrides(os, Fs) then Fs else if Overrides(os, Gs) then Gs else Default
  }

  /**
   * Every instruction without a label: it is encoded exactly when it is accepted and no two overrides disagree, and
   * then the processor, wherever the bytes stand, does WordRun on OperandsRun in the segment asked for and goes on
   * right behind them.
   */
  lemma EncodedRuns(i: Instruction, env: Env, code: seq<byte>, base: int, start: nat)
    requires AllSane(i)
    ensures Encode(i, env).Some? <==> Accepted(i) && !(Overrides(i.operands, Fs) && Overrides(i.operands, Gs))
    ensures Encode(i, env).Some? && At(code, start, Encode(i, env).value.bytes) ==>
      start <= |code|
      && Executes(code, base, start)
         == Some(Run(WordRun(i.op), OperandsRun(i), SegmentRun(i.operands), |Encode(i, env).value.bytes|))
  {
    hide Executes, At, Dispatch, Accepted, OperandsRun, WordRun, Sane, Overrides, SegmentOf;
    OverrideByte(i.operands);
    var s := SegmentOf(i.operands);
    if s.Some? {
      var lead := SegmentPrefix(s.value);
      DispatchRuns(i, env.(at := env.at + |lead|), lead, code, base, start);
      assert SegmentIn(lead) == s.value;
    }
  }

  // ---- when the instruction runs as written ----

  predicate Native(o: Operand) { o.Reg? ==> o.size == R64 || o.size == R32 }

  /** Operands of one size the form can have. */
  predicate NativePair(a: Operand, b: Operand) {
    Native(a) && Native(b) && (a.Reg? && b.Reg? ==> a.size == b.size)
  }

  predicate Fits(o: Operand) { o.Imm? ==> FitsInt32(o.value) }

  /** A byte register whose number is not that of another without a REX byte. */
  predicate PlainByte(o: Operand) { o.Reg? ==> o.size == R8H || o.reg < 4 || 8 <= o.reg }

  predicate AsWritten(i: Instruction)
    requires AllSane(i) && Accepted(i)
  {
    var os := i.operands;
    match i.op
    case Mov => Fits(os[1]) && NativePair(os[0], os[1])
    case Movzx | Movsx => false
    case Alu(_) =>
      && Fits(os[1]) && NativePair(os[0], os[1])
      && (os[0].Reg? && os[1].Imm? ==> os[0].size == R64 || os[0].reg < 8)
    case Push | Pop | Jmp | Call => Fits(os[0]) && (os[0].Reg? ==> os[0].size == R64)
    case Unary(_) => Native(os[0])
    case Test =>
      if os[0].Reg? && os[0].size == R8 && os[1].Imm? then PlainByte(os[0]) && 0 <= os[1].value < 256
      else Fits(os[1]) && NativePair(os[0], os[1])
    case Imul => Native(os[0]) && (|os| > 1 ==> NativePair(os[0], os[1])) && (|os| > 2 ==> Fits(os[2]))
    case Bsf | Bsr => NativePair(os[0], os[1])
    case SetCc(_) => PlainByte(os[0])
    case Bits(_) =>
      Native(os[0]) && if os[1].Imm? then 0 <= os[1].value < 256 else os[1].size == Widened(os[0])
    case Ret => os == [] || 0 <= os[0].value < 65536
    case Syscall | Leave => os == []
    case _ => true
  }

  /**
   * An instruction is run as it was written, word, registers, sizes and values, if and only if AsWritten holds; for
   * the moves of an immediate to a register see Immediates.
   */
  lemma RunsAsWritten(i: Instruction)
    requires AllSane(i) && Accepted(i)
    requires i.op == Mov ==> !(i.operands[0].Reg? && i.operands[1].Imm?)
    ensures WordRun(i.op) == OpText(i.op) && OperandsRun(i) == ViewAll(i.operands) <==> AsWritten(i)
  {
    hide AllSane, Accepted, AsWritten, OperandsRun, OpText, WordRun, ViewAll;
    SameWord(i.op);
    if i.op == Mov || i.op.Alu? || i.op == Test || i.op.Bits? {
      PairAsWritten(i);
    } else {
      OthersAsWritten(i);
    }
  }

  lemma OperandsSane(i: Instruction)
    requires AllSane(i)
    ensures var os := i.operands;
      && (|os| == 1 ==> ViewAll(os) == [View(os[0])])
      && (|os| == 2 ==> ViewAll(os) == [View(os[0]), View(os[1])])
      && (|os| == 3 ==> ViewAll(os) == [View(os[0]), View(os[1]), View(os[2])])
    ensures forall k :: 0 <= k < |i.operands| ==>
      var o := i.operands[k];
      Sane(o) && (RmAccepted(o) ==> o.Reg? || o.Memory?) && (o.Imm? ==> (ToInt32(o.value) == o.value <==> Fits(o)))
  {
    hide Sane, RmAccepted, ToInt32;
    forall k | 0 <= k < |i.operands|
      ensures var o := i.operands[k];
        Sane(o) && (RmAccepted(o) ==> o.Reg? || o.Memory?) && (o.Imm? ==> (ToInt32(o.value) == o.value <==> Fits(o)))
    {
      SaneRm(i.operands[k]);
      Truncated(i.operands[k]);
    }
  }

  lemma PairAsWritten(i: Instruction)
    requires AllSane(i) && Accepted(i) && (i.op == Mov || i.op.Alu? || i.op == Test || i.op.Bits?)
    requires i.op == Mov ==> !(i.operands[0].Reg? && i.operands[1].Imm?)
    ensures OperandsRun(i) == ViewAll(i.operands) <==> AsWritten(i)
  {
    hide WellFormed, RoundTrips, RmAccepted, ToInt32, Clash;
    OperandsSane(i);
    hide ViewAll, AllSane;
  }

  lemma OthersAsWritten(i: Instruction)
    requires AllSane(i) && Accepted(i) && i.op != Mov && !i.op.Alu? && i.op != Test && !i.op.Bits?
    ensures !i.op.Movzx? && !i.op.Movsx? ==> (OperandsRun(i) == ViewAll(i.operands) <==> AsWritten(i))
    ensures i.op.Movzx? || i.op.Movsx? ==> !AsWritten(i)
  {
    hide WellFormed, RoundTrips, RmAccepted, ToInt32, Clash;
    OperandsSane(i);
    hide ViewAll, AllSane;
  }

  lemma SameWord(op: Op)
    ensures WordRun(op) == OpText(op) <==> !op.Movzx? && !op.Movsx?
  {
  }

  lemma Truncated(o: Operand)
    ensures o.Imm? ==> (ToInt32(o.value) == o.value <==> Fits(o))
  {
  }
}
