// The assembler context as the encoders use it: section buffers filled byte by byte, a running address,
// and a list of fixup slots. Every emitting method is proved to append what module Encoding specifies.
// The encoder methods choose among the same forms as the functions of that module. What they add is the
// state: bytes that go out one by one, the address and the fixup slots that move along, and a stop in the
// middle of an instruction when a buffer or the list is full.

module Context {
  import opened Bytes
  import opened Operands
  import opened Encoding
  import Symbols
  import L = Layout
  import F = Fixups

  // ---- what emission does, on values ----

  datatype Status = Pass | Fail {
    predicate IsFailure() { Fail? }

    function PropagateFailure(): Status
      requires Fail?
    {
      Fail
    }
  }

  // A slot of the fixup list. branch says that the instruction type is a jump or a call.
  datatype FixupSlot = FixupSlot(lbl: string, location: int, size: nat, branch: bool, ripRelative: bool)

  /** How resolve_fixups reads a slot: the flag of a reused slot does not matter to a branch. */
  function AsFixup(s: FixupSlot): L.Fixup {
    L.Fixup(s.lbl, s.location, s.size, s.ripRelative || s.branch)
  }

  // The contents of the context an encoder can change.
  datatype Out = Out(inData: bool, text: seq<byte>, data: seq<byte>, fixups: seq<L.Fixup>, at: int)

  function Room(o: Out): int { L.CAPACITY - (if o.inData then |o.data| else |o.text|) }

  function FixupsOf(e: Emission, at: int): seq<L.Fixup> {
    match e.field
    case None => []
    case Some(f) => [L.Fixup(f.lbl, at + f.offset, f.size, f.relative)]
  }

  /** The context behind an emission. */
  function Grown(o: Out, e: Emission): Out {
    var at, fixups := o.at + |e.bytes|, o.fixups + FixupsOf(e, o.at);
    if o.inData then o.(data := o.data + e.bytes, fixups := fixups, at := at)
    else o.(text := o.text + e.bytes, fixups := fixups, at := at)
  }

  predicate CanTake(o: Out, e: Option<Emission>) {
    e.Some? && |e.value.bytes| <= Room(o) && (e.value.field.Some? ==> |o.fixups| < Symbols.MAX_SYMBOLS)
  }

  /** Emission e is made, or fails because the specification has none, the section is full or the fixup list is. */
  ghost predicate Does(a: Out, b: Out, e: Option<Emission>, s: Status) {
    (s.Pass? <==> CanTake(a, e)) && (s.Pass? ==> b == Grown(a, e.value))
  }

  /** One emission behind another. */
  function Cat(d: Option<Emission>, e: Option<Emission>): Option<Emission> {
    if d.None? || e.None? then None
    else if d.value.field.Some? then Some(d.value.After(e.value.bytes))
    else Some(e.value.Before(d.value.bytes))
  }

  lemma CatDoes(a: Out, b: Out, c: Out, d: Option<Emission>, e: Option<Emission>, s: Status)
    requires Does(a, b, d, Pass) && Does(b, c, e, s)
    requires d.Some? && e.Some? ==> d.value.field.None? || e.value.field.None?
    ensures Does(a, c, Cat(d, e), s)
  {
    if e.Some? {
      var x, y := d.value, e.value;
      assert (a.text + x.bytes) + y.bytes == a.text + (x.bytes + y.bytes);
      assert (a.data + x.bytes) + y.bytes == a.data + (x.bytes + y.bytes);
      assert (a.fixups + FixupsOf(x, a.at)) + FixupsOf(y, b.at) == a.fixups + FixupsOf(Cat(d, e).value, a.at);
    }
  }

  lemma CatFails(a: Out, b: Out, d: Option<Emission>, e: Option<Emission>)
    requires Does(a, b, d, Fail)
    ensures Does(a, b, Cat(d, e), Fail)
  {
  }

  lemma DoesNothing(a: Out)
    requires Room(a) >= 0
    ensures Does(a, a, Some(Plain([])), Pass)
  {
    assert a.text + [] == a.text && a.data + [] == a.data && a.fixups + [] == a.fixups;
  }

  lemma CatPlain(s: seq<byte>, t: seq<byte>)
    ensures Cat(Some(Plain(s)), Some(Plain(t))) == Some(Plain(s + t))
  {
  }

  /** A fixup recorded at the running address, before the bytes of its field. */
  function Mark(lbl: string, size: nat, relative: bool): Emission { Emission([], Some(Field(lbl, 0, size, relative))) }

  lemma CatField(head: seq<byte>, lbl: string, relative: bool, tail: seq<byte>)
    ensures Cat(Cat(Some(Plain(head)), Some(Mark(lbl, 4, relative))), Some(Plain(tail)))
         == Some(Emission(head + tail, Some(Field(lbl, |head|, 4, relative))))
  {
    assert head + [] == head;
  }

  /** Recording the fixup alone is the emission of its mark. */
  lemma MarkDoes(a: Out, b: Out, lbl: string, size: nat, relative: bool, s: Status)
    requires Room(a) >= 0
    requires s == if |a.fixups| < Symbols.MAX_SYMBOLS then Pass else Fail
    requires s.Pass? ==> b == a.(fixups := a.fixups + [L.Fixup(lbl, a.at, size, relative)])
    ensures Does(a, b, Some(Mark(lbl, size, relative)), s)
  {
    assert a.text + [] == a.text && a.data + [] == a.data;
  }

  /** The tail of an encoder, put together from its parts. */
  lemma CatForm(prefix: seq<byte>, w: bool, regOp: Option<Operand>, rm: Operand, opcode: seq<byte>, reg: int,
                imm: seq<byte>)
    ensures var rex := Rex(w, regOp, Some(rm));
      Cat(Cat(Some(Plain((prefix + rex) + opcode)), ModRm(reg, rm)), Some(Plain(imm)))
        == Form(prefix, w, regOp, rm, opcode, reg, imm)
  {
    hide Rex, ModRm;
    var e := ModRm(reg, rm);
    if e.Some? {
      var head := prefix + Rex(w, regOp, Some(rm)) + opcode;
      assert (head + e.value.bytes) + imm == e.value.Before(head).After(imm).bytes;
    }
  }

  /** The bytes that still find room when failures are ignored, one part after another. */
  lemma FittingCat(s: seq<byte>, t: seq<byte>, room: int)
    ensures L.Fitting(s + t, room) == L.Fitting(s, room) + L.Fitting(t, room - |L.Fitting(s, room)|)
  {
  }

  // ---- the context ----

  class AssemblerContext {
    const text: array<byte>
    var textSize: nat
    const data: array<byte>
    var dataSize: nat
    var currentSection: nat
    var currentAddress: int
    const slots: array<FixupSlot>
    var fixupCount: nat
    const table: Symbols.SymbolTable
    var forwardShort: bool
    var lineMap: seq<(int, int)>

    ghost predicate Valid()
      reads this, table
    {
      && text.Length == data.Length == L.CAPACITY && text != data && slots.Length == Symbols.MAX_SYMBOLS
      && textSize <= L.CAPACITY && dataSize <= L.CAPACITY && fixupCount <= Symbols.MAX_SYMBOLS
      && table.Valid()
    }

    ghost predicate Shaped()
      reads this
    {
      && text.Length == data.Length == L.CAPACITY && text != data && slots.Length == Symbols.MAX_SYMBOLS
      && textSize <= L.CAPACITY && dataSize <= L.CAPACITY && fixupCount <= Symbols.MAX_SYMBOLS
    }

    ghost function Recorded(): (fs: seq<L.Fixup>)
      requires Shaped()
      reads this, slots
      ensures |fs| == fixupCount && forall k :: 0 <= k < fixupCount ==> fs[k] == AsFixup(slots[k])
    {
      seq(fixupCount, k requires 0 <= k < fixupCount reads this, slots requires Shaped() => AsFixup(slots[k]))
    }

    ghost function Now(): Out
      requires Shaped()
      reads this, text, data, slots
    {
      Out(currentSection == 1, text[..textSize], data[..dataSize], Recorded(), currentAddress)
    }

    constructor ()
      ensures Valid() && Now() == Out(false, [], [], [], L.BASE) && table.Model() == map[]
      ensures fresh(text) && fresh(data) && fresh(slots) && fresh(table)
    {
      text := new byte[L.CAPACITY];
      data := new byte[L.CAPACITY];
      slots := new FixupSlot[Symbols.MAX_SYMBOLS](_ => FixupSlot("", 0, 0, false, false));
      table := new Symbols.SymbolTable();
      textSize, dataSize, fixupCount := 0, 0, 0;
      currentSection, currentAddress, forwardShort, lineMap := 0, L.BASE, false, [];
    }

    // ---- bytes ----

    /** emit_byte: a full section refuses the byte, and nothing changes. */
    method EmitByte(b: byte) returns (status: Status)
      requires Shaped()
      modifies this`textSize, this`dataSize, this`currentAddress, text, data
      ensures Shaped() && Does(old(Now()), Now(), Some(Plain([b])), status)
      ensures status.Fail? ==> Now() == old(Now())
    {
      if currentSection == 1 {
        if dataSize >= data.Length {
          return Fail;
        }
        data[dataSize] := b;
        dataSize := dataSize + 1;
      } else {
        if textSize >= text.Length {
          return Fail;
        }
        text[textSize] := b;
        textSize := textSize + 1;
      }
      currentAddress := currentAddress + 1;
      assert Recorded() == old(Recorded()) + [];
      return Pass;
    }

    /**
     * A run of emit_byte calls that gives up at the first failure; emit_le16, emit_le32 and emit_le64 are such
     * runs.
     */
    method EmitBytes(s: seq<byte>) returns (status: Status)
      requires Shaped()
      modifies this`textSize, this`dataSize, this`currentAddress, text, data
      ensures Shaped() && Does(old(Now()), Now(), Some(Plain(s)), status)
    {
      hide Does, Cat;
      ghost var before := Now();
      DoesNothing(before);
      assert s[..0] == [];
      for k := 0 to |s|
        invariant Shaped() && Does(before, Now(), Some(Plain(s[..k])), Pass)
      {
        ghost var now := Now();
        status := EmitByte(s[k]);
        CatPlain(s[..k], [s[k]]);
        CatDoes(before, now, Now(), Some(Plain(s[..k])), Some(Plain([s[k]])), status);
        assert s[..k] + [s[k]] == s[..k + 1];
        if status.Fail? {
          CatPlain(s[..k + 1], s[k + 1..]);
          CatFails(before, Now(), Some(Plain(s[..k + 1])), Some(Plain(s[k + 1..])));
          assert s[..k + 1] + s[k + 1..] == s;
          return;
        }
      }
      assert s[..|s|] == s;
      return Pass;
    }

    /** One emit_byte call whose result is ignored. */
    method EmitIfRoom(b: byte)
      requires Shaped()
      modifies this`textSize, this`dataSize, this`currentAddress, text, data
      ensures Shaped() && currentSection == old(currentSection)
      ensures Now() == Grown(old(Now()), Plain(L.Fitting([b], Room(old(Now())))))
    {
      GrownNothing(Now());
      var status := EmitByte(b);
      assert L.Fitting([b], Room(old(Now()))) == if status.Pass? then [b] else [];
    }

    /** A run of emit_byte calls whose results are ignored: what does not fit is lost silently. */
    method EmitQuietly(s: seq<byte>)
      requires Shaped()
      modifies this`textSize, this`dataSize, this`currentAddress, text, data
      ensures Shaped() && currentSection == old(currentSection)
      ensures Now() == Grown(old(Now()), Plain(L.Fitting(s, Room(old(Now())))))
    {
      hide Grown, L.Fitting;
      ghost var before := Now();
      GrownNothing(before);
      assert s[..0] == [];
      for k := 0 to |s|
        invariant Shaped() && currentSection == old(currentSection)
        invariant Now() == Grown(before, Plain(L.Fitting(s[..k], Room(before))))
      {
        ghost var now := Now();
        assert s[..k] + [s[k]] == s[..k + 1];
        FittingCat(s[..k], [s[k]], Room(before));
        EmitIfRoom(s[k]);
        GrownTwice(before, now, L.Fitting(s[..k], Room(before)), L.Fitting([s[k]], Room(now)));
      }
      assert s[..|s|] == s;
    }

    /** emit_rex */
    method EmitRex(w: bool, regOp: Option<Operand>, rm: Option<Operand>) returns (status: Status)
      requires Shaped()
      modifies this`textSize, this`dataSize, this`currentAddress, text, data
      ensures Shaped() && Does(old(Now()), Now(), Some(Plain(Rex(w, regOp, rm))), status)
    {
      hide Does;
      var r, x, b := false, false, false;
      if regOp.Some? && regOp.value.Reg? && regOp.value.reg >= 8 {
        r := true;
      }
      if rm.Some? {
        if rm.value.Reg? && rm.value.reg >= 8 {
          b := true;
        } else if rm.value.Memory? {
          if rm.value.mem.base.Some? && rm.value.mem.base.value >= 8 {
            b := true;
          }
          if rm.value.mem.index.Some? && rm.value.mem.index.value >= 8 {
            x := true;
          }
        }
      }
      if !w && !r && !x && !b {
        DoesNothing(Now());
        return Pass;
      }
      status := EmitByte(MakeRex(w, r, x, b));
    }

    // ---- fixups ----

    /** add_fixup, an absolute field */
    method AddFixup(lbl: string, location: int, size: nat) returns (status: Status)
      requires Shaped()
      modifies this`fixupCount, slots
      ensures Shaped() && status == (if |old(Recorded())| < Symbols.MAX_SYMBOLS then Pass else Fail)
      ensures Recorded() == old(Recorded()) + (if status.Pass? then [L.Fixup(lbl, location, size, false)] else [])
    {
      if fixupCount >= slots.Length {
        return Fail;
      }
      slots[fixupCount] := FixupSlot(lbl, location, size, false, false);
      fixupCount := fixupCount + 1;
      return Pass;
    }

    /** add_fixup_rip_relative */
    method AddFixupRipRelative(lbl: string, location: int) returns (status: Status)
      requires Shaped()
      modifies this`fixupCount, slots
      ensures Shaped() && status == (if |old(Recorded())| < Symbols.MAX_SYMBOLS then Pass else Fail)
      ensures Recorded() == old(Recorded()) + (if status.Pass? then [L.Fixup(lbl, location, 4, true)] else [])
    {
      if fixupCount >= slots.Length {
        return Fail;
      }
      slots[fixupCount] := FixupSlot(lbl, location, 4, false, true);
      fixupCount := fixupCount + 1;
      return Pass;
    }

    /**
     * add_controlflow_fixup leaves the slot's old is_rip_relative in place; the recorded fixup is relative all
     * the same.
     */
    method AddControlflowFixup(lbl: string, size: nat) returns (status: Status)
      requires Shaped()
      modifies this`fixupCount, slots
      ensures Shaped() && status == (if |old(Recorded())| < Symbols.MAX_SYMBOLS then Pass else Fail)
      ensures Recorded() == old(Recorded()) + (if status.Pass? then [L.Fixup(lbl, currentAddress, size, true)] else [])
    {
      if fixupCount >= slots.Length {
        return Fail;
      }
      slots[fixupCount] := slots[fixupCount].(lbl := lbl, location := currentAddress, size := size, branch := true);
      fixupCount := fixupCount + 1;
      return Pass;
    }

    // ---- operands ----

    /** Bytes, then a fixup for the field that follows, then the four bytes of the field. */
    method EmitField(head: seq<byte>, lbl: string, relative: bool, branch: bool, v: int) returns (status: Status)
      requires Shaped() && (branch ==> relative)
      modifies this`textSize, this`dataSize, this`currentAddress, this`fixupCount, text, data, slots
      ensures Shaped()
      ensures Does(old(Now()), Now(), Some(Emission(head + Le(v, 4), Some(Field(lbl, |head|, 4, relative)))), status)
    {
      hide Does, Cat, Le;
      ghost var before, first := Now(), Some(Plain(head));
      ghost var mark, field := Some(Mark(lbl, 4, relative)), Some(Plain(Le(v, 4)));
      CatField(head, lbl, relative, Le(v, 4));
      status := EmitBytes(head);
      ghost var now := Now();
      if status.Fail? {
        CatFails(before, now, first, mark);
        CatFails(before, now, Cat(first, mark), field);
        return;
      }
      if branch {
        status := AddControlflowFixup(lbl, 4);
      } else if relative {
        status := AddFixupRipRelative(lbl, currentAddress);
      } else {
        status := AddFixup(lbl, currentAddress, 4);
      }
      MarkDoes(now, Now(), lbl, 4, relative, status);
      CatDoes(before, now, Now(), first, mark, status);
      now := Now();
      if status.Fail? {
        CatFails(before, now, Cat(first, mark), field);
        return;
      }
      status := EmitBytes(Le(v, 4));
      CatDoes(before, now, Now(), Cat(first, mark), field, status);
    }

    /** emit_modrm_sib */
    method EmitModRmSib(reg: int, o: Operand) returns (status: Status)
      requires Shaped()
      modifies this`textSize, this`dataSize, this`currentAddress, this`fixupCount, text, data, slots
      ensures Shaped() && Does(old(Now()), Now(), ModRm(reg, o), status)
    {
      hide Le, MakeModRm, MakeSib, FitsInt8, Grown, Room;
      if o.Reg? {
        status := EmitByte(MakeModRm(3, reg, o.reg % 8));
        SameModRm(3, reg, o.reg);
        return;
      }
      if !o.Memory? {
        return Fail;
      }
      var m := o.mem;
      if m.index.Some? && !(m.scale == 1 || m.scale == 2 || m.scale == 4 || m.scale == 8) {
        return Fail;
      }
      if m.isRip && (m.index.Some? || m.base.Some?) {
        return Fail;
      }
      if m.isRip {
        if m.lbl != "" {
          status := EmitField([MakeModRm(0, reg, 5)], m.lbl, true, false, m.disp);
        } else {
          status := EmitBytes([MakeModRm(0, reg, 5)] + Le(m.disp, 4));
        }
        return;
      }
      if m.base.None? && m.index.None? {
        if m.lbl != "" {
          status := EmitField([MakeModRm(0, reg, 4), MakeSib(1, 4, 5)], m.lbl, false, false, m.disp);
        } else {
          status := EmitBytes([MakeModRm(0, reg, 4), MakeSib(1, 4, 5)] + Le(m.disp, 4));
        }
        return;
      }
      if m.index.None? {
        var b := m.base.value % 8;
        var sib: seq<byte> := [];
        if b == 4 {
          sib := [MakeSib(1, 4, b)];
        }
        if !m.hasDisp && b != 4 && b != 5 {
          status := EmitByte(MakeModRm(0, reg, b));
        } else if !m.hasDisp && b == 5 {
          status := EmitBytes([MakeModRm(1, reg, 5), 0]);
        } else if m.hasDisp && FitsInt8(m.disp) {
          status := EmitBytes([MakeModRm(1, reg, b)] + sib + [m.disp % 256]);
        } else {
          status := EmitBytes([MakeModRm(2, reg, b)] + sib + Le(m.disp, 4));
        }
        return;
      }
      var b := if m.base.Some? then m.base.value % 8 else 5;
      var needSibDisp := (m.base.None? || b == 5) && m.disp == 0;
      if m.hasDisp && FitsInt8(m.disp) && !needSibDisp {
        status := EmitBytes([MakeModRm(1, reg, 4), MakeSib(m.scale, m.index.value, b), m.disp % 256]);
        return;
      }
      var mod := if m.hasDisp || m.base.None? then 2 else 0;
      if mod != 0 || m.base.None? {
        status := EmitBytes([MakeModRm(mod, reg, 4), MakeSib(m.scale, m.index.value, b)] + Le(m.disp, 4));
      } else {
        status := EmitBytes([MakeModRm(mod, reg, 4), MakeSib(m.scale, m.index.value, b)]);
        assert [MakeModRm(mod, reg, 4), MakeSib(m.scale, m.index.value, b)] + []
          == [MakeModRm(mod, reg, 4), MakeSib(m.scale, m.index.value, b)];
      }
    }

    /** The common tail of the encoders: prefix bytes, emit_rex, the opcode bytes, emit_modrm_sib and the immediate. */
    method EmitForm(prefix: seq<byte>, w: bool, regOp: Option<Operand>, rm: Operand, opcode: seq<byte>, reg: int,
                    imm: seq<byte>)
      returns (status: Status)
      requires Shaped()
      modifies this`textSize, this`dataSize, this`currentAddress, this`fixupCount, text, data, slots
      ensures Shaped() && Does(old(Now()), Now(), Form(prefix, w, regOp, rm, opcode, reg, imm), status)
    {
      hide Does, Cat, Rex, ModRm, Form;
      ghost var before, rex := Now(), Rex(w, regOp, Some(rm));
      ghost var p0, p1, p2 := Some(Plain(prefix)), Some(Plain(rex)), Some(Plain(opcode));
      ghost var m, i := ModRm(reg, rm), Some(Plain(imm));
      CatForm(prefix, w, regOp, rm, opcode, reg, imm);
      CatPlain(prefix, rex);
      CatPlain(prefix + rex, opcode);
      status := EmitBytes(prefix);
      ghost var now := Now();
      if status.Fail? {
        CatFails(before, now, p0, p1);
        CatFails(before, now, Cat(p0, p1), p2);
        CatFails(before, now, Cat(Cat(p0, p1), p2), m);
        CatFails(before, now, Cat(Cat(Cat(p0, p1), p2), m), i);
        return;
      }
      status := EmitRex(w, regOp, Some(rm));
      CatDoes(before, now, Now(), p0, p1, status);
      now := Now();
      if status.Fail? {
        CatFails(before, now, Cat(p0, p1), p2);
        CatFails(before, now, Cat(Cat(p0, p1), p2), m);
        CatFails(before, now, Cat(Cat(Cat(p0, p1), p2), m), i);
        return;
      }
      status := EmitBytes(opcode);
      CatDoes(before, now, Now(), Cat(p0, p1), p2, status);
      now := Now();
      if status.Fail? {
        CatFails(before, now, Cat(Cat(p0, p1), p2), m);
        CatFails(before, now, Cat(Cat(Cat(p0, p1), p2), m), i);
        return;
      }
      status := EmitModRmSib(reg, rm);
      CatDoes(before, now, Now(), Cat(Cat(p0, p1), p2), m, status);
      now := Now();
      if status.Fail? {
        CatFails(before, now, Cat(Cat(Cat(p0, p1), p2), m), i);
        return;
      }
      status := EmitBytes(imm);
      CatDoes(before, now, Now(), Cat(Cat(Cat(p0, p1), p2), m), i, status);
    }

    /** emit_rex without an rm operand, then bytes. */
    method EmitRexBytes(w: bool, regOp: Option<Operand>, s: seq<byte>) returns (status: Status)
      requires Shaped()
      modifies this`textSize, this`dataSize, this`currentAddress, text, data
      ensures Shaped() && Does(old(Now()), Now(), Some(Plain(Rex(w, regOp, None) + s)), status)
    {
      hide Does, Cat, Rex;
      ghost var before, rex := Now(), Rex(w, regOp, None);
      CatPlain(rex, s);
      status := EmitRex(w, regOp, None);
      ghost var now := Now();
      if status.Fail? {
        CatFails(before, now, Some(Plain(rex)), Some(Plain(s)));
        return;
      }
      status := EmitBytes(s);
      CatDoes(before, now, Now(), Some(Plain(rex)), Some(Plain(s)), status);
    }

    // ---- the encoders ----

    /** encode_mov, register destination and immediate source */
    method EncodeMovRegImm(dst: Operand, v: int) returns (status: Status)
      requires Shaped() && dst.Reg?
      modifies this`textSize, this`dataSize, this`currentAddress, this`fixupCount, text, data, slots
      ensures Shaped() && Does(old(Now()), Now(), MovRegImm(dst, v), status)
    {
      hide Does, Form, Le, Rex, MakeRex;
      var r := dst.reg % 8;
      var w := dst.size == R64;
      if w && 0 <= v <= UINT32_MAX {
        status := EmitBytes((if dst.reg >= 8 then [MakeRex(false, false, false, true)] else []) + [0xB8 + r]
                            + Le(v, 4));
      } else if w && !FitsInt32(v) {
        status := EmitRexBytes(true, Some(dst), [0xB8 + r] + Le(v, 8));
        assert Rex(true, Some(dst), None) + ([0xB8 + r] + Le(v, 8))
          == Rex(true, Some(dst), None) + [0xB8 + r] + Le(v, 8);
      } else if w {
        status := EmitForm([], true, None, dst, [0xC7], 0, Le(v, 4));
      } else if dst.size == R32 {
        status := EmitRexBytes(false, Some(dst), [0xB8 + r] + Le(v, 4));
        assert Rex(false, Some(dst), None) + ([0xB8 + r] + Le(v, 4))
          == Rex(false, Some(dst), None) + [0xB8 + r] + Le(v, 4);
      } else if dst.size == R16 {
        status := EmitBytes([0x66] + Rex(false, Some(dst), None) + [0xB8 + r] + Le(v, 2));
      } else if dst.size == R8H {
        status := EmitBytes([0xB0 + r] + [v % 256]);
      } else {
        status := EmitRexBytes(false, Some(dst), [0xB0 + r] + [v % 256]);
        assert Rex(false, Some(dst), None) + ([0xB0 + r] + [v % 256])
          == Rex(false, Some(dst), None) + [0xB0 + r] + [v % 256];
      }
    }

    /** encode_mov */
    method EncodeMovInst(dst: Operand, src: Operand) returns (status: Status)
      requires Shaped()
      modifies this`textSize, this`dataSize, this`currentAddress, this`fixupCount, text, data, slots
      ensures Shaped() && Does(old(Now()), Now(), EncodeMov(dst, src), status)
    {
      hide Form, Le, Rex, MakeModRm, MovRegImm, RexConflict, Grown, Room;
      if RexConflict(dst, src) {
        return Fail;
      }
      var w := OperandSize(dst, src) == R64;
      if dst.Reg? && src.Label? {
        var head := Rex(true, Some(dst), None) + [0x8B];
        assert head + [MakeModRm(0, dst.reg, 5)] + Le(0, 4) == head + ([MakeModRm(0, dst.reg, 5)] + Le(0, 4));
        status := EmitField(head + [MakeModRm(0, dst.reg, 5)], src.name, true, false, 0);
      } else if dst.Reg? && src.Imm? {
        status := EncodeMovRegImm(dst, src.value);
      } else if dst.Reg? && src.Reg? {
        status := EmitForm([], w, Some(src), dst, [0x89], src.reg, []);
      } else if dst.Reg? && src.Memory? {
        status := EmitForm([], w, Some(dst), src, [0x8B], dst.reg, []);
      } else if dst.Memory? && src.Reg? {
        status := EmitForm([], w, Some(src), dst, [0x89], src.reg, []);
      } else if dst.Memory? && src.Imm? {
        status := EmitForm([], w, None, dst, [0xC7], 0, Le(src.value, 4));
      } else {
        status := Fail;
      }
    }

    /** encode_push_pop */
    method EncodePushPopInst(push: bool, o: Operand) returns (status: Status)
      requires Shaped()
      modifies this`textSize, this`dataSize, this`currentAddress, this`fixupCount, text, data, slots
      ensures Shaped() && Does(old(Now()), Now(), EncodePushPop(push, o), status)
    {
      hide Form, Le, MakeRex, ToInt32, Grown, Room;
      match o
      case Reg(r, _) =>
        status := EmitBytes((if r >= 8 then [MakeRex(false, false, false, true)] else [])
                            + [(if push then 0x50 else 0x58) + r % 8]);
      case Imm(v) =>
        if !push {
          status := Fail;
        } else if FitsInt8(ToInt32(v)) {
          status := EmitBytes([0x6A, v % 256]);
        } else {
          status := EmitBytes([0x68] + Le(v, 4));
        }
      case Memory(m) =>
        if push {
          status := EmitForm([], true, None, o, [0xFF], 6, []);
        } else {
          status := EmitForm([], true, None, o, [0x8F], 0, []);
        }
      case Label(_) =>
        status := Fail;
    }

    /** encode_arithmetic, register destination and immediate source */
    method EncodeAluRegImm(ext: nat, dst: Operand, v: int) returns (status: Status)
      requires Shaped() && dst.Reg? && ext < 8
      modifies this`textSize, this`dataSize, this`currentAddress, this`fixupCount, text, data, slots
      ensures Shaped() && Does(old(Now()), Now(), AluRegImm(ext, dst, v), status)
    {
      hide Le, MakeModRm, MakeRex, ToInt32, Grown, Room, Does, Rex;
      var w := dst.size == R64;
      var fits8 := FitsInt8(ToInt32(v));
      var m := [MakeModRm(3, ext, dst.reg)];
      if dst.reg == 0 && !fits8 && (w || dst.size == R32) && (!w || FitsInt32(v)) {
        status := EmitBytes((if w then Rex(true, Some(dst), None) else []) + [0x05 + ext * 8] + Le(v, 4));
      } else if w && !FitsInt32(v) {
        NoEmission(Now());
        status := Fail;
      } else {
        var rex := if w then Rex(true, None, Some(dst)) else [];
        if fits8 && dst.size != R8 {
          status := EmitBytes(rex + [0x83] + m + [v % 256]);
        } else {
          status := EmitBytes(rex + [0x81] + m + Le(v, 4));
        }
      }
    }

    /** encode_arithmetic */
    method EncodeAluInst(a: AluOp, dst: Operand, src: Operand) returns (status: Status)
      requires Shaped()
      modifies this`textSize, this`dataSize, this`currentAddress, this`fixupCount, text, data, slots
      ensures Shaped() && Does(old(Now()), Now(), EncodeAlu(a, dst, src), status)
    {
      hide Form, Le, ToInt32, AluRegImm, RexConflict, Grown, Room;
      if RexConflict(dst, src) {
        return Fail;
      }
      var w := OperandSize(dst, src) == R64;
      var ext := Group1Code(a);
      if dst.Reg? && src.Imm? {
        status := EncodeAluRegImm(ext, dst, src.value);
      } else if dst.Reg? && src.Reg? {
        status := EmitForm([], w, Some(src), dst, [0x01 + ext * 8], src.reg, []);
      } else if dst.Reg? && src.Memory? {
        status := EmitForm([], w, Some(dst), src, [0x03 + ext * 8], dst.reg, []);
      } else if dst.Memory? && src.Reg? {
        status := EmitForm([], w, Some(src), dst, [0x01 + ext * 8], src.reg, []);
      } else if dst.Memory? && src.Imm? {
        if FitsInt8(ToInt32(src.value)) {
          status := EmitForm([], w, None, dst, [0x83], ext, [src.value % 256]);
        } else {
          status := EmitForm([], w, None, dst, [0x81], ext, Le(src.value, 4));
        }
      } else {
        status := Fail;
      }
    }

    /** encode_unary_arithmetic */
    method EncodeUnaryInst(u: UnaryOp, o: Operand) returns (status: Status)
      requires Shaped()
      modifies this`textSize, this`dataSize, this`currentAddress, this`fixupCount, text, data, slots
      ensures Shaped() && Does(old(Now()), Now(), EncodeUnary(u, o), status)
    {
      hide Form, Grown, Room;
      if o.Reg? || o.Memory? {
        status := EmitForm([], RmSize(o) == R64, None, o, [if u.Inc? || u.Dec? then 0xFF else 0xF7], UnaryCode(u), []);
      } else {
        status := Fail;
      }
    }

    /** encode_lea */
    method EncodeLeaInst(dst: Operand, src: Operand) returns (status: Status)
      requires Shaped()
      modifies this`textSize, this`dataSize, this`currentAddress, this`fixupCount, text, data, slots
      ensures Shaped() && Does(old(Now()), Now(), EncodeLea(dst, src), status)
    {
      hide Form, Grown, Room;
      if !dst.Reg? || !src.Memory? || dst.size == R8 || dst.size == R8H {
        return Fail;
      }
      status := EmitForm(if dst.size == R16 then [0x66] else [], dst.size == R64, Some(dst), src, [0x8D], dst.reg, []);
    }

    /** encode_test */
    method EncodeTestInst(a: Operand, b: Operand) returns (status: Status)
      requires Shaped()
      modifies this`textSize, this`dataSize, this`currentAddress, this`fixupCount, text, data, slots
      ensures Shaped() && Does(old(Now()), Now(), EncodeTest(a, b), status)
    {
      hide Form, Le, Rex, RexConflict, Grown, Room;
      if RexConflict(a, b) {
        return Fail;
      }
      if (a.Reg? || a.Memory?) && b.Imm? {
        var size := RmSize(a);
        if a.Reg? && a.reg == 0 && size != R8 {
          status := EmitRexBytes(size == R64, None, [0xA9] + Le(b.value, 4));
          assert Rex(size == R64, None, None) + ([0xA9] + Le(b.value, 4))
            == Rex(size == R64, None, None) + [0xA9] + Le(b.value, 4);
        } else if size == R8 {
          status := EmitForm([], false, None, a, [0xF6], 0, [b.value % 256]);
        } else {
          status := EmitForm([], size == R64, None, a, [0xF7], 0, Le(b.value, 4));
        }
      } else if b.Reg? {
        status := EmitForm([], b.size == R64, Some(b), a, [0x85], b.reg, []);
      } else {
        status := Fail;
      }
    }

    /** encode_imul */
    method EncodeImulInst(os: seq<Operand>) returns (status: Status)
      requires Shaped()
      modifies this`textSize, this`dataSize, this`currentAddress, this`fixupCount, text, data, slots
      ensures Shaped() && Does(old(Now()), Now(), EncodeImul(os), status)
    {
      hide Form, Le, ToInt32, Grown, Room;
      if |os| == 1 {
        status := EmitForm([], RmSize(os[0]) == R64, None, os[0], [0xF7], 5, []);
      } else if |os| == 2 && os[0].Reg? {
        status := EmitForm([], os[0].size == R64, Some(os[0]), os[1], [0x0F, 0xAF], os[0].reg, []);
      } else if |os| == 3 && os[0].Reg? && os[2].Imm? {
        if FitsInt8(ToInt32(os[2].value)) {
          status := EmitForm([], os[0].size == R64, Some(os[0]), os[1], [0x6B], os[0].reg, [os[2].value % 256]);
        } else {
          status := EmitForm([], os[0].size == R64, Some(os[0]), os[1], [0x69], os[0].reg, Le(os[2].value, 4));
        }
      } else {
        status := Fail;
      }
    }

    /** encode_cmov */
    method EncodeCmovInst(c: Cond, dst: Operand, src: Operand) returns (status: Status)
      requires Shaped()
      modifies this`textSize, this`dataSize, this`currentAddress, this`fixupCount, text, data, slots
      ensures Shaped() && Does(old(Now()), Now(), EncodeCmov(c, dst, src), status)
    {
      hide Form, Grown, Room;
      if !dst.Reg? || !(src.Reg? || src.Memory?) {
        return Fail;
      }
      if dst.size == R8 || dst.size == R8H || dst.size == Xmm {
        return Fail;
      }
      if src.Reg? && src.size != dst.size {
        return Fail;
      }
      status := EmitForm(if dst.size == R16 then [0x66] else [], dst.size == R64, Some(dst), src,
                         [0x0F, 0x40 + CondCode(c)], dst.reg, []);
    }

    /** encode_setcc */
    method EncodeSetCcInst(c: Cond, o: Operand) returns (status: Status)
      requires Shaped()
      modifies this`textSize, this`dataSize, this`currentAddress, this`fixupCount, text, data, slots
      ensures Shaped() && Does(old(Now()), Now(), EncodeSetCc(c, o), status)
    {
      hide Form, Grown, Room;
      if !(o.Reg? || o.Memory?) || (o.Reg? && o.size != R8 && o.size != R8H) {
        return Fail;
      }
      status := EmitForm([], false, None, o, [0x0F, 0x90 + CondCode(c)], 0, []);
    }

    /** encode_bit_manip */
    method EncodeBitsInst(b: BitOp, dst: Operand, src: Operand) returns (status: Status)
      requires Shaped()
      modifies this`textSize, this`dataSize, this`currentAddress, this`fixupCount, text, data, slots
      ensures Shaped() && Does(old(Now()), Now(), EncodeBits(b, dst, src), status)
    {
      hide Form, Grown, Room;
      var w := RmSize(dst) == R64;
      if src.Imm? {
        status := EmitForm([], w, None, dst, [0x0F, 0xBA], BitCode(b), [src.value % 256]);
      } else if src.Reg? && src.reg == 1 {
        status := EmitForm([], w, Some(src), dst, [0x0F, 0xA3 + (BitCode(b) - 4) * 8], src.reg, []);
      } else {
        status := Fail;
      }
    }

    /** encode_bit_scan */
    method EncodeScanInst(forward: bool, dst: Operand, src: Operand) returns (status: Status)
      requires Shaped()
      modifies this`textSize, this`dataSize, this`currentAddress, this`fixupCount, text, data, slots
      ensures Shaped() && Does(old(Now()), Now(), EncodeScan(forward, dst, src), status)
    {
      hide Form, Grown, Room;
      if !dst.Reg? {
        return Fail;
      }
      status := EmitForm([], dst.size == R64, Some(dst), src, [0x0F, if forward then 0xBC else 0xBD], dst.reg, []);
    }

    // ---- branches ----

    /** What a branch encoder sees of the context. */
    ghost function Seen(): Env
      requires Valid()
      reads this, table
    {
      Env(currentAddress, L.Addresses(table.Model()), forwardShort)
    }

    /** The short displacement of encode_jmp and encode_jcc, when the label is known and near enough. */
    method ShortDisplacement(lbl: string) returns (d: Option<int>)
      requires Valid()
      ensures d == ShortDisp(Seen(), lbl)
    {
      hide L.Addresses, Symbols.Consistent, Symbols.AsMap, Symbols.Known;
      AddressOf(table.Model(), lbl);
      var sym := table.Info(lbl);
      if sym.Some? && (forwardShort || sym.value.address < currentAddress) {
        var rel := sym.value.address - (currentAddress + 2);
        if FitsInt8(rel) {
          return Some(rel);
        }
      }
      return None;
    }

    /** encode_jmp */
    method EncodeJmpInst(o: Operand) returns (status: Status)
      requires Valid()
      modifies this`textSize, this`dataSize, this`currentAddress, this`fixupCount, text, data, slots
      ensures Shaped() && Does(old(Now()), Now(), EncodeJmp(o, old(Seen())), status)
    {
      hide Form, Le, Grown, Room, ShortDisp;
      match o
      case Label(lbl) =>
        var d := ShortDisplacement(lbl);
        if d.Some? {
          status := EmitBytes([0xEB, d.value % 256]);
        } else {
          status := EmitField([0xE9], lbl, true, true, 0);
        }
      case Imm(_) =>
        status := Fail;
      case _ =>
        status := EmitForm([], true, None, o, [0xFF], 4, []);
    }

    /** encode_jcc */
    method EncodeJccInst(c: Cond, o: Operand) returns (status: Status)
      requires Valid()
      modifies this`textSize, this`dataSize, this`currentAddress, this`fixupCount, text, data, slots
      ensures Shaped() && Does(old(Now()), Now(), EncodeJcc(c, o, old(Seen())), status)
    {
      hide Form, Le, Grown, Room, ShortDisp;
      if !o.Label? {
        return Fail;
      }
      var d := ShortDisplacement(o.name);
      if d.Some? {
        status := EmitBytes([0x70 + CondCode(c), d.value % 256]);
      } else {
        status := EmitField([0x0F, 0x80 + CondCode(c)], o.name, true, true, 0);
      }
    }

    /** encode_call_ret, call */
    method EncodeCallInst(o: Operand) returns (status: Status)
      requires Shaped()
      modifies this`textSize, this`dataSize, this`currentAddress, this`fixupCount, text, data, slots
      ensures Shaped() && Does(old(Now()), Now(), EncodeCall(o), status)
    {
      hide Form, Le, Grown, Room;
      match o
      case Label(lbl) =>
        status := EmitField([0xE8], lbl, true, true, 0);
      case Imm(_) =>
        status := Fail;
      case _ =>
        status := EmitForm([], true, None, o, [0xFF], 2, []);
    }

    /** encode_call_ret, ret */
    method EncodeRetInst(os: seq<Operand>) returns (status: Status)
      requires Shaped()
      modifies this`textSize, this`dataSize, this`currentAddress, text, data
      ensures Shaped() && Does(old(Now()), Now(), EncodeRet(os), status)
    {
      hide Le, Grown, Room;
      if |os| == 0 {
        status := EmitByte(0xC3);
      } else if |os| == 1 && os[0].Imm? {
        status := EmitBytes([0xC2] + Le(os[0].value, 2));
      } else {
        status := Fail;
      }
    }

    // ---- instructions and directives ----

    /** The part of the switch for mnemonics that take two operands. */
    method EncodePair(i: Instruction) returns (status: Status)
      requires Valid() && |i.operands| == 2
      requires i.op.Mov? || i.op.Movzx? || i.op.Movsx? || i.op.Lea? || i.op.Alu? || i.op.Test?
      modifies this`textSize, this`dataSize, this`currentAddress, this`fixupCount, text, data, slots
      ensures Shaped() && Does(old(Now()), Now(), Dispatch(i, old(Seen())), status)
    {
      hide Does, EncodeMov, EncodeLea, EncodeAlu, EncodeTest, Now, Seen;
      var a, b := i.operands[0], i.operands[1];
      match i.op
      case Lea => status := EncodeLeaInst(a, b);
      case Alu(op) => status := EncodeAluInst(op, a, b);
      case Test => status := EncodeTestInst(a, b);
      case Mov | Movzx | Movsx => status := EncodeMovInst(a, b);
    }

    /** The same for the mnemonics behind the escape byte. */
    method EncodeEscapePair(i: Instruction) returns (status: Status)
      requires Valid() && |i.operands| == 2
      requires i.op.Cmov? || i.op.Bits? || i.op.Bsf? || i.op.Bsr?
      modifies this`textSize, this`dataSize, this`currentAddress, this`fixupCount, text, data, slots
      ensures Shaped() && Does(old(Now()), Now(), Dispatch(i, old(Seen())), status)
    {
      hide Does, EncodeCmov, EncodeBits, EncodeScan, Now, Seen;
      var a, b := i.operands[0], i.operands[1];
      match i.op
      case Cmov(c) => status := EncodeCmovInst(c, a, b);
      case Bits(op) => status := EncodeBitsInst(op, a, b);
      case Bsf => status := EncodeScanInst(true, a, b);
      case Bsr => status := EncodeScanInst(false, a, b);
    }

    /** The part of the switch for mnemonics that take one operand. */
    method EncodeSingle(i: Instruction) returns (status: Status)
      requires Valid() && |i.operands| == 1
      requires i.op.Push? || i.op.Pop? || i.op.Unary? || i.op.SetCc?
      modifies this`textSize, this`dataSize, this`currentAddress, this`fixupCount, text, data, slots
      ensures Shaped() && Does(old(Now()), Now(), Dispatch(i, old(Seen())), status)
    {
      hide Does, EncodePushPop, EncodeUnary, EncodeSetCc;
      var o := i.operands[0];
      match i.op
      case Push => status := EncodePushPopInst(true, o);
      case Pop => status := EncodePushPopInst(false, o);
      case Unary(u) => status := EncodeUnaryInst(u, o);
      case SetCc(c) => status := EncodeSetCcInst(c, o);
    }

    /** The same for the branches. */
    method EncodeBranch(i: Instruction) returns (status: Status)
      requires Valid() && |i.operands| == 1 && (i.op.Jmp? || i.op.Jcc? || i.op.Jnz? || i.op.Call?)
      modifies this`textSize, this`dataSize, this`currentAddress, this`fixupCount, text, data, slots
      ensures Shaped() && Does(old(Now()), Now(), Dispatch(i, old(Seen())), status)
    {
      hide Does, EncodeJmp, EncodeJcc, EncodeCall, Now, Seen;
      var o := i.operands[0];
      match i.op
      case Jmp => status := EncodeJmpInst(o);
      case Jcc(c) => status := EncodeJccInst(c, o);
      case Jnz => status := EncodeJccInst(NE, o);
      case Call => status := EncodeCallInst(o);
    }

    /** The switch of encode_instruction for the modelled mnemonics. */
    method EncodeDispatch(i: Instruction) returns (status: Status)
      requires Valid()
      modifies this`textSize, this`dataSize, this`currentAddress, this`fixupCount, text, data, slots
      ensures Shaped() && Does(old(Now()), Now(), Dispatch(i, old(Seen())), status)
    {
      hide Does, EncodeMov, EncodePushPop, EncodeLea, EncodeAlu, EncodeUnary, EncodeTest, EncodeImul, EncodeCmov;
      hide EncodeSetCc, EncodeBits, EncodeScan, EncodeJmp, EncodeJcc, EncodeCall, EncodeRet;
      NoEmission(Now());
      status := Fail;
      match i.op
      case Mov | Movzx | Movsx | Lea | Alu(_) | Test =>
        if |i.operands| == 2 {
          status := EncodePair(i);
        }
      case Cmov(_) | Bits(_) | Bsf | Bsr =>
        if |i.operands| == 2 {
          status := EncodeEscapePair(i);
        }
      case Push | Pop | Unary(_) | SetCc(_) =>
        if |i.operands| == 1 {
          status := EncodeSingle(i);
        }
      case Jmp | Jcc(_) | Jnz | Call =>
        if |i.operands| == 1 {
          status := EncodeBranch(i);
        }
      case Imul => status := EncodeImulInst(i.operands);
      case Ret => status := EncodeRetInst(i.operands);
      case Syscall => status := EmitBytes([0x0F, 0x05]);
      case Nop =>
        if |i.operands| == 0 {
          status := EmitByte(0x90);
        }
      case Leave => status := EmitByte(0xC9);
      case _ =>
    }

    /**
     * encode_instruction: the segment overrides are collected first, then the prefix and the instruction are
     * emitted.
     */
    method EncodeInstruction(i: Instruction) returns (status: Status)
      requires Valid()
      modifies this`textSize, this`dataSize, this`currentAddress, this`fixupCount, text, data, slots
      ensures Shaped() && Does(old(Now()), Now(), Encode(i, old(Seen())), status)
    {
      hide Dispatch, Does, Cat;
      var segment := Default;
      assert i.operands[..0] == [];
      for k := 0 to |i.operands|
        invariant SegmentOf(i.operands[..k]) == Some(segment)
      {
        assert i.operands[..k + 1][..k] == i.operands[..k];
        var o := i.operands[k];
        if o.Memory? && o.mem.segment != Default {
          if segment != Default && segment != o.mem.segment {
            SegmentFails(i.operands, k + 1);
            NoEmission(Now());
            return Fail;
          }
          segment := o.mem.segment;
        }
      }
      assert i.operands[..|i.operands|] == i.operands;
      ghost var before, seen, prefix := Now(), Seen(), SegmentPrefix(segment);
      status := Pass;
      DoesNothing(before);
      if segment == Fs {
        status := EmitByte(0x64);
      } else if segment == Gs {
        status := EmitByte(0x65);
      }
      ghost var now := Now();
      ghost var e := Dispatch(i, seen.(at := seen.at + |prefix|));
      CatEncode(i, seen, segment);
      if status.Fail? {
        CatFails(before, now, Some(Plain(prefix)), e);
        return;
      }
      GrownAt(before, now, prefix);
      status := EncodeDispatch(i);
      CatDoes(before, now, Now(), Some(Plain(prefix)), e, status);
    }

    /** A directive emits its bytes as far as they fit; only a bad alignment fails. */
    method EmitDirective(b: L.Body) returns (status: Status)
      requires Shaped() && !b.Inst? && !b.Section? && currentSection <= 1
      modifies this`textSize, this`dataSize, this`currentAddress, text, data
      ensures Shaped()
      ensures var bytes := L.DirectiveBytes(b, old(currentAddress), if currentSection == 0 then 0x90 else 0);
        && (status.Pass? <==> bytes.Some?)
        && (status.Pass? ==> Now() == Grown(old(Now()), Plain(L.Fitting(bytes.value, Room(old(Now()))))))
    {
      hide L.AlignUp, L.PowerOfTwo, L.Items, L.Fitting, ToInt32, Le, Grown;
      match b {
        case Align(n) =>
          var alignment := ToInt32(n);
          if !L.PowerOfTwo(alignment) {
            return Fail;
          }
          PowerPositive(alignment);
          L.AlignLeast(currentAddress, alignment);
          var padding: nat := L.AlignUp(currentAddress, alignment) - currentAddress;
          EmitQuietly(L.Repeat(if currentSection == 0 then 0x90 else 0, padding));
        case Data(width, items) =>
          EmitItems(width, items);
        case Reserve(width, count) =>
          if count >= 0 {
            CountTimes(count, width);
            EmitQuietly(L.Repeat(0, count * width));
          } else {
            GrownNothing(Now());
          }
      }
      return Pass;
    }

    /** The loop over the items of a data directive. */
    method EmitItems(width: nat, items: seq<int>)
      requires Shaped()
      modifies this`textSize, this`dataSize, this`currentAddress, text, data
      ensures Shaped() && currentSection == old(currentSection)
      ensures Now() == Grown(old(Now()), Plain(L.Fitting(L.Items(width, items), Room(old(Now())))))
    {
      hide L.Fitting, Le, Grown;
      ghost var before := Now();
      assert items[..0] == [];
      GrownNothing(before);
      for k := 0 to |items|
        invariant Shaped() && currentSection == old(currentSection)
        invariant Now() == Grown(before, Plain(L.Fitting(L.Items(width, items[..k]), Room(before))))
      {
        assert items[..k + 1][..k] == items[..k];
        ghost var now := Now();
        FittingCat(L.Items(width, items[..k]), Le(items[k], width), Room(before));
        EmitQuietly(Le(items[k], width));
        GrownTwice(before, now, L.Fitting(L.Items(width, items[..k]), Room(before)),
                   L.Fitting(Le(items[k], width), Room(now)));
      }
      assert items[..|items|] == items;
    }
  }

  lemma {:induction false} SegmentFails(os: seq<Operand>, k: nat)
    requires k <= |os| && SegmentOf(os[..k]).None?
    ensures SegmentOf(os).None?
    decreases |os| - k
  {
    if k < |os| {
      assert os[..k + 1][..k] == os[..k];
      SegmentFails(os, k + 1);
    } else {
      assert os[..k] == os;
    }
  }

  lemma CatEncode(i: Instruction, env: Env, segment: Segment)
    requires SegmentOf(i.operands) == Some(segment)
    ensures Encode(i, env)
         == Cat(Some(Plain(SegmentPrefix(segment))), Dispatch(i, env.(at := env.at + |SegmentPrefix(segment)|)))
  {
    hide Dispatch;
  }

  lemma GrownAt(a: Out, b: Out, s: seq<byte>)
    requires Does(a, b, Some(Plain(s)), Pass)
    ensures b.at == a.at + |s|
  {
  }

  lemma GrownNothing(a: Out)
    ensures Grown(a, Plain(L.Fitting([], Room(a)))) == a
  {
    assert a.text + [] == a.text && a.data + [] == a.data && a.fixups + [] == a.fixups;
  }

  lemma GrownTwice(a: Out, b: Out, s: seq<byte>, t: seq<byte>)
    requires b == Grown(a, Plain(s))
    ensures Grown(b, Plain(t)) == Grown(a, Plain(s + t))
    ensures Room(b) == Room(a) - |s|
  {
    assert (a.text + s) + t == a.text + (s + t) && (a.data + s) + t == a.data + (s + t);
  }

  lemma PowerPositive(n: int)
    requires L.PowerOfTwo(n)
    ensures n > 0
  {
  }

  lemma CountTimes(count: int, width: nat)
    requires count >= 0
    ensures count * width >= 0
  {
  }

  lemma AddressOf(m: map<string, Symbols.Sym>, lbl: string)
    ensures lbl in L.Addresses(m) <==> lbl in m
    ensures lbl in m ==> L.Addresses(m)[lbl] == m[lbl].address
  {
  }

  lemma NoEmission(a: Out)
    ensures Does(a, a, None, Fail)
  {
  }

  lemma SameModRm(mod: int, reg: int, rm: int)
    ensures MakeModRm(mod, reg, rm % 8) == MakeModRm(mod, reg, rm)
  {
  }
}
