// asm_assemble over the context: the text passes in two modes, the data pass, and the in-place
// resolution of fixups, each proved to follow its specification.

module Assembler {
  import opened Bytes
  import opened Operands
  import opened Encoding
  import opened Context
  import Symbols
  import L = Layout
  import F = Fixups
  import Assembly

  type Statement = L.Statement

  // ---- the text pass ----

  /** The context holds what the pass has done so far. */
  ghost predicate Holds(ctx: AssemblerContext, st: L.PassState)
    requires ctx.Shaped()
    reads ctx, ctx.text, ctx.data, ctx.slots, ctx.table
  {
    && ctx.Now() == Out(st.inData, L.Text(st.chunks), ctx.data[..ctx.dataSize], L.Fixups(st.chunks),
                        L.BASE + |L.Text(st.chunks)|)
    && ctx.table.Model() == st.symbols && ctx.currentSection <= 1
    && ctx.lineMap == L.LineMap(st.chunks)
  }

  lemma RunFails(prog: seq<Statement>, j: nat, n: nat, forward: bool, symbols: map<string, Symbols.Sym>)
    requires j <= n <= |prog| && L.Run(prog, j, forward, symbols).None?
    ensures L.Run(prog, n, forward, symbols).None?
  {
    if L.Run(prog, n, forward, symbols).Some? {
      L.RunMonotone(prog, j, n, forward, symbols);
    }
  }

  lemma RunNext(prog: seq<Statement>, n: nat, forward: bool, symbols: map<string, Symbols.Sym>, st: L.PassState)
    requires n < |prog| && L.Run(prog, n, forward, symbols) == Some(st)
    ensures L.Run(prog, n + 1, forward, symbols) == L.Step(prog[n], forward, st)
  {
    hide L.Step;
  }

  lemma LineMapAppend(cs: seq<L.Chunk>, c: L.Chunk)
    ensures L.LineMap(cs + [c])
         == if L.LabelOnly(c.stmt) || |L.LineMap(cs)| >= L.MAX_LINE_MAP then L.LineMap(cs)
            else L.LineMap(cs) + [(c.at, if c.stmt.line > 0 then c.stmt.line else 1)]
  {
    assert (cs + [c])[..|cs|] == cs;
  }

  /** The address of a moved label. */
  lemma StepEmits(s: Statement, forward: bool, st: L.PassState, symbols: map<string, Symbols.Sym>, e: Option<Emission>)
    requires !s.body.Section? && !st.inData
    requires symbols == if s.lbl == "" then st.symbols else Symbols.Moved(st.symbols, s.lbl, L.Here(st))
    requires e == L.Emitted(s, Env(L.Here(st), L.Addresses(symbols), forward), L.CAPACITY - |L.Text(st.chunks)|)
    ensures L.Step(s, forward, st)
         == if e.None? || (e.value.field.Some? && |L.Fixups(st.chunks)| >= Symbols.MAX_SYMBOLS) then None
            else Some(L.PassState(false, symbols, st.chunks + [L.Chunk(L.Here(st), s, e.value)],
                                  st.changed || (s.lbl != "" && s.lbl in st.symbols
                                                 && st.symbols[s.lbl].address != L.Here(st))))
  {
    hide L.Emitted, L.Text, L.Fixups, L.Addresses;
  }

  /** encode_instruction on any statement but a section directive or a lone label. */
  method EmitStatement(ctx: AssemblerContext, s: Statement) returns (status: Status)
    requires ctx.Valid() && ctx.currentSection == 0 && !s.body.Section? && !L.LabelOnly(s)
    modifies ctx`textSize, ctx`dataSize, ctx`currentAddress, ctx`fixupCount, ctx.text, ctx.data, ctx.slots
    ensures ctx.Shaped()
    ensures Does(old(ctx.Now()), ctx.Now(), L.Emitted(s, old(ctx.Seen()), Room(old(ctx.Now()))), status)
  {
    hide L.DirectiveBytes, Encode, Grown;
    if s.body.Inst? {
      status := ctx.EncodeInstruction(s.body.inst);
    } else {
      status := ctx.EmitDirective(s.body);
      hide L.Fitting;
      var room := Room(old(ctx.Now()));
      forall bytes: seq<byte>
        ensures |L.Fitting(bytes, room)| <= room
      {
        FittingRoom(bytes, room);
      }
    }
  }

  lemma FittingRoom(s: seq<byte>, room: int)
    requires room >= 0
    ensures |L.Fitting(s, room)| <= room
  {
  }

  lemma SkipStep(s: Statement, forward: bool, st: L.PassState)
    requires s.body.Section? || st.inData
    ensures L.Step(s, forward, st) == Some(if s.body.Section? then st.(inData := s.body.isData) else st)
  {
  }

  /** The emission of one statement, as a chunk of the pass. */
  lemma ChunkHolds(cs: seq<L.Chunk>, before: Out, after: Out, c: L.Chunk)
    requires !before.inData && before.text == L.Text(cs) && before.fixups == L.Fixups(cs)
      && before.at == L.BASE + |L.Text(cs)|
    requires c.at == before.at && after == Grown(before, c.e)
    ensures after == Out(false, L.Text(cs + [c]), before.data, L.Fixups(cs + [c]), L.BASE + |L.Text(cs + [c])|)
  {
    hide L.Text, L.Fixups;
    L.TextAppend(cs, c);
  }

  lemma LabelEmitsNothing(s: Statement, env: Env, room: int, before: Out)
    requires L.LabelOnly(s)
    ensures L.Emitted(s, env, room) == Some(Plain([])) && Grown(before, Plain([])) == before
  {
    assert before.text + [] == before.text && before.data + [] == before.data && before.fixups + [] == before.fixups;
  }

  lemma DoesGrow(a: Out, b: Out, e: Option<Emission>, s: Status)
    requires Does(a, b, e, s)
    ensures s.Pass? <==> CanTake(a, e)
    ensures s.Pass? ==> e.Some? && b == Grown(a, e.value)
  {
  }

  lemma EmittedFits(s: Statement, env: Env, room: int)
    requires room >= 0
    ensures var e := L.Emitted(s, env, room); e.Some? ==> |e.value.bytes| <= room
  {
    L.EmittedInside(s, env, room);
  }

  /** The part of the context a pass fills. */
  ghost function Laid(cs: seq<L.Chunk>, data: seq<byte>): Out {
    Out(false, L.Text(cs), data, L.Fixups(cs), L.BASE + |L.Text(cs)|)
  }

  /** Encoding one statement makes one chunk of the pass, or fails with the step. */
  method EmitChunk(ctx: AssemblerContext, s: Statement, ghost cs: seq<L.Chunk>, ghost data: seq<byte>)
    returns (status: Status)
    requires ctx.Valid() && ctx.currentSection == 0 && !s.body.Section?
    requires ctx.Now() == Laid(cs, data)
    modifies ctx`textSize, ctx`dataSize, ctx`currentAddress, ctx`fixupCount, ctx`lineMap, ctx.text, ctx.data, ctx.slots
    ensures ctx.Shaped()
    ensures var e := L.Emitted(s, old(ctx.Seen()), L.CAPACITY - |L.Text(cs)|);
      if e.None? || (e.value.field.Some? && |L.Fixups(cs)| >= Symbols.MAX_SYMBOLS) then status.Fail?
      else
        var c := L.Chunk(L.BASE + |L.Text(cs)|, s, e.value);
        && status.Pass? && ctx.Now() == Laid(cs + [c], data)
        && (old(ctx.lineMap) == L.LineMap(cs) ==> ctx.lineMap == L.LineMap(cs + [c]))
  {
    hide L.Emitted, L.Text, L.Fixups, L.Addresses, L.LineMap, Symbols.Consistent, Symbols.AsMap, Does, Grown;
    ghost var before, seen, room := ctx.Now(), ctx.Seen(), L.CAPACITY - |L.Text(cs)|;
    ghost var e := L.Emitted(s, seen, room);
    ghost var c := L.Chunk(before.at, s, if e.Some? then e.value else Plain([]));
    LineMapAppend(cs, c);
    if L.LabelOnly(s) {
      LabelEmitsNothing(s, seen, room, before);
      ChunkHolds(cs, before, ctx.Now(), c);
      return Pass;
    }
    if |ctx.lineMap| < L.MAX_LINE_MAP {
      ctx.lineMap := ctx.lineMap + [(ctx.currentAddress, if s.line > 0 then s.line else 1)];
    }
    assert ctx.Recorded() == before.fixups && ctx.Now() == before;
    status := EmitStatement(ctx, s);
    DoesGrow(before, ctx.Now(), e, status);
    EmittedFits(s, seen, room);
    if status.Pass? {
      ChunkHolds(cs, before, ctx.Now(), c);
    }
  }

  /** One round of the text-pass loop. */
  method TextStep(ctx: AssemblerContext, s: Statement, ghost st: L.PassState) returns (status: Status, moved: bool)
    requires ctx.Valid() && Holds(ctx, st)
    modifies ctx, ctx.text, ctx.data, ctx.slots, ctx.table
    ensures ctx.Valid() && ctx.forwardShort == old(ctx.forwardShort)
    ensures match L.Step(s, old(ctx.forwardShort), st)
      case None => status.Fail?
      case Some(next) => status.Pass? && Holds(ctx, next) && next.changed == (st.changed || moved)
  {
    hide L.Emitted, L.Text, L.Fixups, L.Addresses, L.LineMap, Symbols.Consistent, Symbols.AsMap, L.Step;
    status, moved := Pass, false;
    if s.body.Section? || ctx.currentSection == 1 {
      SkipStep(s, ctx.forwardShort, st);
    }
    if s.body.Section? {
      ctx.currentSection := if s.body.isData then 1 else 0;
      assert ctx.Recorded() == old(ctx.Recorded());
      return;
    }
    if ctx.currentSection == 1 {
      return;
    }
    if s.lbl != "" {
      moved := ctx.table.MoveLabel(s.lbl, ctx.currentAddress);
    }
    StepEmits(s, ctx.forwardShort, st, ctx.table.Model(), L.Emitted(s, ctx.Seen(), L.CAPACITY - |L.Text(st.chunks)|));
    status := EmitChunk(ctx, s, st.chunks, ctx.data[..ctx.dataSize]);
  }

  /**
   * One iteration of the text-pass loop in asm_assemble: everything a pass counts is reset, and the statements
   * are encoded in turn.
   */
  method TextPass(ctx: AssemblerContext, prog: seq<Statement>)
    returns (status: Status, changed: bool, ghost st: L.PassState)
    requires ctx.Valid()
    modifies ctx, ctx.text, ctx.data, ctx.slots, ctx.table
    ensures ctx.Valid() && ctx.forwardShort == old(ctx.forwardShort)
    ensures match L.Pass(prog, old(ctx.forwardShort), old(ctx.table.Model()))
      case None => status.Fail?
      case Some(after) => status.Pass? && st == after && Holds(ctx, st) && changed == st.changed
  {
    hide L.Run, L.Step, Symbols.Consistent, Symbols.AsMap;
    ctx.currentAddress, ctx.currentSection, ctx.textSize, ctx.fixupCount, ctx.lineMap := L.BASE, 0, 0, 0, [];
    ghost var symbols := ctx.table.Model();
    st := L.PassState(false, symbols, [], false);
    RunStart(prog, ctx.forwardShort, symbols);
    EmptyHolds(ctx, symbols);
    changed := false;
    for i := 0 to |prog|
      invariant ctx.Valid() && ctx.forwardShort == old(ctx.forwardShort)
      invariant L.Run(prog, i, old(ctx.forwardShort), symbols) == Some(st)
      invariant Holds(ctx, st) && changed == st.changed
    {
      hide Holds;
      RunNext(prog, i, ctx.forwardShort, symbols, st);
      var moved;
      status, moved := TextStep(ctx, prog[i], st);
      if status.Fail? {
        RunFails(prog, i + 1, |prog|, ctx.forwardShort, symbols);
        return;
      }
      st := L.Step(prog[i], ctx.forwardShort, st).value;
      changed := changed || moved;
    }
    status := Pass;
  }

  lemma RunStart(prog: seq<Statement>, forward: bool, symbols: map<string, Symbols.Sym>)
    ensures L.Run(prog, 0, forward, symbols) == Some(L.PassState(false, symbols, [], false))
  {
  }

  lemma EmptyHolds(ctx: AssemblerContext, symbols: map<string, Symbols.Sym>)
    requires ctx.Shaped() && ctx.textSize == 0 && ctx.fixupCount == 0 && ctx.lineMap == [] && ctx.currentSection == 0
    requires ctx.currentAddress == L.BASE && ctx.table.Model() == symbols
    ensures Holds(ctx, L.PassState(false, symbols, [], false))
  {
    assert ctx.Recorded() == [];
  }

  // ---- fixups ----

  /** What the method reads of a slot agrees with the fixup it stands for. */
  method ReadAddend(ctx: AssemblerContext, offset: nat, size: nat) returns (v: int)
    requires ctx.Shaped() && offset + size <= ctx.textSize
    ensures v == Signed(ctx.text[..ctx.textSize][offset..offset + size])
  {
    v := Signed(ctx.text[offset..offset + size]);
    assert ctx.text[..ctx.textSize][offset..offset + size] == ctx.text[offset..offset + size];
  }

  /** Patching a field: the bytes of the value are written one by one. */
  method WriteField(ctx: AssemblerContext, offset: nat, size: nat, v: int)
    requires ctx.Shaped() && offset + size <= ctx.textSize
    modifies ctx.text
    ensures ctx.text[..ctx.textSize] == F.Patch(old(ctx.text[..ctx.textSize]), offset, Le(v, size))
  {
    ghost var before := ctx.text[..ctx.textSize];
    var bytes := Le(v, size);
    for k := 0 to size
      invariant forall p :: 0 <= p < ctx.textSize ==>
        ctx.text[p] == if offset <= p < offset + k then bytes[p - offset] else before[p]
    {
      ctx.text[offset + k] := bytes[k];
    }
  }

  /** One round of resolve_fixups. */
  method ResolveSlot(ctx: AssemblerContext, i: nat) returns (status: Status)
    requires ctx.Valid() && i < ctx.fixupCount
    modifies ctx.text
    ensures match F.ResolveOne(old(ctx.text[..ctx.textSize]), AsFixup(ctx.slots[i]), L.Addresses(ctx.table.Model()))
      case None => status.Fail?
      case Some(after) => status.Pass? && ctx.text[..ctx.textSize] == after
  {
    hide Le, Signed, L.Addresses, Symbols.Consistent, Symbols.AsMap, F.Patch;
    var f := ctx.slots[i];
    AddressOf(ctx.table.Model(), f.lbl);
    var sym := ctx.table.Info(f.lbl);
    if sym.None? {
      return Fail;
    }
    var target := sym.value.address;
    var value := target;
    if f.ripRelative {
      value := target - (f.location + f.size);
    } else if f.branch {
      value := target - (f.location + f.size);
    }
    var offset := f.location - L.BASE;
    if offset < 0 || offset + f.size > ctx.textSize {
      return Fail;
    }
    if f.size == 1 || f.size == 4 || f.size == 8 {
      var addend := ReadAddend(ctx, offset, f.size);
      value := value + addend;
    }
    if (f.size == 1 && !FitsInt8(value)) || (f.size == 4 && !FitsInt32(value)) {
      return Fail;
    }
    if f.size == 1 || f.size == 4 || f.size == 8 {
      WriteField(ctx, offset, f.size, value);
    }
    return Pass;
  }

  lemma ResolveNext(text: seq<byte>, fs: seq<L.Fixup>, i: nat, addresses: map<string, int>)
    requires i < |fs|
    ensures F.Resolve(text, fs[..i + 1], addresses)
         == match F.Resolve(text, fs[..i], addresses)
            case None => None
            case Some(t) => F.ResolveOne(t, fs[i], addresses)
  {
    hide F.ResolveOne;
    assert fs[..i + 1][..i] == fs[..i];
  }

  lemma {:induction false} ResolveFails(text: seq<byte>, fs: seq<L.Fixup>, i: nat, addresses: map<string, int>)
    requires i <= |fs| && F.Resolve(text, fs[..i], addresses).None?
    ensures F.Resolve(text, fs, addresses).None?
    decreases |fs| - i
  {
    if i < |fs| {
      ResolveNext(text, fs, i, addresses);
      ResolveFails(text, fs, i + 1, addresses);
    } else {
      assert fs[..i] == fs;
    }
  }

  /** resolve_fixups: the text section is patched in place, field by field, and resolution stops at the first error. */
  method ResolveFixups(ctx: AssemblerContext) returns (status: Status)
    requires ctx.Valid()
    modifies ctx.text
    ensures match F.Resolve(old(ctx.text[..ctx.textSize]), old(ctx.Recorded()), L.Addresses(ctx.table.Model()))
      case None => status.Fail?
      case Some(after) => status.Pass? && ctx.text[..ctx.textSize] == after
  {
    hide F.ResolveOne, F.Resolve, L.Addresses, Symbols.Consistent, Symbols.AsMap;
    ghost var text, fs, addresses := ctx.text[..ctx.textSize], ctx.Recorded(), L.Addresses(ctx.table.Model());
    ResolveStart(text, fs, addresses);
    for i := 0 to ctx.fixupCount
      invariant F.Resolve(text, fs[..i], addresses) == Some(ctx.text[..ctx.textSize])
    {
      ResolveNext(text, fs, i, addresses);
      status := ResolveSlot(ctx, i);
      if status.Fail? {
        ResolveFails(text, fs, i + 1, addresses);
        return;
      }
    }
    assert fs[..|fs|] == fs;
    return Pass;
  }

  lemma ResolveStart(text: seq<byte>, fs: seq<L.Fixup>, addresses: map<string, int>)
    ensures F.Resolve(text, fs[..0], addresses) == Some(text)
  {
  }

  // ---- the data pass ----

  ghost predicate HoldsData(ctx: AssemblerContext, text: seq<byte>, fixups: seq<L.Fixup>, st: Assembly.DataState)
    requires ctx.Shaped()
    reads ctx, ctx.text, ctx.data, ctx.slots, ctx.table
  {
    && ctx.Now() == Out(st.inData, text, st.data, fixups, L.BASE + |text| + |st.data|)
    && ctx.table.Model() == st.symbols && ctx.currentSection <= 1
  }

  /** One round of the data-pass loop. */
  method DataStep(ctx: AssemblerContext, s: Statement, ghost text: seq<byte>, ghost fixups: seq<L.Fixup>,
                  ghost st: Assembly.DataState)
    returns (status: Status)
    requires ctx.Valid() && HoldsData(ctx, text, fixups, st)
    modifies ctx, ctx.text, ctx.data, ctx.slots, ctx.table
    ensures ctx.Valid()
    ensures match Assembly.DataStep(s, |text|, st)
      case None => status.Fail?
      case Some(next) => status.Pass? && HoldsData(ctx, text, fixups, next)
  {
    hide L.DirectiveBytes, L.Fitting, Symbols.Consistent, Symbols.AsMap;
    status := Pass;
    if s.body.Section? {
      ctx.currentSection := if s.body.isData then 1 else 0;
      assert ctx.Recorded() == old(ctx.Recorded());
      return;
    }
    if ctx.currentSection == 0 {
      return;
    }
    if s.lbl != "" {
      var moved := ctx.table.MoveLabel(s.lbl, ctx.currentAddress);
    }
    FitsNothing(L.CAPACITY - |st.data|);
    assert st.data + [] == st.data && fixups + [] == fixups;
    if !s.body.Inst? {
      status := ctx.EmitDirective(s.body);
    }
  }

  lemma FitsNothing(room: int)
    ensures L.Fitting([], room) == []
  {
  }

  lemma DataNext(prog: seq<Statement>, n: nat, textSize: nat, symbols: map<string, Symbols.Sym>, st: Assembly.DataState)
    requires n < |prog| && Assembly.DataRun(prog, n, textSize, symbols) == Some(st)
    ensures Assembly.DataRun(prog, n + 1, textSize, symbols) == Assembly.DataStep(prog[n], textSize, st)
  {
    hide Assembly.DataStep;
  }

  lemma {:induction false} DataFails(prog: seq<Statement>, j: nat, n: nat, textSize: nat,
                                     symbols: map<string, Symbols.Sym>)
    requires j <= n <= |prog| && Assembly.DataRun(prog, j, textSize, symbols).None?
    ensures Assembly.DataRun(prog, n, textSize, symbols).None?
    decreases n
  {
    hide Assembly.DataStep;
    if j < n {
      DataFails(prog, j, n - 1, textSize, symbols);
    }
  }

  /** The third pass of asm_assemble: the data section is laid out right behind the text, which stays as it is. */
  method DataPass(ctx: AssemblerContext, prog: seq<Statement>) returns (status: Status)
    requires ctx.Valid()
    modifies ctx, ctx.text, ctx.data, ctx.slots, ctx.table
    ensures ctx.Valid()
    ensures match Assembly.DataRun(prog, |prog|, old(ctx.textSize), old(ctx.table.Model()))
      case None => status.Fail?
      case Some(st) => status.Pass? && HoldsData(ctx, old(ctx.Now().text), old(ctx.Now().fixups), st)
  {
    hide Assembly.DataRun, Assembly.DataStep, Symbols.Consistent, Symbols.AsMap;
    ghost var text, fixups, symbols := ctx.Now().text, ctx.Now().fixups, ctx.table.Model();
    ctx.currentSection, ctx.dataSize := 0, 0;
    ctx.currentAddress := L.BASE + ctx.textSize;
    assert ctx.Recorded() == fixups;
    ghost var st := Assembly.DataState(false, symbols, []);
    DataStart(prog, |text|, symbols);
    for i := 0 to |prog|
      invariant ctx.Valid() && HoldsData(ctx, text, fixups, st)
      invariant Assembly.DataRun(prog, i, |text|, symbols) == Some(st)
    {
      hide HoldsData;
      DataNext(prog, i, |text|, symbols, st);
      status := DataStep(ctx, prog[i], text, fixups, st);
      if status.Fail? {
        DataFails(prog, i + 1, |prog|, |text|, symbols);
        return;
      }
      st := Assembly.DataStep(prog[i], |text|, st).value;
    }
    return Pass;
  }

  lemma DataStart(prog: seq<Statement>, textSize: nat, symbols: map<string, Symbols.Sym>)
    ensures Assembly.DataRun(prog, 0, textSize, symbols) == Some(Assembly.DataState(false, symbols, []))
  {
  }

  // ---- the whole run ----

  /** The passes of one mode. */
  method TextMode(ctx: AssemblerContext, prog: seq<Statement>, forward: bool)
    returns (status: Status, changed: bool, ghost st: L.PassState)
    requires ctx.Valid()
    modifies ctx, ctx.text, ctx.data, ctx.slots, ctx.table
    ensures ctx.Valid()
    ensures match Assembly.PassLoop(prog, forward, old(ctx.table.Model()), Assembly.MAX_PASSES)
      case None => status.Fail?
      case Some(after) => status.Pass? && st == after && Holds(ctx, st) && changed == st.changed
  {
    hide L.Pass, Holds, Symbols.Consistent, Symbols.AsMap;
    ctx.forwardShort := forward;
    ghost var symbols := ctx.table.Model();
    var left: nat := Assembly.MAX_PASSES;
    while true
      invariant ctx.Valid() && ctx.forwardShort == forward && left > 0
      invariant Assembly.PassLoop(prog, forward, symbols, Assembly.MAX_PASSES)
        == Assembly.PassLoop(prog, forward, ctx.table.Model(), left)
      decreases left
    {
      status, changed, st := TextPass(ctx, prog);
      if status.Fail? || !changed || left == 1 {
        return;
      }
      HoldsSymbols(ctx, st);
      left := left - 1;
    }
  }

  lemma HoldsSymbols(ctx: AssemblerContext, st: L.PassState)
    requires ctx.Shaped() && Holds(ctx, st)
    ensures ctx.table.Model() == st.symbols && ctx.Now().text == L.Text(st.chunks)
      && ctx.Now().fixups == L.Fixups(st.chunks)
    ensures ctx.textSize == |L.Text(st.chunks)|
  {
    assert |ctx.Now().text| == ctx.textSize;
  }

  /** asm_assemble behind the first pass. */
  method Assemble(ctx: AssemblerContext, prog: seq<Statement>) returns (status: Status)
    requires ctx.Valid()
    modifies ctx, ctx.text, ctx.data, ctx.slots, ctx.table
    ensures ctx.Valid()
    ensures match Assembly.Assemble(prog, old(ctx.table.Model()))
      case None => status.Fail?
      case Some(im) =>
        && status.Pass? && ctx.text[..ctx.textSize] == im.text && ctx.data[..ctx.dataSize] == im.data
        && ctx.table.Model() == im.symbols
  {
    hide Assembly.PassLoop, Assembly.DataRun, F.Resolve, L.Text, L.Fixups, L.Addresses, Holds, Symbols.Consistent,
         Symbols.AsMap;
    ghost var st;
    var changed;
    status, changed, st := TextMode(ctx, prog, true);
    if status.Fail? {
      return;
    }
    HoldsSymbols(ctx, st);
    if changed {
      status, changed, st := TextMode(ctx, prog, false);
      if status.Fail? {
        return;
      }
      HoldsSymbols(ctx, st);
    }
    if changed {
      ctx.forwardShort := false;
      assert ctx.Recorded() == L.Fixups(st.chunks);
    }
    status := DataPass(ctx, prog);
    if status.Fail? {
      return;
    }
    status := ResolveFixups(ctx);
  }
}
