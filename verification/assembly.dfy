// The assembler's run after parsing: text passes until no label moves, in two modes; then the data
// section behind the text; then the fixups.

module Assembly {
  import opened Bytes
  import opened Operands
  import opened Symbols
  import Decoding
  import L = Layout
  import R = Relaxation
  import F = Fixups
  import Encoding
  import Linking
  import Listing

  type Statement = L.Statement

  const MAX_PASSES: nat := 6

  // ---- the text passes ----

  /** At most n passes in one mode, stopping at the first that moves no label. */
  function PassLoop(prog: seq<Statement>, forward: bool, symbols: map<string, Sym>, n: nat): Option<L.PassState>
    requires n > 0
    decreases n
  {
    var st :- L.Pass(prog, forward, symbols);
    if !st.changed || n == 1 then Some(st) else PassLoop(prog, forward, st.symbols, n - 1)
  }

  datatype Texts = Texts(st: L.PassState, forward: bool)

  /** Forward short branches first; when that does not settle, the conservative mode from where it stopped. */
  function TextPasses(prog: seq<Statement>, symbols: map<string, Sym>): Option<Texts> {
    var first :- PassLoop(prog, true, symbols, MAX_PASSES);
    if !first.changed then Some(Texts(first, true))
    else
      var second :- PassLoop(prog, false, first.symbols, MAX_PASSES);
      Some(Texts(second, false))
  }

  /** The symbols from which a pass loop made its last pass. */
  function LoopStart(prog: seq<Statement>, forward: bool, symbols: map<string, Sym>, n: nat): map<string, Sym>
    requires n > 0 && PassLoop(prog, forward, symbols, n).Some?
    decreases n
  {
    var st := L.Pass(prog, forward, symbols).value;
    if !st.changed || n == 1 then symbols else LoopStart(prog, forward, st.symbols, n - 1)
  }

  /** The symbols before the pass whose text is kept. */
  function KeptFrom(prog: seq<Statement>, symbols: map<string, Sym>): map<string, Sym>
    requires TextPasses(prog, symbols).Some?
  {
    var first := PassLoop(prog, true, symbols, MAX_PASSES).value;
    if !first.changed then LoopStart(prog, true, symbols, MAX_PASSES)
    else LoopStart(prog, false, first.symbols, MAX_PASSES)
  }

  /** The layout a pass loop ends with is the outcome of one pass, from some addresses of the same names. */
  lemma {:induction false} LastPass(prog: seq<Statement>, forward: bool, symbols: map<string, Sym>, n: nat)
    requires n > 0 && PassLoop(prog, forward, symbols, n).Some?
    ensures L.Pass(prog, forward, LoopStart(prog, forward, symbols, n)) == PassLoop(prog, forward, symbols, n)
    ensures LoopStart(prog, forward, symbols, n).Keys == symbols.Keys
    decreases n
  {
    hide L.Run;
    var st := L.Pass(prog, forward, symbols).value;
    L.RunSection(prog, |prog|, forward, symbols);
    if st.changed && n > 1 {
      LastPass(prog, forward, st.symbols, n - 1);
    }
  }

  /** The text the assembler goes on with was laid out by one pass of the mode it reports. */
  lemma TextsFromPass(prog: seq<Statement>, symbols: map<string, Sym>)
    requires TextPasses(prog, symbols).Some?
    ensures var t, from := TextPasses(prog, symbols).value, KeptFrom(prog, symbols);
      && L.Pass(prog, t.forward, from) == Some(t.st) && from.Keys == symbols.Keys
      && (t.forward ==> !t.st.changed)
  {
    hide L.Pass;
    var first := PassLoop(prog, true, symbols, MAX_PASSES).value;
    LastPass(prog, true, symbols, MAX_PASSES);
    if first.changed {
      KeysKept(prog, true, LoopStart(prog, true, symbols, MAX_PASSES));
      LastPass(prog, false, first.symbols, MAX_PASSES);
    }
  }

  lemma KeysKept(prog: seq<Statement>, forward: bool, symbols: map<string, Sym>)
    requires L.Pass(prog, forward, symbols).Some?
    ensures L.Pass(prog, forward, symbols).value.symbols.Keys == symbols.Keys
  {
    hide L.Run;
    L.RunSection(prog, |prog|, forward, symbols);
  }

  /** A loop that ends unsettled has made all its passes. */
  lemma {:induction false} Unsettled(prog: seq<Statement>, symbols: map<string, Sym>, n: nat)
    requires n > 0 && PassLoop(prog, false, symbols, n).Some? && PassLoop(prog, false, symbols, n).value.changed
    ensures R.Iterate(prog, symbols, n).Some?
    ensures R.Iterate(prog, symbols, n - 1).Some?
    ensures L.Pass(prog, false, R.Iterate(prog, symbols, n - 1).value) == PassLoop(prog, false, symbols, n)
    ensures LoopStart(prog, false, symbols, n) == R.Iterate(prog, symbols, n - 1).value
    decreases n
  {
    hide L.Pass;
    var st := L.Pass(prog, false, symbols).value;
    assert R.Iterate(prog, symbols, 0) == Some(symbols);
    if n == 1 {
      assert R.Iterate(prog, symbols, 1) == Some(st.symbols);
    } else {
      Unsettled(prog, st.symbols, n - 1);
      IterateShift(prog, symbols, n - 2);
      IterateShift(prog, symbols, n - 1);
    }
  }

  lemma {:induction false} IterateShift(prog: seq<Statement>, symbols: map<string, Sym>, p: nat)
    requires L.Pass(prog, false, symbols).Some?
    ensures R.Iterate(prog, symbols, p + 1) == R.Iterate(prog, L.Pass(prog, false, symbols).value.symbols, p)
  {
    hide L.Pass;
    if p == 0 {
      assert R.Iterate(prog, symbols, 1) == Some(L.Pass(prog, false, symbols).value.symbols);
    } else {
      IterateShift(prog, symbols, p - 1);
    }
  }

  /** With at most four forward branches the passes always settle: six conservative passes are enough. */
  lemma FewForwardBranches(prog: seq<Statement>, symbols: map<string, Sym>)
    requires TextPasses(prog, symbols).Some? && L.DistinctLabels(prog)
    requires R.ForwardBranches(prog, |prog|) <= MAX_PASSES - 2
    ensures !TextPasses(prog, symbols).value.st.changed
  {
    hide L.Pass, R.ForwardBranches, L.DistinctLabels;
    var t := TextPasses(prog, symbols).value;
    if t.st.changed {
      var start := PassLoop(prog, true, symbols, MAX_PASSES).value.symbols;
      Unsettled(prog, start, MAX_PASSES);
      var outside := OutsideOf(prog, start);
      R.Converges(prog, start, MAX_PASSES - 1, outside);
    }
  }

  ghost function OutsideOf(prog: seq<Statement>, symbols: map<string, Sym>): (outside: map<string, int>)
    ensures R.Outside(prog, symbols, outside)
  {
    map l | l in symbols && !R.TextLabel(prog, l) :: symbols[l].address
  }

  // ---- the data pass ----

  datatype DataState = DataState(inData: bool, symbols: map<string, Sym>, data: seq<byte>)

  function DataHere(textSize: nat, st: DataState): int { L.BASE + textSize + |st.data| }

  /** The round of the data-pass loop: only the data section counts, and instructions in it emit nothing. */
  function DataStep(s: Statement, textSize: nat, st: DataState): Option<DataState> {
    if s.body.Section? then Some(st.(inData := s.body.isData))
    else if !st.inData then Some(st)
    else
      var at := DataHere(textSize, st);
      var symbols := if s.lbl == "" then st.symbols else Moved(st.symbols, s.lbl, at);
      var bytes :- if s.body.Inst? then Some([]) else L.DirectiveBytes(s.body, at, 0);
      Some(DataState(true, symbols, st.data + L.Fitting(bytes, L.CAPACITY - |st.data|)))
  }

  function DataRun(prog: seq<Statement>, n: nat, textSize: nat, symbols: map<string, Sym>): Option<DataState>
    requires n <= |prog|
  {
    if n == 0 then Some(DataState(false, symbols, []))
    else
      var st :- DataRun(prog, n - 1, textSize, symbols);
      DataStep(prog[n - 1], textSize, st)
  }

  /** Statement k defines label lbl in the data section. */
  predicate DataDefines(prog: seq<Statement>, k: nat, lbl: string) {
    k < |prog| && lbl != "" && prog[k].lbl == lbl && !prog[k].body.Section? && L.DataAfter(prog, k)
  }

  lemma DataStepFacts(s: Statement, textSize: nat, st: DataState)
    requires DataStep(s, textSize, st).Some?
    ensures var st' := DataStep(s, textSize, st).value;
      && st.data <= st'.data
      && (|st.data| <= L.CAPACITY ==> |st'.data| <= L.CAPACITY)
      && st'.symbols == (if !s.body.Section? && st.inData && s.lbl != ""
                         then Moved(st.symbols, s.lbl, DataHere(textSize, st)) else st.symbols)
      && st'.inData == (if s.body.Section? then s.body.isData else st.inData)
  {
    hide L.DirectiveBytes;
  }

  /**
   * What every round of the data pass keeps: the section, the names, and every name that no data statement
   * so far has defined. The data never outgrows its section.
   */
  lemma {:induction false} DataKeeps(prog: seq<Statement>, n: nat, textSize: nat, symbols: map<string, Sym>,
                                     lbl: string)
    requires n <= |prog| && DataRun(prog, n, textSize, symbols).Some?
    ensures var st := DataRun(prog, n, textSize, symbols).value;
      && st.inData == L.DataAfter(prog, n) && |st.data| <= L.CAPACITY
      && (lbl in st.symbols <==> lbl in symbols)
      && (lbl in symbols && (forall k: nat :: k < n ==> !DataDefines(prog, k, lbl)) ==> st.symbols[lbl] == symbols[lbl])
    decreases n
  {
    hide DataStep;
    if n > 0 {
      DataKeeps(prog, n - 1, textSize, symbols, lbl);
      DataStepFacts(prog[n - 1], textSize, DataRun(prog, n - 1, textSize, symbols).value);
      assert !DataDefines(prog, n - 1, lbl)
        ==> prog[n - 1].lbl != lbl || lbl == "" || prog[n - 1].body.Section? || !L.DataAfter(prog, n - 1);
    }
  }

  ghost predicate DistinctData(prog: seq<Statement>) {
    forall j, k, lbl :: DataDefines(prog, j, lbl) && DataDefines(prog, k, lbl) ==> j == k
  }

  /**
   * Address conservation in the data pass: a data label ends up at the offset where its own bytes begin, behind
   * the text.
   */
  lemma {:induction false} DataLabelAddress(prog: seq<Statement>, n: nat, textSize: nat, symbols: map<string, Sym>,
                                            k: nat)
    requires n <= |prog| && DataRun(prog, n, textSize, symbols).Some? && DistinctData(prog)
    requires k < n && DataDefines(prog, k, prog[k].lbl) && prog[k].lbl in symbols
    ensures DataRun(prog, k, textSize, symbols).Some?
    ensures var early, late := DataRun(prog, k, textSize, symbols).value, DataRun(prog, n, textSize, symbols).value;
      && early.data <= late.data && prog[k].lbl in late.symbols
      && late.symbols[prog[k].lbl].address == L.BASE + textSize + |early.data|
      && L.BASE + textSize <= late.symbols[prog[k].lbl].address <= L.BASE + textSize + |late.data|
    decreases n
  {
    hide DataStep, L.DataAfter;
    var st := DataRun(prog, n - 1, textSize, symbols).value;
    DataStepFacts(prog[n - 1], textSize, st);
    DataKeeps(prog, n - 1, textSize, symbols, prog[k].lbl);
    if k < n - 1 {
      DataLabelAddress(prog, n - 1, textSize, symbols, k);
      assert !DataDefines(prog, n - 1, prog[k].lbl);
    }
  }

  // ---- the whole run ----

  // What assembly leaves behind.
  datatype Image = Image(text: seq<byte>, data: seq<byte>, symbols: map<string, Sym>)

  /** asm_assemble behind the first pass: symbols holds the addresses the first pass estimated. */
  function Assemble(prog: seq<Statement>, symbols: map<string, Sym>): Option<Image> {
    var t :- TextPasses(prog, symbols);
    var text := L.Text(t.st.chunks);
    var d :- DataRun(prog, |prog|, |text|, t.st.symbols);
    var resolved :- F.Resolve(text, L.Fixups(t.st.chunks), L.Addresses(d.symbols));
    Some(Image(resolved, d.data, d.symbols))
  }

  /** No label is defined both in the text and in the data section. */
  ghost predicate SectionsApart(prog: seq<Statement>) {
    forall j, k, lbl :: L.Defines(prog, j, lbl) && DataDefines(prog, k, lbl) ==> false
  }

  /** Text and data do not overlap, and each label lies in the range of its own section, where its statement begins. */
  lemma LabelsInPlace(prog: seq<Statement>, symbols: map<string, Sym>, k: nat)
    requires Assemble(prog, symbols).Some?
    requires L.DistinctLabels(prog) && DistinctData(prog) && SectionsApart(prog)
    requires k < |prog| && prog[k].lbl in symbols
    ensures var im := Assemble(prog, symbols).value; var lbl := prog[k].lbl; var end := L.BASE + |im.text|;
      && (L.Defines(prog, k, lbl) ==>
            lbl in im.symbols && L.BASE <= im.symbols[lbl].address <= end)
      && (DataDefines(prog, k, lbl) ==>
            lbl in im.symbols && end <= im.symbols[lbl].address <= end + |im.data|)
  {
    hide L.Run, L.Text, L.Defines, DataDefines, F.Resolve, TextPasses, KeptFrom, DataRun;
    var t := TextPasses(prog, symbols).value;
    TextsFromPass(prog, symbols);
    var from := KeptFrom(prog, symbols);
    var lbl := prog[k].lbl;
    KeysKept(prog, t.forward, from);
    DataKeeps(prog, |prog|, |L.Text(t.st.chunks)|, t.st.symbols, lbl);
    if L.Defines(prog, k, lbl) {
      FinalAddress(prog, symbols, k);
    }
    if DataDefines(prog, k, lbl) {
      DataLabelAddress(prog, |prog|, |L.Text(t.st.chunks)|, t.st.symbols, k);
    }
  }

  /**
   * A text label's final address is where the text kept begins its own statement, whether or not the passes
   * settled: the statement is the chunk numbered by the text statements before it.
   */
  lemma FinalAddress(prog: seq<Statement>, symbols: map<string, Sym>, k: nat)
    requires Assemble(prog, symbols).Some? && L.DistinctLabels(prog) && SectionsApart(prog)
    requires k < |prog| && L.Defines(prog, k, prog[k].lbl) && prog[k].lbl in symbols
    ensures var im, cs := Assemble(prog, symbols).value, TextPasses(prog, symbols).value.st.chunks;
      var lbl, n := prog[k].lbl, |L.TextStatements(prog, k)|;
      && n < |cs| && cs[n].stmt == prog[k] && lbl in im.symbols
      && im.symbols[lbl].address == L.BASE + Linking.Start(cs, n) <= L.BASE + |im.text|
      && lbl in TextPasses(prog, symbols).value.st.symbols
      && TextPasses(prog, symbols).value.st.symbols[lbl].address == im.symbols[lbl].address
  {
    hide L.Run, L.Text, L.Defines, DataDefines, F.Resolve, TextPasses, KeptFrom, DataRun, L.TextStatements, L.EncodedAt;
    var t := TextPasses(prog, symbols).value;
    TextsFromPass(prog, symbols);
    var from := KeptFrom(prog, symbols);
    DefinesText(prog, k);
    L.LabelAddress(prog, |prog|, t.forward, from, k);
    L.RunMonotone(prog, k, |prog|, t.forward, from);
    L.RunStatements(prog, k, t.forward, from);
    Listing.ChunkOf(prog, t.forward, from, k);
    L.TextSplit(t.st.chunks, |L.TextStatements(prog, k)|);
    KeysKept(prog, t.forward, from);
    forall j: nat | j < |prog|
      ensures !DataDefines(prog, j, prog[k].lbl)
    {
    }
    DataKeeps(prog, |prog|, |L.Text(t.st.chunks)|, t.st.symbols, prog[k].lbl);
  }

  lemma DefinesText(prog: seq<Statement>, k: nat)
    requires k < |prog| && L.Defines(prog, k, prog[k].lbl)
    ensures !prog[k].body.Section? && !L.DataAfter(prog, k)
  {
  }

  // ---- branches of a text that may be unsettled ----

  /** Statement n is a jmp, jcc or call to a label in the text section. */
  predicate TextBranch(prog: seq<Statement>, n: nat) {
    n < |prog| && !L.DataAfter(prog, n) && prog[n].body.Inst? && Listing.LabelBranch(prog[n].body.inst)
  }

  function Target(prog: seq<Statement>, n: nat): string
    requires TextBranch(prog, n)
  {
    prog[n].body.inst.operands[0].name
  }

  /** The branch of statement n is listed with the address its label has in the end. */
  ghost predicate Reaches(prog: seq<Statement>, symbols: map<string, Sym>, n: nat)
    requires Assemble(prog, symbols).Some? && TextBranch(prog, n)
  {
    var im, cs := Assemble(prog, symbols).value, TextPasses(prog, symbols).value.st.chunks;
    var k, l := |L.TextStatements(prog, n)|, Target(prog, n);
    && k < |cs| && cs[k].stmt == prog[n] && l in im.symbols
    && var listed := Instruction(Listing.Listed(prog[n].body.inst.op), [Imm(im.symbols[l].address % TWO64)]);
       Decoding.DecodeOne(im.text, L.BASE, Linking.Start(cs, k)) == Some(Decoding.Decoded(|cs[k].e.bytes|, listed))
  }

  /** The branch of statement n was kept in its short form, with its label still ahead. */
  predicate ForwardShort(prog: seq<Statement>, symbols: map<string, Sym>, n: nat, j: nat)
    requires TextPasses(prog, symbols).Some? && n < |prog|
  {
    var cs, k := TextPasses(prog, symbols).value.st.chunks, |L.TextStatements(prog, n)|;
    n < j && k < |cs| && Listing.ShortBranch(cs[k])
  }

  /**
   * When a branch of the kept text is right, settled or not: statement n reaches the label defined by
   * statement j if and only if it is not a short forward branch, or the last pass left that label where
   * the pass before had put it.
   */
  lemma BranchReaches(prog: seq<Statement>, symbols: map<string, Sym>, n: nat, j: nat)
    requires Assemble(prog, symbols).Some? && L.DistinctLabels(prog) && SectionsApart(prog)
    requires TextBranch(prog, n) && L.Defines(prog, j, Target(prog, n)) && Target(prog, n) in symbols
    ensures var l, before, after := Target(prog, n), KeptFrom(prog, symbols), Assemble(prog, symbols).value.symbols;
      && l in before && l in after
      && (Reaches(prog, symbols, n)
          <==> (ForwardShort(prog, symbols, n, j) ==> before[l].address == after[l].address))
  {
    hide L.Run, L.Text, L.Fixups, L.DataAfter, F.Resolve, TextPasses, KeptFrom, DataRun, L.TextStatements;
    hide Decoding.DecodeOne, Listing.LabelBranch, Listing.ShortBranch;
    var t, im, l := TextPasses(prog, symbols).value, Assemble(prog, symbols).value, Target(prog, n);
    var cs, k := t.st.chunks, |L.TextStatements(prog, n)|;
    var from := KeptFrom(prog, symbols);
    TextsFromPass(prog, symbols);
    FinalAddress(prog, symbols, j);
    Listing.BranchLands(prog, t.forward, from, L.Addresses(im.symbols), im.text, n);
    if Listing.ShortBranch(cs[k]) {
      Believed(prog, t.forward, from, n, j, l);
      L.RunPlaced(prog, |prog|, t.forward, from);
      StartInside(cs, k);
      var believed := L.Addresses(L.Run(prog, n + 1, t.forward, from).value.symbols);
      ShortNear(L.BASE + Linking.Start(cs, k), believed, t.forward, l);
      SameTarget(believed[l], im.symbols[l].address);
    }
  }

  /**
   * With at most five forward branches every branch of the kept text to a text label is right, whether or not
   * the passes settled: the sixth conservative pass has none of them left to be misled.
   */
  lemma FiveForwardBranches(prog: seq<Statement>, symbols: map<string, Sym>, n: nat, j: nat)
    requires Assemble(prog, symbols).Some? && L.DistinctLabels(prog) && SectionsApart(prog)
    requires TextBranch(prog, n) && L.Defines(prog, j, Target(prog, n)) && Target(prog, n) in symbols
    requires R.ForwardBranches(prog, |prog|) <= MAX_PASSES - 1
    ensures Reaches(prog, symbols, n)
  {
    hide L.Run, L.Text, L.Fixups, F.Resolve, PassLoop, LoopStart, DataRun, L.TextStatements, Reaches;
    hide Listing.LabelBranch, Listing.ShortBranch, L.DistinctLabels, SectionsApart, R.ForwardBranches, L.DataAfter;
    var t, from, l := TextPasses(prog, symbols).value, KeptFrom(prog, symbols), Target(prog, n);
    TextsFromPass(prog, symbols);
    BranchReaches(prog, symbols, n, j);
    if !t.st.changed {
      FinalAddress(prog, symbols, j);
      L.Unchanged(prog, |prog|, t.forward, from);
    } else if ForwardShort(prog, symbols, n, j) {
      LastPassRight(prog, PassLoop(prog, true, symbols, MAX_PASSES).value.symbols, n, j, from, t.st);
    }
  }

  /** A sixth conservative pass leaves no forward branch short, when there are no more than five. */
  lemma LastPassRight(prog: seq<Statement>, start: map<string, Sym>, n: nat, j: nat, from: map<string, Sym>,
                      st: L.PassState)
    requires L.DistinctLabels(prog) && TextBranch(prog, n) && n < j && L.Defines(prog, j, Target(prog, n))
    requires PassLoop(prog, false, start, MAX_PASSES) == Some(st) && st.changed
    requires from == LoopStart(prog, false, start, MAX_PASSES) && Target(prog, n) in from
    requires R.ForwardBranches(prog, |prog|) <= MAX_PASSES - 1
    ensures var k := |L.TextStatements(prog, n)|; k < |st.chunks| ==> !Listing.ShortBranch(st.chunks[k])
  {
    hide L.Run, L.Text, L.Fixups, L.Defines, PassLoop, LoopStart, L.TextStatements, Listing.ShortBranch;
    hide Listing.LabelBranch, L.DistinctLabels, R.ForwardBranches, L.DataAfter, R.Canon, R.Agree;
    Unsettled(prog, start, MAX_PASSES);
    var outside := OutsideOf(prog, start);
    var k, l := |L.TextStatements(prog, n)|, Target(prog, n);
    Listing.BranchChunk(prog, false, from, n);
    if !prog[n].body.inst.op.Call? {
      BranchForward(prog, n, j);
      R.CountsBelow(prog, n);
      R.Stage(prog, start, MAX_PASSES - 1, n, outside);
      R.StageBehind(prog, start, MAX_PASSES - 1, n, outside);
      R.Stage(prog, start, MAX_PASSES, n, outside);
      R.AgreeChunks(prog, n, L.Run(prog, n, false, from).value, R.Canon(prog, n, start.Keys, outside).value);
      Believed(prog, false, from, n, j, l);
      NotBehind(L.Here(L.Run(prog, n, false, from).value), L.Run(prog, n + 1, false, from).value.symbols, l);
    }
  }

  lemma BranchForward(prog: seq<Statement>, n: nat, j: nat)
    requires TextBranch(prog, n) && n < j && L.Defines(prog, j, Target(prog, n)) && !prog[n].body.inst.op.Call?
    ensures R.ForwardBranch(prog, n) && R.BranchLabel(prog[n]) == Some(Target(prog, n))
  {
    hide L.Defines, L.DataAfter;
  }

  lemma NotBehind(at: int, symbols: map<string, Sym>, l: string)
    requires l in symbols && symbols[l].address >= at
    ensures Encoding.ShortDisp(Encoding.Env(at, L.Addresses(symbols), false), l) == None
  {
  }

  /**
   * What a pass believes of a label when it meets a branch: the label's own place if it is behind, the old one
   * if it is ahead.
   */
  lemma Believed(prog: seq<Statement>, forward: bool, from: map<string, Sym>, n: nat, j: nat, l: string)
    requires L.Pass(prog, forward, from).Some? && L.DistinctLabels(prog)
    requires n < |prog| && L.Defines(prog, j, l) && l in from
    ensures L.Run(prog, n + 1, forward, from).Some? && l in L.Pass(prog, forward, from).value.symbols
    ensures var believed := L.Run(prog, n + 1, forward, from).value.symbols;
      && l in believed
      && believed[l] == (if n < j then from[l] else L.Pass(prog, forward, from).value.symbols[l])
  {
    hide L.Run, L.Here;
    L.RunMonotone(prog, n + 1, |prog|, forward, from);
    L.LabelAddress(prog, |prog|, forward, from, j);
    if n < j {
      L.OtherLabel(prog, n + 1, forward, from, l);
    } else {
      L.LabelAddress(prog, n + 1, forward, from, j);
    }
  }

  lemma StartInside(cs: seq<L.Chunk>, k: nat)
    requires k < |cs| && L.Placed(cs)
    ensures Linking.Start(cs, k) <= |L.Text(cs)| <= L.CAPACITY
  {
    hide L.Text;
    L.TextSplit(cs, k);
    L.PlacedBound(cs);
  }

  lemma ShortNear(at: int, believed: map<string, int>, forward: bool, l: string)
    requires Encoding.ShortDisp(Encoding.Env(at, believed, forward), l).Some?
    ensures l in believed && at - 126 <= believed[l] <= at + 129
  {
  }

  /** Addresses near the text section are told apart by the listing. */
  lemma SameTarget(a: int, b: int)
    requires 0 <= a < TWO64 && 0 <= b < TWO64
    ensures a % TWO64 == b % TWO64 <==> a == b
  {
  }

  /** The labels reached by short branches belong to the text section. */
  ghost predicate ShortToText(prog: seq<Statement>, cs: seq<L.Chunk>) {
    forall k :: 0 <= k < |cs| && Listing.ShortBranch(cs[k]) ==> R.TextLabel(prog, cs[k].stmt.body.inst.operands[0].name)
  }

  /**
   * End to end: when the passes settled, the assembled text section is disassembled to the text statements of
   * the program, in order and end to end, each instruction referring to the address the symbol table holds
   * for its label at the end.
   */
  lemma AssembledListing(prog: seq<Statement>, symbols: map<string, Sym>)
    requires Assemble(prog, symbols).Some? && SectionsApart(prog)
    requires forall k :: 0 <= k < |L.TextStatements(prog, |prog|)| ==>
      Listing.Listable(L.TextStatements(prog, |prog|)[k])
    requires !TextPasses(prog, symbols).value.st.changed
    requires ShortToText(prog, TextPasses(prog, symbols).value.st.chunks)
    ensures var im, cs := Assemble(prog, symbols).value, TextPasses(prog, symbols).value.st.chunks;
      var ss, addresses := L.TextStatements(prog, |prog|), L.Addresses(im.symbols);
      && |cs| == |ss| && Listing.Presentable(ss, addresses)
      && Listing.ViewEntries(Decoding.Disassemble(im.text, L.BASE, 0))
         == Listing.Program(ss, Listing.Sizes(cs), 0, L.BASE, addresses)
  {
    hide L.Run, L.Text, L.Fixups, L.Defines, DataDefines, F.Resolve, TextPasses, KeptFrom, DataRun, L.TextStatements;
    hide Listing.ShortBranch, Listing.Listable, Listing.Presentable, Listing.Program, Listing.ViewEntries;
    hide Decoding.Disassemble;
    var t, im := TextPasses(prog, symbols).value, Assemble(prog, symbols).value;
    TextsFromPass(prog, symbols);
    var from := KeptFrom(prog, symbols);
    L.Unchanged(prog, |prog|, t.forward, from);
    KeptByData(prog, t.st.chunks, from, |L.Text(t.st.chunks)|);
    Listing.ProgramRoundTrip(prog, t.forward, from, L.Addresses(im.symbols), im.text);
  }

  /** The listing of an assembled text is printed to its end: no line is too long for its buffer. */
  lemma AssembledPrinted(prog: seq<Statement>, symbols: map<string, Sym>)
    requires Assemble(prog, symbols).Some? && SectionsApart(prog)
    requires forall k :: 0 <= k < |L.TextStatements(prog, |prog|)| ==>
      Listing.Listable(L.TextStatements(prog, |prog|)[k])
    requires !TextPasses(prog, symbols).value.st.changed
    requires ShortToText(prog, TextPasses(prog, symbols).value.st.chunks)
    ensures var listing := Decoding.Disassemble(Assemble(prog, symbols).value.text, L.BASE, 0);
      Decoding.Reached(listing) == listing
  {
    hide L.Run, L.Text, L.Fixups, L.Defines, DataDefines, F.Resolve, TextPasses, KeptFrom, DataRun, L.TextStatements;
    hide Listing.ShortBranch, Listing.Listable, Decoding.Disassemble, Decoding.Reached;
    var t, im := TextPasses(prog, symbols).value, Assemble(prog, symbols).value;
    TextsFromPass(prog, symbols);
    var from := KeptFrom(prog, symbols);
    L.Unchanged(prog, |prog|, t.forward, from);
    KeptByData(prog, t.st.chunks, from, |L.Text(t.st.chunks)|);
    Listing.ProgramFits(prog, t.forward, from, L.Addresses(im.symbols), im.text);
  }

  /** The data pass leaves the labels of short branches where the text passes put them. */
  lemma KeptByData(prog: seq<Statement>, cs: seq<L.Chunk>, symbols: map<string, Sym>, textSize: nat)
    requires SectionsApart(prog) && ShortToText(prog, cs)
    requires DataRun(prog, |prog|, textSize, symbols).Some?
    ensures Listing.ShortKept(cs, symbols, L.Addresses(DataRun(prog, |prog|, textSize, symbols).value.symbols))
  {
    hide DataRun, L.Defines, DataDefines;
    forall k | 0 <= k < |cs| && Listing.ShortBranch(cs[k])
      ensures var l, d := cs[k].stmt.body.inst.operands[0].name, DataRun(prog, |prog|, textSize, symbols).value;
        l in symbols ==> l in d.symbols && d.symbols[l] == symbols[l]
    {
      var l := cs[k].stmt.body.inst.operands[0].name;
      DataKeeps(prog, |prog|, textSize, symbols, l);
      var j: nat :| L.Defines(prog, j, l);
    }
  }
}
