// Conservative branch relaxation (forward short branches disabled) reaches one fixed point from
// any starting addresses, and needs one pass more than there are forward branches.

module Relaxation {
  import opened Bytes
  import opened Operands
  import opened Encoding
  import opened Symbols
  import opened Layout

  // ---- what an encoding depends on ----

  /** The label of a jmp or jcc, whose length depends on where the label is believed to be. */
  function BranchLabel(s: Statement): Option<string> {
    match s.body
    case Inst(i) =>
      if (i.op.Jmp? || i.op.Jcc? || i.op.Jnz?) && |i.operands| == 1 && i.operands[0].Label?
      then Some(i.operands[0].name) else None
    case _ => None
  }

  lemma DispatchDependsOn(i: Instruction, a: Env, b: Env)
    requires (i.op.Jmp? || i.op.Jcc? || i.op.Jnz?) && |i.operands| == 1 && i.operands[0].Label?
      ==> ShortDisp(a, i.operands[0].name) == ShortDisp(b, i.operands[0].name)
    ensures Dispatch(i, a) == Dispatch(i, b)
  {
    hide Form, ShortDisp, EncodeMov, EncodePushPop, EncodeLea, EncodeAlu, EncodeUnary, EncodeTest, EncodeImul,
         EncodeCmov, EncodeSetCc, EncodeBits, EncodeScan, EncodeCall, EncodeRet, NearBranch;
  }

  /** At one place, an emission depends on the addresses only through the displacement of its own branch. */
  lemma EmittedDependsOn(s: Statement, a: Env, b: Env, room: int)
    requires a.at == b.at
    requires BranchLabel(s).Some? ==> ShortDisp(a, BranchLabel(s).value) == ShortDisp(b, BranchLabel(s).value)
    ensures Emitted(s, a, room) == Emitted(s, b, room)
  {
    hide Dispatch, DirectiveBytes;
    match s.body
    case Inst(i) =>
      var segment := SegmentOf(i.operands);
      if BranchLabel(s).Some? {
        NoSegment(i.operands);
        assert SegmentPrefix(Default) == [];
        assert a.(at := a.at + 0) == a && b.(at := b.at + 0) == b;
      }
      if segment.Some? {
        var n := |SegmentPrefix(segment.value)|;
        DispatchDependsOn(i, a.(at := a.at + n), b.(at := b.at + n));
      }
    case _ =>
  }

  lemma NoSegment(os: seq<Operand>)
    requires |os| == 1 && !os[0].Memory?
    ensures SegmentOf(os) == Some(Default)
  {
    assert SegmentOf(os[..0]) == Some(Default);
  }

  // ---- forward branches ----

  /** Statement j is a branch in the text section to a label that is defined further down. */
  ghost predicate ForwardBranch(prog: seq<Statement>, j: nat) {
    && j < |prog| && !DataAfter(prog, j) && !prog[j].body.Section? && BranchLabel(prog[j]).Some?
    && exists k: nat :: k > j && Defines(prog, k, BranchLabel(prog[j]).value)
  }

  /** How many of the first n statements are forward branches. */
  ghost function ForwardBranches(prog: seq<Statement>, n: nat): nat
    requires n <= |prog|
  {
    if n == 0 then 0 else ForwardBranches(prog, n - 1) + (if ForwardBranch(prog, n - 1) then 1 else 0)
  }

  lemma ForwardBranchesMonotone(prog: seq<Statement>, j: nat, n: nat)
    requires j <= n <= |prog|
    ensures ForwardBranches(prog, j) <= ForwardBranches(prog, n)
  {
  }

  /** A forward branch is not among those before it. */
  lemma CountsBelow(prog: seq<Statement>, j: nat)
    requires j < |prog|
    ensures ForwardBranches(prog, j) + (if ForwardBranch(prog, j) then 1 else 0) <= ForwardBranches(prog, |prog|)
  {
    hide ForwardBranch;
    ForwardBranchesMonotone(prog, j + 1, |prog|);
  }

  // ---- the layout every start converges to ----

  ghost predicate TextLabel(prog: seq<Statement>, lbl: string) {
    exists k: nat :: Defines(prog, k, lbl)
  }

  // The canonical layout knows only the labels already met: a forward branch finds nothing and stays long.
  datatype Canonical = Canonical(inData: bool, addresses: map<string, int>, chunks: seq<Chunk>)

  function CanonStep(s: Statement, known: set<string>, st: Canonical): Option<Canonical> {
    if s.body.Section? then Some(st.(inData := s.body.isData))
    else if st.inData then Some(st)
    else
      var at := BASE + |Text(st.chunks)|;
      var addresses := if s.lbl != "" && s.lbl in known then st.addresses[s.lbl := at] else st.addresses;
      var e :- Emitted(s, Env(at, addresses, false), CAPACITY - |Text(st.chunks)|);
      Some(Canonical(false, addresses, st.chunks + [Chunk(at, s, e)]))
  }

  function Canon(prog: seq<Statement>, n: nat, known: set<string>, outside: map<string, int>): Option<Canonical>
    requires n <= |prog|
  {
    if n == 0 then Some(Canonical(false, outside, []))
    else
      var st :- Canon(prog, n - 1, known, outside);
      CanonStep(prog[n - 1], known, st)
  }

  /** Label l is defined by one of the first n statements. */
  ghost predicate Met(prog: seq<Statement>, n: nat, l: string) {
    exists k: nat :: k < n && Defines(prog, k, l)
  }

  /** outside holds the addresses of the names of symbols that are not text labels. */
  ghost predicate Outside(prog: seq<Statement>, symbols: map<string, Sym>, outside: map<string, int>) {
    && (forall l :: l in outside <==> l in symbols && !TextLabel(prog, l))
    && (forall l :: l in outside ==> outside[l] == symbols[l].address)
  }

  /** The running pass and the canonical layout agree on the bytes and on every label already met. */
  ghost predicate Agree(prog: seq<Statement>, n: nat, st: PassState, c: Canonical) {
    && st.inData == c.inData && st.chunks == c.chunks
    && (forall l :: l in c.addresses <==> l in st.symbols && (!TextLabel(prog, l) || Met(prog, n, l)))
    && (forall l :: l in c.addresses ==> c.addresses[l] == st.symbols[l].address)
  }

  lemma AgreeChunks(prog: seq<Statement>, n: nat, st: PassState, c: Canonical)
    requires Agree(prog, n, st, c)
    ensures Here(st) == BASE + |Text(c.chunks)|
  {
  }

  /** A forward branch is not tempted to be short: its label is believed at or behind the branch. */
  ghost predicate Behind(prog: seq<Statement>, j: nat, symbols: map<string, Sym>, at: int)
    requires j < |prog|
  {
    ForwardBranch(prog, j) && BranchLabel(prog[j]).value in symbols ==>
      symbols[BranchLabel(prog[j]).value].address >= at
  }

  /** A pass whose forward labels are believed far enough down lays out the program canonically. */
  lemma {:induction false} Follow(prog: seq<Statement>, n: nat, symbols: map<string, Sym>, outside: map<string, int>)
    requires n <= |prog| && DistinctLabels(prog)
    requires Run(prog, n, false, symbols).Some? && Outside(prog, symbols, outside)
    requires forall j: nat ::
      (j < n && Run(prog, j, false, symbols).Some? && Canon(prog, j, symbols.Keys, outside).Some?
       ==> Behind(prog, j, symbols, BASE + |Text(Canon(prog, j, symbols.Keys, outside).value.chunks)|))
    ensures Canon(prog, n, symbols.Keys, outside).Some?
    ensures Agree(prog, n, Run(prog, n, false, symbols).value, Canon(prog, n, symbols.Keys, outside).value)
  {
    hide Step, CanonStep, Emitted, Text, Addresses, Behind, Defines, DataAfter;
    if n > 0 {
      Follow(prog, n - 1, symbols, outside);
      FollowStep(prog, n - 1, symbols, outside);
    }
  }

  lemma FollowStep(prog: seq<Statement>, j: nat, symbols: map<string, Sym>, outside: map<string, int>)
    requires j < |prog| && DistinctLabels(prog) && Outside(prog, symbols, outside)
    requires Run(prog, j + 1, false, symbols).Some? && Run(prog, j, false, symbols).Some?
    requires Canon(prog, j, symbols.Keys, outside).Some?
    requires Agree(prog, j, Run(prog, j, false, symbols).value, Canon(prog, j, symbols.Keys, outside).value)
    requires Behind(prog, j, symbols, BASE + |Text(Canon(prog, j, symbols.Keys, outside).value.chunks)|)
    ensures Canon(prog, j + 1, symbols.Keys, outside).Some?
    ensures Agree(prog, j + 1, Run(prog, j + 1, false, symbols).value, Canon(prog, j + 1, symbols.Keys, outside).value)
  {
    hide Run, Canon, Step, CanonStep, Emitted, Text, Addresses, DataAfter, Defines, TextLabel, Outside, Behind,
         BranchLabel;
    var s, st, c := prog[j], Run(prog, j, false, symbols).value, Canon(prog, j, symbols.Keys, outside).value;
    RunStep(prog, j, false, symbols);
    CanonNext(prog, j, symbols.Keys, outside);
    RunSection(prog, j, false, symbols);
    if s.body.Section? || st.inData {
      FollowSkip(prog, j, st, c, symbols.Keys);
    } else {
      FollowChunk(prog, j, symbols, outside, st, c);
    }
  }

  lemma CanonNext(prog: seq<Statement>, n: nat, known: set<string>, outside: map<string, int>)
    requires n < |prog| && Canon(prog, n, known, outside).Some?
    ensures Canon(prog, n + 1, known, outside) == CanonStep(prog[n], known, Canon(prog, n, known, outside).value)
  {
    hide CanonStep;
  }

  lemma FollowSkip(prog: seq<Statement>, j: nat, st: PassState, c: Canonical, known: set<string>)
    requires j < |prog| && Agree(prog, j, st, c) && st.inData == DataAfter(prog, j)
    requires prog[j].body.Section? || st.inData
    ensures var st', c' := Step(prog[j], false, st), CanonStep(prog[j], known, c);
      st'.Some? && c'.Some? && Agree(prog, j + 1, st'.value, c'.value)
  {
    hide TextLabel, DataAfter, Emitted, Text;
    StepSection(prog[j], st);
    assert forall l :: !Defines(prog, j, l);
    assert forall l :: Met(prog, j + 1, l) <==> Met(prog, j, l);
  }

  lemma FollowChunk(prog: seq<Statement>, j: nat, symbols: map<string, Sym>, outside: map<string, int>, st: PassState,
                    c: Canonical)
    requires j < |prog| && DistinctLabels(prog) && Outside(prog, symbols, outside)
    requires Run(prog, j, false, symbols) == Some(st) && Step(prog[j], false, st).Some?
    requires Run(prog, j + 1, false, symbols) == Step(prog[j], false, st)
    requires Agree(prog, j, st, c) && Behind(prog, j, symbols, Here(st))
    requires st.inData == DataAfter(prog, j) && st.symbols.Keys == symbols.Keys
    requires !prog[j].body.Section? && !st.inData
    ensures var st', c' := Step(prog[j], false, st), CanonStep(prog[j], symbols.Keys, c);
      c'.Some? && Agree(prog, j + 1, st'.value, c'.value)
  {
    hide Run, Canon, Step, Emitted, Text, Addresses, DataAfter, Defines, TextLabel, Outside, Behind, BranchLabel,
         ShortDisp;
    var s, st' := prog[j], Step(prog[j], false, st).value;
    StepFacts(s, false, st);
    RunSection(prog, j + 1, false, symbols);
    var at := Here(st);
    var addresses := if s.lbl != "" && s.lbl in symbols.Keys then c.addresses[s.lbl := at] else c.addresses;
    AgreeLabel(prog, j, symbols, st, st', c, addresses);
    if BranchLabel(s).Some? {
      SameShort(prog, j, symbols, outside, st', addresses);
    }
    EmittedDependsOn(s, Env(at, Addresses(st'.symbols), false), Env(at, addresses, false),
                     CAPACITY - |Text(st.chunks)|);
  }

  lemma StepSection(s: Statement, st: PassState)
    requires s.body.Section? || st.inData
    ensures Step(s, false, st) == Some(if s.body.Section? then st.(inData := s.body.isData) else st)
  {
  }

  /** The label of statement j is entered on both sides. */
  lemma AgreeLabel(prog: seq<Statement>, j: nat, symbols: map<string, Sym>, st: PassState, st': PassState,
                   c: Canonical, addresses: map<string, int>)
    requires j < |prog| && Agree(prog, j, st, c) && st.symbols.Keys == symbols.Keys
    requires !prog[j].body.Section? && !DataAfter(prog, j)
    requires st'.symbols == (if prog[j].lbl == "" then st.symbols else Moved(st.symbols, prog[j].lbl, Here(st)))
    requires addresses == if prog[j].lbl != "" && prog[j].lbl in symbols.Keys
                          then c.addresses[prog[j].lbl := Here(st)] else c.addresses
    ensures forall l :: l in addresses <==>
      l in st'.symbols && (!TextLabel(prog, l) || Met(prog, j + 1, l))
    ensures forall l :: l in addresses ==> addresses[l] == st'.symbols[l].address
  {
    hide Here, DataAfter;
    var lbl := prog[j].lbl;
    assert lbl != "" ==> Defines(prog, j, lbl);
    forall l
      ensures l in addresses <==>
        l in st'.symbols && (!TextLabel(prog, l) || Met(prog, j + 1, l))
    {
      if l != lbl || lbl == "" {
        assert Met(prog, j + 1, l) <==> Met(prog, j, l);
      }
    }
  }

  /** The branch of statement j gets the same displacement from the running symbols and from the labels already met. */
  lemma SameShort(prog: seq<Statement>, j: nat, symbols: map<string, Sym>, outside: map<string, int>,
                  st': PassState, addresses: map<string, int>)
    requires j < |prog| && DistinctLabels(prog) && BranchLabel(prog[j]).Some?
    requires !prog[j].body.Section? && !DataAfter(prog, j)
    requires Run(prog, j + 1, false, symbols) == Some(st') && Run(prog, j, false, symbols).Some?
    requires forall l :: l in addresses <==>
      l in st'.symbols && (!TextLabel(prog, l) || Met(prog, j + 1, l))
    requires forall l :: l in addresses ==> addresses[l] == st'.symbols[l].address
    requires Behind(prog, j, symbols, Here(Run(prog, j, false, symbols).value))
    requires st'.symbols.Keys == symbols.Keys
    ensures var at, l := Here(Run(prog, j, false, symbols).value), BranchLabel(prog[j]).value;
      ShortDisp(Env(at, Addresses(st'.symbols), false), l) == ShortDisp(Env(at, addresses, false), l)
  {
    hide Run, DataAfter, Here;
    var l := BranchLabel(prog[j]).value;
    if l in st'.symbols && l !in addresses {
      assert forall k: nat :: k < j + 1 ==> !Defines(prog, k, l);
      OtherLabel(prog, j + 1, false, symbols, l);
      var k: nat :| Defines(prog, k, l);
      assert ForwardBranch(prog, j);
    }
  }

  // ---- repeated passes ----

  /** The symbols after p conservative passes, None when one of them fails. */
  function Iterate(prog: seq<Statement>, symbols: map<string, Sym>, p: nat): Option<map<string, Sym>> {
    if p == 0 then Some(symbols)
    else
      var before :- Iterate(prog, symbols, p - 1);
      var st :- Pass(prog, false, before);
      Some(st.symbols)
  }

  lemma {:induction false} IterateEarlier(prog: seq<Statement>, symbols: map<string, Sym>, q: nat, p: nat)
    requires q <= p && Iterate(prog, symbols, p).Some?
    ensures Iterate(prog, symbols, q).Some?
    decreases p
  {
    if q < p {
      IterateEarlier(prog, symbols, q, p - 1);
    }
  }

  lemma {:induction false} IterateOutside(prog: seq<Statement>, symbols: map<string, Sym>, p: nat,
                                          outside: map<string, int>)
    requires Iterate(prog, symbols, p).Some? && Outside(prog, symbols, outside)
    ensures Iterate(prog, symbols, p).value.Keys == symbols.Keys
    ensures Outside(prog, Iterate(prog, symbols, p).value, outside)
  {
    hide Run, Defines;
    if p > 0 {
      IterateOutside(prog, symbols, p - 1, outside);
      var before := Iterate(prog, symbols, p - 1).value;
      RunSection(prog, |prog|, false, before);
      forall l | l in symbols && !TextLabel(prog, l)
        ensures Iterate(prog, symbols, p).value[l] == before[l]
      {
        OtherLabel(prog, |prog|, false, before, l);
      }
    }
  }

  /**
   * Pass p lays out canonically everything up to its p-th forward branch: each pass fixes the position
   * of one more branch, because a label once met behind a branch never looks short to it again.
   */
  lemma {:induction false} Stage(prog: seq<Statement>, symbols: map<string, Sym>, p: nat, n: nat,
                                 outside: map<string, int>)
    requires p > 0 && n <= |prog| && DistinctLabels(prog)
    requires Iterate(prog, symbols, p).Some? && Outside(prog, symbols, outside)
    requires ForwardBranches(prog, n) < p
    ensures Iterate(prog, symbols, p - 1).Some?
    ensures Run(prog, n, false, Iterate(prog, symbols, p - 1).value).Some?
    ensures Canon(prog, n, symbols.Keys, outside).Some?
    ensures Agree(prog, n, Run(prog, n, false, Iterate(prog, symbols, p - 1).value).value,
      Canon(prog, n, symbols.Keys, outside).value)
    decreases p
  {
    hide Run, Canon, Agree, Defines, Text;
    var before := Iterate(prog, symbols, p - 1).value;
    IterateOutside(prog, symbols, p - 1, outside);
    RunMonotone(prog, n, |prog|, false, before);
    forall j: nat | j < n && Run(prog, j, false, before).Some? && Canon(prog, j, symbols.Keys, outside).Some?
      ensures Behind(prog, j, before, BASE + |Text(Canon(prog, j, symbols.Keys, outside).value.chunks)|)
    {
      if ForwardBranch(prog, j) && BranchLabel(prog[j]).value in before {
        ForwardBranchesMonotone(prog, j + 1, n);
        Stage(prog, symbols, p - 1, j, outside);
        StageBehind(prog, symbols, p - 1, j, outside);
      }
    }
    Follow(prog, n, before, outside);
  }

  /** A forward label lies behind its branch in the pass just made. */
  lemma StageBehind(prog: seq<Statement>, symbols: map<string, Sym>, q: nat, j: nat, outside: map<string, int>)
    requires q > 0 && j < |prog| && DistinctLabels(prog) && ForwardBranch(prog, j)
    requires Iterate(prog, symbols, q).Some? && Iterate(prog, symbols, q - 1).Some?
    requires Run(prog, j, false, Iterate(prog, symbols, q - 1).value).Some?
    requires Canon(prog, j, symbols.Keys, outside).Some?
    requires Agree(prog, j, Run(prog, j, false, Iterate(prog, symbols, q - 1).value).value,
      Canon(prog, j, symbols.Keys, outside).value)
    ensures BranchLabel(prog[j]).value in Iterate(prog, symbols, q).value ==>
      Iterate(prog, symbols, q).value[BranchLabel(prog[j]).value].address
      >= BASE + |Text(Canon(prog, j, symbols.Keys, outside).value.chunks)|
  {
    hide Run, Canon, Text;
    var earlier := Iterate(prog, symbols, q - 1).value;
    var l := BranchLabel(prog[j]).value;
    RunSection(prog, |prog|, false, earlier);
    if l in earlier {
      var k: nat :| k > j && Defines(prog, k, l);
      LabelAddress(prog, |prog|, false, earlier, k);
      RunMonotone(prog, j, k, false, earlier);
    }
  }

  /** Two passes with the same layout: the second finds every label where the first put it. */
  lemma {:induction false} SecondUnchanged(prog: seq<Statement>, symbols: map<string, Sym>, n: nat)
    requires n <= |prog| && DistinctLabels(prog)
    requires Pass(prog, false, symbols).Some?
    requires var next := Pass(prog, false, symbols).value.symbols;
      Run(prog, n, false, next).Some?
      && forall j: nat :: j < n && Run(prog, j, false, next).Some? ==>
           && Run(prog, j, false, symbols).Some?
           && Run(prog, j, false, next).value.chunks == Run(prog, j, false, symbols).value.chunks
    ensures !Run(prog, n, false, Pass(prog, false, symbols).value.symbols).value.changed
  {
    hide Run, Step, Emitted, Text, Addresses, Defines, DataAfter, DistinctLabels;
    var next := Pass(prog, false, symbols).value.symbols;
    if n == 0 {
      assert Run(prog, 0, false, next) == Some(PassState(false, next, [], false)) by { RunZero(prog, next); }
    } else {
      RunStep(prog, n - 1, false, next);
      SecondUnchanged(prog, symbols, n - 1);
      StepFacts(prog[n - 1], false, Run(prog, n - 1, false, next).value);
      SecondLabel(prog, symbols, n - 1);
    }
  }

  lemma RunZero(prog: seq<Statement>, symbols: map<string, Sym>)
    ensures Run(prog, 0, false, symbols) == Some(PassState(false, symbols, [], false))
  {
  }

  lemma SecondLabel(prog: seq<Statement>, symbols: map<string, Sym>, j: nat)
    requires j < |prog| && DistinctLabels(prog) && Pass(prog, false, symbols).Some?
    requires Run(prog, j, false, Pass(prog, false, symbols).value.symbols).Some? && Run(prog, j, false, symbols).Some?
    requires Run(prog, j, false, Pass(prog, false, symbols).value.symbols).value.chunks
      == Run(prog, j, false, symbols).value.chunks
    ensures var st := Run(prog, j, false, Pass(prog, false, symbols).value.symbols).value; var s := prog[j];
      !s.body.Section? && !st.inData && s.lbl != "" && s.lbl in st.symbols ==> st.symbols[s.lbl].address == Here(st)
  {
    hide Run, Text, DataAfter;
    var next := Pass(prog, false, symbols).value.symbols;
    var st, s := Run(prog, j, false, next).value, prog[j];
    RunSection(prog, j, false, next);
    RunSection(prog, |prog|, false, symbols);
    if !s.body.Section? && !st.inData && s.lbl != "" && s.lbl in st.symbols {
      assert Defines(prog, j, s.lbl);
      LabelAddress(prog, |prog|, false, symbols, j);
      OtherLabel(prog, j, false, next, s.lbl);
    }
  }

  /**
   * Convergence: from any starting addresses, once p passes with p greater than the number of forward
   * branches have been made, the next pass moves no label and repeats the same layout.
   */
  lemma {:induction false} Converges(prog: seq<Statement>, symbols: map<string, Sym>, p: nat, outside: map<string, int>)
    requires DistinctLabels(prog) && Outside(prog, symbols, outside)
    requires p > ForwardBranches(prog, |prog|)
    requires Iterate(prog, symbols, p + 1).Some?
    ensures Iterate(prog, symbols, p).Some?
    ensures var st := Pass(prog, false, Iterate(prog, symbols, p).value);
      st.Some? && !st.value.changed && st.value.symbols == Iterate(prog, symbols, p).value
      && Canon(prog, |prog|, symbols.Keys, outside).Some?
      && st.value.chunks == Canon(prog, |prog|, symbols.Keys, outside).value.chunks
  {
    hide Run, Canon, Defines, Text;
    IterateEarlier(prog, symbols, p, p + 1);
    IterateEarlier(prog, symbols, p - 1, p + 1);
    var a, b := Iterate(prog, symbols, p - 1).value, Iterate(prog, symbols, p).value;
    assert Pass(prog, false, a).Some? && Pass(prog, false, a).value.symbols == b;
    forall j: nat | j <= |prog|
      ensures Run(prog, j, false, a).Some? && Run(prog, j, false, b).Some?
        && Canon(prog, j, symbols.Keys, outside).Some?
        && Run(prog, j, false, a).value.chunks == Canon(prog, j, symbols.Keys, outside).value.chunks
        && Run(prog, j, false, b).value.chunks == Canon(prog, j, symbols.Keys, outside).value.chunks
    {
      ForwardBranchesMonotone(prog, j, |prog|);
      Stage(prog, symbols, p, j, outside);
      Stage(prog, symbols, p + 1, j, outside);
    }
    SecondUnchanged(prog, a, |prog|);
    Unchanged(prog, |prog|, false, b);
  }

  lemma {:induction false} FixedIterate(prog: seq<Statement>, symbols: map<string, Sym>, p: nat)
    requires Pass(prog, false, symbols).Some? && !Pass(prog, false, symbols).value.changed
    ensures Iterate(prog, symbols, p) == Some(symbols)
  {
    Unchanged(prog, |prog|, false, symbols);
    hide Run;
    if p > 0 {
      FixedIterate(prog, symbols, p - 1);
    }
  }

  /**
   * There is only one fixed point: two of them that agree outside the text labels agree on every label and lay
   * out the same bytes.
   */
  lemma {:induction false} OneFixedPoint(prog: seq<Statement>, a: map<string, Sym>, b: map<string, Sym>,
                                         outside: map<string, int>)
    requires DistinctLabels(prog) && a.Keys == b.Keys && Outside(prog, a, outside) && Outside(prog, b, outside)
    requires Pass(prog, false, a).Some? && !Pass(prog, false, a).value.changed
    requires Pass(prog, false, b).Some? && !Pass(prog, false, b).value.changed
    ensures Pass(prog, false, a).value.chunks == Pass(prog, false, b).value.chunks
    ensures Addresses(a) == Addresses(b)
  {
    hide Run, Canon, Defines, Text;
    var p := ForwardBranches(prog, |prog|) + 1;
    forall m | m == a || m == b
      ensures Canon(prog, |prog|, a.Keys, outside).Some?
      ensures Agree(prog, |prog|, Pass(prog, false, m).value, Canon(prog, |prog|, a.Keys, outside).value)
      ensures Pass(prog, false, m).value.symbols == m
    {
      FixedIterate(prog, m, p);
      FixedIterate(prog, m, p - 1);
      Stage(prog, m, p, |prog|, outside);
      Unchanged(prog, |prog|, false, m);
    }
    var c := Canon(prog, |prog|, a.Keys, outside).value;
    forall l | l in a
      ensures l in c.addresses
    {
      DefinedBelow(prog, l);
    }
    assert forall l :: l in a ==> a[l].address == c.addresses[l] && b[l].address == c.addresses[l];
  }

  lemma DefinedBelow(prog: seq<Statement>, l: string)
    ensures TextLabel(prog, l) ==> Met(prog, |prog|, l)
  {
  }
}
