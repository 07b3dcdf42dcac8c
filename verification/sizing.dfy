// Programs made of reserved space, alignment, branches and lone labels, with a label on every line: where
// the passes put their lines is a recursive function of where the labels were before.

module Sizing {
  import opened Bytes
  import opened Operands
  import opened Encoding
  import opened Symbols
  import opened Linking
  import opened Listing
  import opened Assembly
  import Decoding
  import L = Layout
  import R = Relaxation
  import F = Fixups

  // ---- the programs ----

  // resb size, align n, a jmp or jcc to the label of another line, or nothing.
  datatype Item = Pad(size: nat) | AlignTo(n: nat) | Go(op: Op, to: nat) | Mark

  /** The label of line k. */
  function Name(k: nat): (s: string)
    ensures |s| == k + 1 && s[0] == 'c'
  {
    seq(k + 1, _ => 'c')
  }

  function Line(item: Item, k: nat): Statement {
    L.Statement(Name(k),
                match item
                case Pad(size) => L.Reserve(1, size)
                case AlignTo(n) => L.Align(n)
                case Go(op, to) => L.Inst(Instruction(op, [Label(Name(to))]))
                case Mark => L.Inst(Instruction(Nop, [])),
                1)
  }

  function Written(items: seq<Item>): (prog: seq<Statement>)
    ensures |prog| == |items| && forall k: nat :: k < |items| ==> prog[k] == Line(items[k], k)
  {
    seq(|items|, k requires 0 <= k < |items| => Line(items[k], k))
  }

  predicate Made(item: Item, lines: nat) {
    match item
    case Pad(size) => size <= 256
    case AlignTo(n) => n == 16 || n == 128 || n == 256
    case Go(op, to) => (op.Jmp? || op.Jcc?) && to < lines
    case Mark => true
  }

  ghost predicate WellMade(items: seq<Item>) {
    |items| <= 60 && forall k :: 0 <= k < |items| ==> Made(items[k], |items|)
  }

  /** Every label of the program is in the table. */
  ghost predicate Labelled(items: seq<Item>, symbols: map<string, Sym>) {
    forall k: nat :: k < |items| ==> Name(k) in symbols
  }

  /** The addresses of the labels, line by line. */
  ghost function Snapshot(items: seq<Item>, symbols: map<string, Sym>): (prior: seq<int>)
    requires Labelled(items, symbols)
    ensures |prior| == |items| && forall k: nat :: k < |items| ==> prior[k] == symbols[Name(k)].address
  {
    seq(|items|, k requires 0 <= k < |items| => symbols[Name(k)].address)
  }

  // ---- where a pass puts them ----

  /** encode_jmp and encode_jcc choose the short form for a label believed at target. */
  predicate Short(at: int, target: int, forward: bool) {
    (forward || target < at) && FitsInt8(target - (at + 2))
  }

  function Near(op: Op): nat { if op.Jmp? then 5 else 6 }

  function Size(item: Item, at: int, target: int, forward: bool): (size: nat)
    requires Made(item, 60)
    ensures size <= 256
  {
    match item
    case Pad(size) => size
    case AlignTo(n) => AlignPad(at, n)
    case Go(op, _) => if Short(at, target, forward) then 2 else Near(op)
    case Mark => 0
  }

  function AlignPad(at: int, n: nat): (size: nat)
    requires n == 16 || n == 128 || n == 256
    ensures size < 256
  {
    Padding(at, n);
    L.AlignUp(at, n) - at
  }

  lemma Padding(at: int, n: nat)
    requires n > 0
    ensures 0 <= L.AlignUp(at, n) - at < n
  {
    hide L.AlignUp;
    L.AlignLeast(at, n);
  }

  /** Where the pass meets line n, given where the labels were before. */
  ghost function Place(items: seq<Item>, n: nat, prior: seq<int>, forward: bool): (at: int)
    requires WellMade(items) && n <= |items| == |prior|
    ensures L.BASE <= at <= L.BASE + 256 * n
    decreases n, 0
  {
    if n == 0 then L.BASE
    else
      var at := Place(items, n - 1, prior, forward);
      at + Size(items[n - 1], at, Aim(items, n - 1, prior, forward), forward)
  }

  /** Where the branch of line n believes its label: behind it as this pass put it, ahead of it as it was before. */
  ghost function Aim(items: seq<Item>, n: nat, prior: seq<int>, forward: bool): int
    requires WellMade(items) && n < |items| == |prior|
    decreases n, 1
  {
    match items[n]
    case Go(_, to) => if to <= n then Place(items, to, prior, forward) else prior[to]
    case _ => 0
  }

  /** From one line to the next. */
  lemma NextPlace(items: seq<Item>, n: nat, prior: seq<int>, forward: bool)
    requires WellMade(items) && n < |items| == |prior|
    ensures var at := Place(items, n, prior, forward); var next := Place(items, n + 1, prior, forward);
      match items[n]
      case Pad(size) => next == at + size
      case AlignTo(k) => next == L.AlignUp(at, k)
      case Go(op, to) => next == at + (if Short(at, Aim(items, n, prior, forward), forward) then 2 else Near(op))
      case Mark => next == at
    ensures items[n].Go? && items[n].to > n ==> Aim(items, n, prior, forward) == prior[items[n].to]
    ensures items[n] == Go(Jmp, n) ==> Aim(items, n, prior, forward) == Place(items, n, prior, forward)
  {
    hide Short, L.AlignUp;
    assert Made(items[n], |items|);
  }

  // ---- one statement ----

  /** A state of the passes over these programs: in the text, with room left. */
  ghost predicate Going(st: L.PassState, at: int) {
    !st.inData && L.Here(st) == at && |L.Fixups(st.chunks)| <= |st.chunks| <= 60 && at <= L.BASE + 256 * |st.chunks|
  }

  lemma GoingHere(st: L.PassState, at: int)
    requires Going(st, at)
    ensures L.Here(st) == at && !st.inData
  {
  }

  /** The chunk a round appends. */
  function Last(st: L.PassState): L.Chunk
    requires st.chunks != []
  {
    st.chunks[|st.chunks| - 1]
  }

  lemma Appended(st: L.PassState, s: Statement, e: Emission, symbols: map<string, Sym>, changed: bool)
    requires Going(st, L.Here(st)) && |st.chunks| < 60 && |e.bytes| <= 256
    ensures var st' := L.PassState(false, symbols, st.chunks + [L.Chunk(L.Here(st), s, e)], changed);
      Going(st', L.Here(st) + |e.bytes|) && Last(st').e == e
  {
    hide L.Text;
    L.TextAppend(st.chunks, L.Chunk(L.Here(st), s, e));
    assert (st.chunks + [L.Chunk(L.Here(st), s, e)])[..|st.chunks|] == st.chunks;
  }

  /** What a line emits. */
  function LineEmission(item: Item, at: int, target: int, forward: bool): Emission
    requires item.Go?
  {
    if Short(at, target, forward) then Plain([ShortOpcode(item.op), (target - (at + 2)) % 256])
    else NearBranch(NearOpcode(item.op), Name(item.to))
  }

  lemma BranchStep(item: Item, k: nat, forward: bool, st: L.PassState)
    requires Made(item, 60) && item.Go? && Going(st, L.Here(st)) && |st.chunks| < 60
    requires Name(item.to) in st.symbols
    ensures var s, at, l := Line(item, k), L.Here(st), Name(item.to); var r := L.Step(s, forward, st);
      var e := LineEmission(item, at, Moved(st.symbols, Name(k), at)[l].address, forward);
      r.Some? && Going(r.value, at + |e.bytes|) && |r.value.chunks| == |st.chunks| + 1 && Last(r.value).e == e
  {
    hide L.Text, L.Fixups, L.Addresses, ShortOpcode, NearOpcode, Dispatch, Encode, Le;
    var s, at := Line(item, k), L.Here(st);
    var symbols := Moved(st.symbols, Name(k), at);
    var env := Env(at, L.Addresses(symbols), forward);
    AddressKnown(symbols, Name(item.to));
    NoPrefix(s.body.inst, env);
    BranchEmission(s.body.inst, env);
    BranchSize(item, at, symbols[Name(item.to)].address, forward);
    var e := Encode(s.body.inst, env).value;
    assert !L.LabelOnly(s);
    assert L.Emitted(s, env, L.CAPACITY - |L.Text(st.chunks)|) == Some(e);
    Appended(st, s, e, symbols, L.Step(s, forward, st).value.changed);
  }

  lemma AddressKnown(symbols: map<string, Sym>, l: string)
    requires l in symbols
    ensures l in L.Addresses(symbols) && L.Addresses(symbols)[l] == symbols[l].address
  {
  }

  lemma BranchSize(item: Item, at: int, target: int, forward: bool)
    requires Made(item, 60) && item.Go?
    ensures |LineEmission(item, at, target, forward).bytes| == Size(item, at, target, forward)
  {
    hide Short, ShortOpcode;
  }

  /** Lines that are no branches. */
  lemma PlainStep(item: Item, k: nat, forward: bool, st: L.PassState)
    requires Made(item, 60) && !item.Go? && Going(st, L.Here(st)) && |st.chunks| < 60
    ensures var r := L.Step(Line(item, k), forward, st);
      && r.Some? && Going(r.value, L.Here(st) + Size(item, L.Here(st), 0, forward))
      && |r.value.chunks| == |st.chunks| + 1 && Last(r.value).e.field == None
  {
    hide L.Text, L.Fixups, L.Addresses, L.Emitted, Line, Size;
    var s, at := Line(item, k), L.Here(st);
    var symbols := Moved(st.symbols, Name(k), at);
    var env := Env(at, L.Addresses(symbols), forward);
    var room := L.CAPACITY - |L.Text(st.chunks)|;
    PlainEmission(item, k, env, room);
    Appended(st, s, L.Emitted(s, env, room).value, symbols, L.Step(s, forward, st).value.changed);
  }

  lemma PlainEmission(item: Item, k: nat, env: Env, room: int)
    requires Made(item, 60) && !item.Go? && room >= 256
    ensures var s := Line(item, k); var e := L.Emitted(s, env, room);
      && s.lbl == Name(k) && !s.body.Section?
      && e.Some? && e.value.field == None && |e.value.bytes| == Size(item, env.at, 0, env.forward)
  {
    hide L.AlignUp;
    Powers();
    L.AlignLeast(env.at, 16);
    L.AlignLeast(env.at, 128);
    L.AlignLeast(env.at, 256);
  }

  lemma Powers()
    ensures L.PowerOfTwo(16) && L.PowerOfTwo(128) && L.PowerOfTwo(256)
  {
    assert L.PowerOfTwo(1) && L.PowerOfTwo(2) && L.PowerOfTwo(4) && L.PowerOfTwo(8) && L.PowerOfTwo(32);
    assert L.PowerOfTwo(64);
  }

  // ---- the labels ----

  lemma Names(j: nat, k: nat)
    ensures Name(j) == Name(k) <==> j == k
  {
    assert |Name(j)| == j + 1 && |Name(k)| == k + 1;
  }

  lemma {:induction false} AllText(items: seq<Item>, n: nat)
    requires n <= |items|
    ensures !L.DataAfter(Written(items), n) && L.TextStatements(Written(items), n) == Written(items)[..n]
  {
    hide Written;
    if n > 0 {
      AllText(items, n - 1);
      assert !Written(items)[n - 1].body.Section?;
      assert Written(items)[..n - 1] + [Written(items)[n - 1]] == Written(items)[..n];
    }
  }

  /** Line k defines its own name and no other. */
  lemma DefinesExactly(items: seq<Item>, k: nat, l: string)
    ensures L.Defines(Written(items), k, l) <==> k < |items| && l == Name(k)
  {
    hide Written;
    if k < |items| {
      AllText(items, k);
    }
  }

  lemma Distinct(items: seq<Item>)
    ensures L.DistinctLabels(Written(items))
  {
    hide Written, L.Defines, Name;
    forall j: nat, k: nat, l | L.Defines(Written(items), j, l) && L.Defines(Written(items), k, l)
      ensures j == k
    {
      DefinesExactly(items, j, l);
      DefinesExactly(items, k, l);
      Names(j, k);
    }
  }

  /** The branches to lines further down, among the first n lines. */
  function AheadCount(items: seq<Item>, n: nat): nat
    requires n <= |items|
  {
    if n == 0 then 0
    else AheadCount(items, n - 1) + (if items[n - 1].Go? && items[n - 1].to >= n then 1 else 0)
  }

  lemma {:induction false} ForwardCount(items: seq<Item>, n: nat)
    requires WellMade(items) && n <= |items|
    ensures R.ForwardBranches(Written(items), n) == AheadCount(items, n)
  {
    hide Written, R.ForwardBranch;
    if n > 0 {
      ForwardCount(items, n - 1);
      ForwardLine(items, n - 1);
    }
  }

  lemma ForwardLine(items: seq<Item>, n: nat)
    requires WellMade(items) && n < |items|
    ensures R.ForwardBranch(Written(items), n) <==> items[n].Go? && items[n].to > n
  {
    hide Written, L.Defines, L.DataAfter, Name;
    AllText(items, n);
    assert Made(items[n], |items|);
    if items[n].Go? {
      var to := items[n].to;
      assert Written(items)[n] == Line(items[n], n) && R.BranchLabel(Line(items[n], n)) == Some(Name(to));
      DefinesExactly(items, to, Name(to));
      assert L.Defines(Written(items), to, Name(to));
      forall k: nat | k > n && L.Defines(Written(items), k, Name(to))
        ensures k == to
      {
        DefinesExactly(items, k, Name(to));
        Names(k, to);
      }
    }
  }

  // ---- one pass ----

  /** What line n emits in a pass. */
  ghost predicate Emits(items: seq<Item>, n: nat, prior: seq<int>, forward: bool, e: Emission)
    requires WellMade(items) && n < |items| == |prior|
  {
    if items[n].Go? then
      e == LineEmission(items[n], Place(items, n, prior, forward), Aim(items, n, prior, forward), forward)
    else e.field == None
  }

  /** A pass lays the program out as Place says, whatever addresses it starts from. */
  lemma {:induction false} RunPlace(items: seq<Item>, n: nat, symbols: map<string, Sym>, forward: bool)
    requires WellMade(items) && n <= |items| && Labelled(items, symbols)
    ensures var r, prior := L.Run(Written(items), n, forward, symbols), Snapshot(items, symbols);
      && r.Some? && |r.value.chunks| == n && Going(r.value, Place(items, n, prior, forward))
      && (n > 0 ==> Emits(items, n - 1, prior, forward, Last(r.value).e))
    decreases n
  {
    hide L.Step, L.Here, Written, Going, Emits, Labelled, Snapshot, Size, Aim, Line;
    if n > 0 {
      RunPlace(items, n - 1, symbols, forward);
      forall k: nat | k < n
        ensures var r := L.Run(Written(items), k, forward, symbols);
          r.Some? && L.Here(r.value) == Place(items, k, Snapshot(items, symbols), forward)
      {
        RunPlace(items, k, symbols, forward);
        GoingHere(L.Run(Written(items), k, forward, symbols).value, Place(items, k, Snapshot(items, symbols), forward));
      }
      NextLine(items, n - 1, symbols, forward, L.Run(Written(items), n - 1, forward, symbols).value);
    } else {
      GoingFirst(symbols);
    }
  }

  lemma GoingFirst(symbols: map<string, Sym>)
    ensures Going(L.PassState(false, symbols, [], false), L.BASE)
  {
    assert L.Text([]) == [] && L.Fixups([]) == [];
  }

  lemma NextLine(items: seq<Item>, n: nat, symbols: map<string, Sym>, forward: bool, st: L.PassState)
    requires WellMade(items) && n < |items| && Labelled(items, symbols)
    requires L.Run(Written(items), n, forward, symbols) == Some(st) && |st.chunks| == n
    requires Going(st, Place(items, n, Snapshot(items, symbols), forward))
    requires forall k: nat :: k <= n ==>
      var r := L.Run(Written(items), k, forward, symbols);
      r.Some? && L.Here(r.value) == Place(items, k, Snapshot(items, symbols), forward)
    ensures var r, prior := L.Step(Line(items[n], n), forward, st), Snapshot(items, symbols);
      && r.Some? && |r.value.chunks| == n + 1
      && Going(r.value, Place(items, n, prior, forward)
                        + Size(items[n], Place(items, n, prior, forward), Aim(items, n, prior, forward), forward))
      && Emits(items, n, prior, forward, Last(r.value).e)
  {
    hide L.Step, L.Run, Written, Going, LineEmission, Size, Aim, Place;
    var prior := Snapshot(items, symbols);
    var at, aim := Place(items, n, prior, forward), Aim(items, n, prior, forward);
    GoingHere(st, at);
    assert Made(items[n], |items|);
    if items[n].Go? {
      Aimed(items, n, symbols, forward, st);
      BranchStep(items[n], n, forward, st);
      BranchSize(items[n], at, aim, forward);
    } else {
      PlainStep(items[n], n, forward, st);
      PlainSize(items[n], at, aim, forward);
    }
  }

  lemma PlainSize(item: Item, at: int, target: int, forward: bool)
    requires Made(item, 60) && !item.Go?
    ensures Size(item, at, target, forward) == Size(item, at, 0, forward)
  {
  }

  /** What the branch of line n is encoded against. */
  lemma Aimed(items: seq<Item>, n: nat, symbols: map<string, Sym>, forward: bool, st: L.PassState)
    requires WellMade(items) && n < |items| && Labelled(items, symbols) && items[n].Go?
    requires L.Run(Written(items), n, forward, symbols) == Some(st) && items[n].to < |items|
    requires forall k: nat :: k <= n ==>
      var r := L.Run(Written(items), k, forward, symbols);
      r.Some? && L.Here(r.value) == Place(items, k, Snapshot(items, symbols), forward)
    ensures var l := Name(items[n].to);
      && l in st.symbols
      && Moved(st.symbols, Name(n), L.Here(st))[l].address == Aim(items, n, Snapshot(items, symbols), forward)
  {
    hide L.Run, Written, L.Defines, Place, L.Here, Name;
    var to := items[n].to;
    L.RunSection(Written(items), n, forward, symbols);
    Names(n, to);
    if to < n {
      Distinct(items);
      DefinesExactly(items, to, Name(to));
      L.LabelAddress(Written(items), n, forward, symbols, to);
    } else {
      forall k: nat | k < n
        ensures !L.Defines(Written(items), k, Name(to))
      {
        DefinesExactly(items, k, Name(to));
        Names(k, to);
      }
      L.OtherLabel(Written(items), n, forward, symbols, Name(to));
    }
  }

  /** The places of all lines after a pass. */
  ghost function Next(items: seq<Item>, prior: seq<int>, forward: bool): (places: seq<int>)
    requires WellMade(items) && |items| == |prior|
    ensures |places| == |items| && forall k: nat :: k < |items| ==> places[k] == Place(items, k, prior, forward)
  {
    seq(|items|, k requires 0 <= k < |items| => Place(items, k, prior, forward))
  }

  /** The table after a pass is a function of the table before it, and the pass reports it when they differ. */
  lemma PassPlaces(items: seq<Item>, symbols: map<string, Sym>, forward: bool)
    requires WellMade(items) && Labelled(items, symbols)
    ensures var r := L.Pass(Written(items), forward, symbols);
      && r.Some? && r.value.symbols.Keys == symbols.Keys && Labelled(items, r.value.symbols)
      && Snapshot(items, r.value.symbols) == Next(items, Snapshot(items, symbols), forward)
      && (Snapshot(items, r.value.symbols) != Snapshot(items, symbols) ==> r.value.changed)
  {
    hide L.Run, Written, L.Defines, L.Here, Place, Name;
    RunPlace(items, |items|, symbols, forward);
    Distinct(items);
    L.RunSection(Written(items), |items|, forward, symbols);
    var after := L.Pass(Written(items), forward, symbols).value;
    forall k: nat | k < |items|
      ensures after.symbols[Name(k)].address == Place(items, k, Snapshot(items, symbols), forward)
    {
      RunPlace(items, k, symbols, forward);
      GoingHere(L.Run(Written(items), k, forward, symbols).value, Place(items, k, Snapshot(items, symbols), forward));
      DefinesExactly(items, k, Name(k));
      L.LabelAddress(Written(items), |items|, forward, symbols, k);
    }
    if !after.changed {
      L.Unchanged(Written(items), |items|, forward, symbols);
    }
  }

  // ---- the assembled text ----

  lemma {:induction false} NoData(items: seq<Item>, n: nat, textSize: nat, symbols: map<string, Sym>)
    requires n <= |items|
    ensures DataRun(Written(items), n, textSize, symbols) == Some(DataState(false, symbols, []))
  {
    hide Written;
    if n > 0 {
      NoData(items, n - 1, textSize, symbols);
      assert !Written(items)[n - 1].body.Section?;
    }
  }

  lemma SectionApart(items: seq<Item>)
    ensures SectionsApart(Written(items))
  {
    hide Written;
    forall j: nat, k: nat, l | L.Defines(Written(items), j, l) && DataDefines(Written(items), k, l)
      ensures false
    {
      AllText(items, k);
    }
  }

  /** What a pass emitted for line k. */
  lemma ChunkEmits(items: seq<Item>, k: nat, symbols: map<string, Sym>, forward: bool)
    requires WellMade(items) && k < |items| && Labelled(items, symbols)
    ensures L.Pass(Written(items), forward, symbols).Some?
    ensures var cs := L.Pass(Written(items), forward, symbols).value.chunks;
      && |cs| == |items| && cs[k].stmt == Line(items[k], k)
      && Emits(items, k, Snapshot(items, symbols), forward, cs[k].e)
  {
    hide L.Run, Written, Place, Emits, Labelled, Going, Line;
    AllText(items, |items|);
    RunPlace(items, k + 1, symbols, forward);
    RunPlace(items, |items|, symbols, forward);
    L.RunStatements(Written(items), |items|, forward, symbols);
    L.RunMonotone(Written(items), k + 1, |items|, forward, symbols);
    assert L.Statements(L.Pass(Written(items), forward, symbols).value.chunks)[k] == Written(items)[k];
  }

  /** Every field of such a pass can be resolved. */
  lemma Resolves(items: seq<Item>, symbols: map<string, Sym>, forward: bool, addresses: map<string, int>)
    requires WellMade(items) && Labelled(items, symbols)
    requires forall k: nat :: k < |items| ==>
      Name(k) in addresses && L.BASE <= addresses[Name(k)] <= L.BASE + L.CAPACITY
    ensures L.Pass(Written(items), forward, symbols).Some?
    ensures var cs := L.Pass(Written(items), forward, symbols).value.chunks;
      F.Resolve(L.Text(cs), L.Fixups(cs), addresses).Some?
  {
    hide L.Run, L.Text, L.Fixups, Written, Labelled, Emits, F.Resolve, L.Placed, Linkable, Start, Line, Name;
    RunPlace(items, |items|, symbols, forward);
    L.RunPlaced(Written(items), |items|, forward, symbols);
    var cs := L.Pass(Written(items), forward, symbols).value.chunks;
    forall k | 0 <= k < |cs|
      ensures Linkable(cs[k], addresses)
    {
      ChunkEmits(items, k, symbols, forward);
      PlacedAt(cs, k);
      StartInside(cs, k);
      BranchLinkable(items, k, Snapshot(items, symbols), forward, cs[k], addresses);
    }
    ResolvesLinkable(cs, addresses);
  }

  lemma BranchLinkable(items: seq<Item>, k: nat, prior: seq<int>, forward: bool, c: Chunk, addresses: map<string, int>)
    requires WellMade(items) && k < |items| == |prior| && Emits(items, k, prior, forward, c.e)
    requires L.FieldInside(c.e) && L.BASE <= c.at <= L.BASE + L.CAPACITY
    requires forall j: nat :: j < |items| ==>
      Name(j) in addresses && L.BASE <= addresses[Name(j)] <= L.BASE + L.CAPACITY
    ensures Linkable(c, addresses)
  {
    hide Short, ShortOpcode, Place, Aim, Name, Le, Signed, CondCode;
    assert Made(items[k], |items|);
    if c.e.field.Some? {
      NearField(NearOpcode(items[k].op));
      SignedLe32(0);
    }
  }

  lemma NearField(opcode: seq<byte>)
    ensures (opcode + Le(0, 4))[|opcode|..|opcode| + 4] == Le(0, 4)
  {
    hide Le;
  }

  lemma {:induction false} LoopSucceeds(items: seq<Item>, forward: bool, symbols: map<string, Sym>, n: nat)
    requires WellMade(items) && Labelled(items, symbols) && n > 0
    ensures PassLoop(Written(items), forward, symbols, n).Some?
    ensures Labelled(items, PassLoop(Written(items), forward, symbols, n).value.symbols)
    decreases n
  {
    hide L.Pass, Written, Labelled;
    PassPlaces(items, symbols, forward);
    if n > 1 {
      LoopSucceeds(items, forward, L.Pass(Written(items), forward, symbols).value.symbols, n - 1);
    }
  }

  /** These programs are always assembled; what they leave in the table is what the kept pass put there. */
  lemma Assembles(items: seq<Item>, symbols: map<string, Sym>)
    requires WellMade(items) && Labelled(items, symbols)
    ensures TextPasses(Written(items), symbols).Some? && Assemble(Written(items), symbols).Some?
    ensures var t := TextPasses(Written(items), symbols).value;
      && Assemble(Written(items), symbols).value.symbols == t.st.symbols && Labelled(items, t.st.symbols)
      && Labelled(items, KeptFrom(Written(items), symbols))
      && Snapshot(items, t.st.symbols) == Next(items, Snapshot(items, KeptFrom(Written(items), symbols)), t.forward)
  {
    hide PassLoop, KeptFrom, Written, DataRun, F.Resolve, L.Run, L.Text, L.Fixups, Name;
    LoopSucceeds(items, true, symbols, MAX_PASSES);
    LoopSucceeds(items, false, PassLoop(Written(items), true, symbols, MAX_PASSES).value.symbols, MAX_PASSES);
    TextsFromPass(Written(items), symbols);
    var t, from := TextPasses(Written(items), symbols).value, KeptFrom(Written(items), symbols);
    PassPlaces(items, from, t.forward);
    NoData(items, |items|, |L.Text(t.st.chunks)|, t.st.symbols);
    var addresses := L.Addresses(t.st.symbols);
    forall k: nat | k < |items|
      ensures Name(k) in addresses && L.BASE <= addresses[Name(k)] <= L.BASE + L.CAPACITY
    {
      assert Snapshot(items, t.st.symbols)[k] == Place(items, k, Snapshot(items, from), t.forward);
    }
    Resolves(items, from, t.forward, addresses);
  }

  /** The branch of line n reaches its label unless it was kept short for a label ahead that moved in the last pass. */
  lemma GoReaches(items: seq<Item>, symbols: map<string, Sym>, n: nat)
    requires WellMade(items) && Labelled(items, symbols) && n < |items| && items[n].Go?
    ensures Assemble(Written(items), symbols).Some? && Labelled(items, KeptFrom(Written(items), symbols))
    ensures Labelled(items, Assemble(Written(items), symbols).value.symbols)
    ensures TextBranch(Written(items), n)
    ensures var t, to := TextPasses(Written(items), symbols).value, items[n].to;
      var from := Snapshot(items, KeptFrom(Written(items), symbols));
      var after := Snapshot(items, Assemble(Written(items), symbols).value.symbols);
      && to < |items|
      && (Reaches(Written(items), symbols, n)
          <==> (n < to && Short(Place(items, n, from, t.forward), from[to], t.forward) ==> from[to] == after[to]))
  {
    hide Assemble, TextPasses, KeptFrom, Written, L.Run, Place, Reaches, L.Defines, L.TextStatements, Name, Short;
    Assembles(items, symbols);
    assert Made(items[n], |items|);
    AllText(items, n);
    Distinct(items);
    SectionApart(items);
    var to := items[n].to;
    DefinesExactly(items, to, Name(to));
    KeysOf(items, symbols);
    BranchReaches(Written(items), symbols, n, to);
    var t, from := TextPasses(Written(items), symbols).value, KeptFrom(Written(items), symbols);
    TextsFromPass(Written(items), symbols);
    ChunkEmits(items, n, from, t.forward);
    if n < to {
      ShortChunk(items, n, Snapshot(items, from), t.forward, t.st.chunks[n]);
    }
  }

  lemma KeysOf(items: seq<Item>, symbols: map<string, Sym>)
    requires Labelled(items, symbols)
    ensures forall k: nat :: k < |items| ==> Name(k) in symbols
  {
  }

  lemma ShortChunk(items: seq<Item>, n: nat, prior: seq<int>, forward: bool, c: Chunk)
    requires WellMade(items) && n < |items| == |prior| && items[n].Go? && n < items[n].to < |items|
    requires Emits(items, n, prior, forward, c.e) && c.stmt == Line(items[n], n)
    ensures ShortBranch(c) <==> Short(Place(items, n, prior, forward), prior[items[n].to], forward)
  {
    hide Short, Place;
    assert Made(items[n], |items|);
  }
}
