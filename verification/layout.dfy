// One pass over the text section: label addresses move to where the pass meets them, and each
// statement appends its bytes. The pass is a state machine over the statements of the program.

module Layout {
  import opened Bytes
  import opened Operands
  import opened Encoding
  import opened Symbols

  const BASE: int := 0x40_0000
  const CAPACITY: nat := 1024 * 1024

  // A data item is one value; a string literal counts one item per character.
  datatype Body =
    | Inst(inst: Instruction)
    | Align(n: int)
    | Data(width: nat, items: seq<int>)
    | Reserve(width: nat, count: int)
    | Section(isData: bool)

  // lbl is empty for a statement without a label.
  datatype Statement = Statement(lbl: string, body: Body, line: int)

  /** A labelled nop without operands is how the parser writes a line that holds only a label. */
  predicate LabelOnly(s: Statement) {
    s.lbl != "" && s.body == Inst(Instruction(Nop, []))
  }

  // ---- powers of two ----

  predicate PowerOfTwo(n: int)
    decreases n
  {
    n == 1 || (n > 1 && n % 2 == 0 && PowerOfTwo(n / 2))
  }

  /** (a + n - 1) & ~(n - 1) for a power of two n */
  function AlignUp(a: int, n: int): int
    requires n > 0
  {
    (a + n - 1) / n * n
  }

  // ---- the mask forms of the sources ----

  /** The bits set in both a and b. */
  function BitAnd(a: nat, b: nat): nat {
    if a == 0 || b == 0 then 0 else a % 2 * (b % 2) + 2 * BitAnd(a / 2, b / 2)
  }

  function Pow2(w: nat): (p: nat)
    ensures p >= 1
  {
    if w == 0 then 1 else 2 * Pow2(w - 1)
  }

  lemma {:induction false} AndSelf(a: nat)
    ensures BitAnd(a, a) == a
  {
    if a > 0 {
      AndSelf(a / 2);
      BitSquare(a % 2);
      assert BitAnd(a, a) == a % 2 * (a % 2) + 2 * BitAnd(a / 2, a / 2);
      hide BitAnd;
    }
  }

  lemma BitSquare(d: int)
    requires d == 0 || d == 1
    ensures d * d == d
  {
  }

  /** alignment > 0 && (alignment & (alignment - 1)) == 0 is true of the powers of two and of nothing else. */
  lemma {:induction false} PowerTest(a: int)
    ensures PowerOfTwo(a) <==> a > 0 && BitAnd(a, a - 1) == 0
    decreases a
  {
    if a > 1 {
      if a % 2 == 0 {
        PowerTest(a / 2);
        assert (a - 1) / 2 == a / 2 - 1 && (a - 1) % 2 == 1;
      } else {
        assert (a - 1) / 2 == a / 2 && (a - 1) % 2 == 0;
        AndSelf(a / 2);
      }
    }
  }

  /** All w bits set keep every value of w bits. */
  lemma {:induction false} AndOnes(x: nat, w: nat)
    requires x < Pow2(w)
    ensures BitAnd(x, Pow2(w) - 1) == x
    decreases w
  {
    if w > 0 && x > 0 {
      AndOnes(x / 2, w - 1);
      assert (Pow2(w) - 1) / 2 == Pow2(w - 1) - 1 && (Pow2(w) - 1) % 2 == 1;
    }
  }

  /** Masking with ~(n - 1), in w bits, rounds down to a multiple of n when n is a power of two. */
  lemma {:induction false} MaskRounds(x: nat, n: int, w: nat)
    requires PowerOfTwo(n) && n <= Pow2(w) && x < Pow2(w)
    ensures BitAnd(x, Pow2(w) - 1 - (n - 1)) == x / n * n
    decreases w
  {
    if n == 1 {
      AndOnes(x, w);
    } else {
      var h := n / 2;
      var m := Pow2(w) - 1 - (n - 1);
      MaskRounds(x / 2, h, w - 1);
      assert m / 2 == Pow2(w - 1) - 1 - (h - 1) && m % 2 == 0;
      assert BitAnd(x, m) == 2 * BitAnd(x / 2, m / 2);
      HalfTwice(x, h);
    }
  }

  lemma HalfTwice(x: nat, h: int)
    requires h > 0
    ensures 2 * (x / 2 / h * h) == x / (2 * h) * (2 * h)
  {
    var q := x / 2 / h;
    assert x / 2 == q * h + x / 2 % h;
    assert x == 2 * (x / 2) + x % 2;
    assert x - q * (2 * h) == 2 * (x / 2 % h) + x % 2;
    QuotientIs(x, 2 * h, q);
  }

  lemma QuotientIs(x: nat, n: int, q: int)
    requires n > 0 && 0 <= x - q * n < n
    ensures x / n == q
  {
    assert x == x / n * n + x % n;
    assert (x / n - q) * n == x - q * n - x % n;
    MultipleInRange((x / n - q) * n, x / n - q, n);
  }

  /** (addr + n - 1) & ~(n - 1) on w bits is AlignUp, as long as the sum does not wrap; the sources have w at 64. */
  lemma AlignMask(a: nat, n: int, w: nat)
    requires PowerOfTwo(n) && a + n - 1 < Pow2(w)
    ensures n > 0 && BitAnd(a + n - 1, Pow2(w) - 1 - (n - 1)) == AlignUp(a, n)
  {
    assert n > 0;
    hide Pow2, BitAnd, PowerOfTwo;
    MaskRounds(a + n - 1, n, w);
  }

  // ---- align, data, reserve ----

  /** The least multiple of n at or above a, less than n away. */
  lemma AlignLeast(a: int, n: int)
    requires n > 0
    ensures 0 <= AlignUp(a, n) - a < n
    ensures AlignUp(a, n) % n == 0
    ensures forall k: int :: k * n >= a ==> k * n >= AlignUp(a, n)
  {
    var q := (a + n - 1) / n;
    assert q * n + (a + n - 1) % n == a + n - 1;
    assert (q * n) % n == 0 by { MultipleMod(q, n); }
    forall k: int | k * n >= a
      ensures k * n >= q * n
    {
      if k < q {
        MulLeast(k, q - 1, n);
      }
    }
  }

  lemma MulLeast(x: int, y: int, n: int)
    requires x <= y && n > 0
    ensures x * n <= y * n
  {
  }

  lemma MultipleMod(q: int, n: int)
    requires n > 0
    ensures (q * n) % n == 0
  {
    var r := (q * n) % n;
    assert q * n == (q * n) / n * n + r;
    assert r == (q - (q * n) / n) * n;
    MultipleInRange(r, q - (q * n) / n, n);
  }

  function Repeat(b: byte, n: nat): (s: seq<byte>)
    ensures |s| == n && forall k :: 0 <= k < n ==> s[k] == b
  {
    seq(n, _ => b)
  }

  function Items(width: nat, items: seq<int>): seq<byte> {
    if items == [] then [] else Items(width, items[..|items| - 1]) + Le(items[|items| - 1], width)
  }

  /** Item k of a data directive stands little-endian at its own offset. */
  lemma {:induction false} ItemBytes(width: nat, items: seq<int>, k: nat)
    requires k < |items|
    ensures |Items(width, items)| == |items| * width
    ensures k * width + width <= |items| * width
      && Items(width, items)[k * width..k * width + width] == Le(items[k], width)
    decreases |items|
  {
    hide Le;
    var n := |items| - 1;
    var rest := items[..n];
    ItemsLength(width, rest);
    ItemsLength(width, items);
    ProductOrder(k, n, width);
    var p, a, b := k * width, Items(width, rest), Le(items[n], width);
    assert Items(width, items) == a + b;
    hide Items;
    if k < n {
      ItemBytes(width, rest, k);
      SliceFront(a, b, p, width);
    } else {
      SliceBack(a, b);
    }
  }

  lemma SliceFront(a: seq<byte>, b: seq<byte>, p: nat, w: nat)
    requires p + w <= |a|
    ensures (a + b)[p..p + w] == a[p..p + w]
  {
  }

  lemma SliceBack(a: seq<byte>, b: seq<byte>)
    ensures (a + b)[|a|..|a| + |b|] == b
  {
  }

  lemma ProductOrder(k: nat, n: nat, width: nat)
    requires k <= n
    ensures (n + 1) * width == n * width + width && k * width <= n * width
    ensures k < n ==> k * width + width <= n * width
  {
    if k < n {
      assert n * width == (k + 1) * width + (n - k - 1) * width;
    } else {
      assert k * width == n * width;
    }
  }

  lemma {:induction false} ItemsLength(width: nat, items: seq<int>)
    ensures |Items(width, items)| == |items| * width
    decreases |items|
  {
    hide Le;
    if items != [] {
      var n := |items| - 1;
      ItemsLength(width, items[..n]);
      assert n * width + width == |items| * width;
    }
  }

  /** Emissions whose failure the C code ignores stop silently at the end of the section. */
  function Fitting(s: seq<byte>, room: int): (r: seq<byte>)
    ensures r <= s
  {
    if room >= |s| then s else if room > 0 then s[..room] else []
  }

  /** What a directive appends at address at; fill is the padding byte of the section. */
  function DirectiveBytes(b: Body, at: int, fill: byte): Option<seq<byte>> {
    match b
    case Align(n) =>
      var n32 := ToInt32(n);
      if PowerOfTwo(n32) then
        AlignLeast(at, n32);
        Some(Repeat(fill, AlignUp(at, n32) - at))
      else None
    case Data(width, items) => Some(Items(width, items))
    case Reserve(width, count) => Some(if count < 0 then [] else Repeat(0, count * width))
    case _ => Some([])
  }

  // ---- one statement ----

  /** What the text pass appends for a statement, None when assembly fails there. */
  function Emitted(s: Statement, env: Env, room: int): Option<Emission> {
    if LabelOnly(s) then Some(Plain([]))
    else
      match s.body
      case Inst(i) =>
        var e :- Encode(i, env);
        if |e.bytes| <= room then Some(e) else None
      case _ =>
        var bytes :- DirectiveBytes(s.body, env.at, 0x90);
        Some(Plain(Fitting(bytes, room)))
  }

  // One executed statement: where it stands and what it appended.
  datatype Chunk = Chunk(at: int, stmt: Statement, e: Emission)

  // A fixup as the fixup list keeps it: location is the address of the field.
  datatype Fixup = Fixup(lbl: string, location: int, size: nat, relative: bool)

  function Text(cs: seq<Chunk>): seq<byte> {
    if cs == [] then [] else Text(cs[..|cs| - 1]) + cs[|cs| - 1].e.bytes
  }

  function FixupOf(c: Chunk): Fixup
    requires c.e.field.Some?
  {
    Fixup(c.e.field.value.lbl, c.at + c.e.field.value.offset, c.e.field.value.size, c.e.field.value.relative)
  }

  function Fixups(cs: seq<Chunk>): seq<Fixup> {
    if cs == [] then []
    else
      var c := cs[|cs| - 1];
      Fixups(cs[..|cs| - 1]) + (if c.e.field.Some? then [FixupOf(c)] else [])
  }

  const MAX_LINE_MAP: nat := 8192

  /** The line map: every statement but label-only lines, as long as there is room. */
  function LineMap(cs: seq<Chunk>): seq<(int, int)> {
    if cs == [] then []
    else
      var rows, c := LineMap(cs[..|cs| - 1]), cs[|cs| - 1];
      if LabelOnly(c.stmt) || |rows| >= MAX_LINE_MAP then rows
      else rows + [(c.at, if c.stmt.line > 0 then c.stmt.line else 1)]
  }

  /** The number of rows the first n chunks ask for. */
  function Rows(cs: seq<Chunk>, n: nat): nat
    requires n <= |cs|
  {
    if n == 0 then 0 else Rows(cs, n - 1) + (if LabelOnly(cs[n - 1].stmt) then 0 else 1)
  }

  /** Row by row: each statement that is no lone label has its address and its line, while there is room. */
  lemma {:induction false} LineMapRows(cs: seq<Chunk>, k: nat)
    requires k < |cs|
    ensures |LineMap(cs)| == (if Rows(cs, |cs|) < MAX_LINE_MAP then Rows(cs, |cs|) else MAX_LINE_MAP)
    ensures Rows(cs, k) <= Rows(cs, |cs|)
    ensures !LabelOnly(cs[k].stmt) && Rows(cs, k) < MAX_LINE_MAP ==>
      Rows(cs, k) < |LineMap(cs)|
      && LineMap(cs)[Rows(cs, k)] == (cs[k].at, if cs[k].stmt.line > 0 then cs[k].stmt.line else 1)
  {
    var n := |cs| - 1;
    RowsInit(cs, n, n);
    if k < n {
      RowsInit(cs, n, k);
      LineMapRows(cs[..n], k);
    } else if n > 0 {
      LineMapRows(cs[..n], 0);
    }
  }

  lemma {:induction false} RowsInit(cs: seq<Chunk>, n: nat, k: nat)
    requires k <= n <= |cs|
    ensures Rows(cs[..n], k) == Rows(cs, k)
  {
    if k > 0 {
      RowsInit(cs, n, k - 1);
    }
  }

  // ---- the pass ----

  datatype PassState = PassState(inData: bool, symbols: map<string, Sym>, chunks: seq<Chunk>, changed: bool)

  function Addresses(m: map<string, Sym>): map<string, int> { map k | k in m :: m[k].address }

  function Here(st: PassState): int { BASE + |Text(st.chunks)| }

  /** The round of the text-pass loop for one statement. */
  function Step(s: Statement, forward: bool, st: PassState): Option<PassState> {
    if s.body.Section? then Some(st.(inData := s.body.isData))
    else if st.inData then Some(st)
    else
      var at := Here(st);
      var symbols := if s.lbl == "" then st.symbols else Moved(st.symbols, s.lbl, at);
      var moved := s.lbl != "" && s.lbl in st.symbols && st.symbols[s.lbl].address != at;
      var e :- Emitted(s, Env(at, Addresses(symbols), forward), CAPACITY - |Text(st.chunks)|);
      if e.field.Some? && |Fixups(st.chunks)| >= MAX_SYMBOLS then None
      else Some(PassState(false, symbols, st.chunks + [Chunk(at, s, e)], st.changed || moved))
  }

  /** The first n rounds of a pass. */
  function Run(prog: seq<Statement>, n: nat, forward: bool, symbols: map<string, Sym>): Option<PassState>
    requires n <= |prog|
  {
    if n == 0 then Some(PassState(false, symbols, [], false))
    else
      var st :- Run(prog, n - 1, forward, symbols);
      Step(prog[n - 1], forward, st)
  }

  function Pass(prog: seq<Statement>, forward: bool, symbols: map<string, Sym>): Option<PassState> {
    Run(prog, |prog|, forward, symbols)
  }

  /** A round either skips its statement or appends exactly one chunk, encoded at the running address. */
  lemma StepFacts(s: Statement, forward: bool, st: PassState)
    requires Step(s, forward, st).Some?
    ensures var st' := Step(s, forward, st).value;
      if s.body.Section? || st.inData then
        st'.chunks == st.chunks && st'.symbols == st.symbols && st'.changed == st.changed
      else
        && !st'.inData
        && |st'.chunks| == |st.chunks| + 1
        && st'.chunks == st.chunks + [Chunk(Here(st), s, st'.chunks[|st.chunks|].e)]
        && Emitted(s, Env(Here(st), Addresses(st'.symbols), forward), CAPACITY - |Text(st.chunks)|)
           == Some(st'.chunks[|st.chunks|].e)
        && st'.symbols == (if s.lbl == "" then st.symbols else Moved(st.symbols, s.lbl, Here(st)))
        && (st'.changed
            <==> st.changed || (s.lbl != "" && s.lbl in st.symbols && st.symbols[s.lbl].address != Here(st)))
  {
    hide Emitted, Text, Addresses;
  }

  lemma RunStep(prog: seq<Statement>, n: nat, forward: bool, symbols: map<string, Sym>)
    requires n < |prog| && Run(prog, n + 1, forward, symbols).Some?
    ensures Run(prog, n, forward, symbols).Some?
    ensures Run(prog, n + 1, forward, symbols) == Step(prog[n], forward, Run(prog, n, forward, symbols).value)
  {
    hide Step;
  }

  // ---- concatenation ----

  lemma {:induction false} TextAppend(cs: seq<Chunk>, c: Chunk)
    ensures Text(cs + [c]) == Text(cs) + c.e.bytes
    ensures Fixups(cs + [c]) == Fixups(cs) + (if c.e.field.Some? then [FixupOf(c)] else [])
  {
    assert (cs + [c])[..|cs|] == cs;
  }

  lemma {:induction false} TextSplit(cs: seq<Chunk>, k: nat)
    requires k <= |cs|
    ensures Text(cs[..k]) <= Text(cs)
    ensures k < |cs| ==> Text(cs[..k + 1]) == Text(cs[..k]) + cs[k].e.bytes
    ensures |Text(cs[..k])| <= |Text(cs)|
  {
    if k < |cs| {
      assert cs[..|cs| - 1][..k] == cs[..k];
      TextSplit(cs[..|cs| - 1], k);
      assert cs[..k + 1][..k] == cs[..k];
    } else {
      assert cs[..k] == cs;
    }
  }

  // ---- what every pass keeps ----

  /** Every label is looked up and every byte appended where the running address says. */
  ghost predicate Placed(cs: seq<Chunk>) {
    && |Text(cs)| <= CAPACITY
    && forall k :: 0 <= k < |cs| ==> cs[k].at == BASE + |Text(cs[..k])| && FieldInside(cs[k].e)
  }

  /** A field lies inside the bytes of its statement and is four bytes wide. */
  ghost predicate FieldInside(e: Emission) {
    e.field.Some? ==> e.field.value.size == 4 && e.field.value.offset + 4 <= |e.bytes|
  }

  lemma FormInside(prefix: seq<byte>, w: bool, regOp: Option<Operand>, rm: Operand,
                   opcode: seq<byte>, reg: int, imm: seq<byte>)
    ensures var e := Form(prefix, w, regOp, rm, opcode, reg, imm); e.Some? ==> FieldInside(e.value)
  {
    hide MakeModRm, MakeSib, Rex, Le;
  }

  lemma AluRegImmInside(ext: nat, dst: Operand, v: int)
    requires dst.Reg? && ext < 8
    ensures var e := AluRegImm(ext, dst, v); e.Some? ==> e.value.field.None?
  {
    hide MakeModRm, MakeSib, Rex, Le, ToInt32;
  }

  lemma MovRegImmInside(dst: Operand, v: int)
    requires dst.Reg?
    ensures var e := MovRegImm(dst, v); e.Some? ==> e.value.field.None?
  {
    hide MakeModRm, MakeSib, Rex, Le;
  }

  lemma DispatchInside(i: Instruction, env: Env)
    ensures var e := Dispatch(i, env); e.Some? ==> FieldInside(e.value)
  {
    hide Form, AluRegImm, MovRegImm, Rex, MakeModRm, MakeRex, Le, ToInt32;
    forall prefix, w, regOp, rm, opcode, reg, imm {
      FormInside(prefix, w, regOp, rm, opcode, reg, imm);
    }
    forall ext: nat, dst: Operand, v | dst.Reg? && ext < 8 {
      AluRegImmInside(ext, dst, v);
    }
    forall dst: Operand, v | dst.Reg? {
      MovRegImmInside(dst, v);
    }
  }

  lemma EmittedInside(s: Statement, env: Env, room: int)
    ensures var e := Emitted(s, env, room); e.Some? ==> FieldInside(e.value) && (room >= 0 ==> |e.value.bytes| <= room)
  {
    hide Dispatch, DirectiveBytes;
    match s.body
    case Inst(i) =>
      var segment := SegmentOf(i.operands);
      if segment.Some? {
        DispatchInside(i, env.(at := env.at + |SegmentPrefix(segment.value)|));
      }
    case _ =>
  }

  /** Address conservation: after every round of every pass the chunks stand end to end from BASE on. */
  lemma {:induction false} RunPlaced(prog: seq<Statement>, n: nat, forward: bool, symbols: map<string, Sym>)
    requires n <= |prog|
    ensures var st := Run(prog, n, forward, symbols); st.Some? ==> Placed(st.value.chunks)
  {
    hide Step, Placed;
    if n == 0 {
      PlacedEmpty();
    } else if Run(prog, n, forward, symbols).Some? {
      RunPlaced(prog, n - 1, forward, symbols);
      StepPlaced(prog[n - 1], forward, Run(prog, n - 1, forward, symbols).value);
    }
  }

  lemma PlacedEmpty()
    ensures Placed([])
  {
  }

  lemma StepPlaced(s: Statement, forward: bool, st: PassState)
    requires Placed(st.chunks) && Step(s, forward, st).Some?
    ensures Placed(Step(s, forward, st).value.chunks)
  {
    hide Step, Emitted, Addresses, Moved, Placed, Text, FieldInside;
    StepFacts(s, forward, st);
    var st' := Step(s, forward, st).value;
    if !s.body.Section? && !st.inData {
      PlacedBound(st.chunks);
      EmittedInside(s, Env(Here(st), Addresses(st'.symbols), forward), CAPACITY - |Text(st.chunks)|);
      PlacedAppend(st.chunks, st'.chunks[|st.chunks|]);
    }
  }

  lemma PlacedBound(cs: seq<Chunk>)
    requires Placed(cs)
    ensures |Text(cs)| <= CAPACITY
  {
  }

  lemma PlacedAppend(cs: seq<Chunk>, c: Chunk)
    requires Placed(cs) && c.at == BASE + |Text(cs)| && FieldInside(c.e)
    requires |Text(cs)| + |c.e.bytes| <= CAPACITY
    ensures Placed(cs + [c])
  {
    hide Text, FieldInside;
    TextAppend(cs, c);
    forall k | 0 <= k < |cs| + 1
      ensures (cs + [c])[k].at == BASE + |Text((cs + [c])[..k])| && FieldInside((cs + [c])[k].e)
    {
      if k < |cs| {
        assert (cs + [c])[..k] == cs[..k];
      } else {
        assert (cs + [c])[..k] == cs;
      }
    }
  }

  /** Fields recorded in a pass are in bounds, strictly increasing and pairwise disjoint. */
  lemma {:induction false} FixupsOrdered(cs: seq<Chunk>)
    requires Placed(cs)
    ensures forall k :: 0 <= k < |Fixups(cs)| ==>
      var f := Fixups(cs)[k]; f.size == 4 && BASE <= f.location && f.location + 4 <= BASE + |Text(cs)|
    ensures forall j, k :: 0 <= j < k < |Fixups(cs)| ==> Fixups(cs)[j].location + 4 <= Fixups(cs)[k].location
  {
    if cs != [] {
      var rest, c := cs[..|cs| - 1], cs[|cs| - 1];
      assert forall k :: 0 <= k < |rest| ==> rest[..k] == cs[..k];
      assert Placed(rest);
      FixupsOrdered(rest);
    }
  }

  /** A pass that moved no label left the symbols as they were, and so did each of its rounds. */
  lemma {:induction false} Unchanged(prog: seq<Statement>, n: nat, forward: bool, symbols: map<string, Sym>)
    requires n <= |prog|
    requires Run(prog, n, forward, symbols).Some? && !Run(prog, n, forward, symbols).value.changed
    ensures Run(prog, n, forward, symbols).value.symbols == symbols
  {
    hide Step, Emitted, Addresses, Text;
    if n > 0 {
      var st := Run(prog, n - 1, forward, symbols).value;
      StepFacts(prog[n - 1], forward, st);
      Unchanged(prog, n - 1, forward, symbols);
    }
  }

  /** The chunk at k was encoded at its own place against these addresses. */
  ghost predicate EncodedAt(cs: seq<Chunk>, k: nat, forward: bool, addresses: map<string, int>)
    requires k < |cs|
  {
    Emitted(cs[k].stmt, Env(cs[k].at, addresses, forward), CAPACITY - |Text(cs[..k])|) == Some(cs[k].e)
  }

  lemma EncodedPrefix(cs: seq<Chunk>, c: Chunk, k: nat, forward: bool, addresses: map<string, int>)
    requires k < |cs|
    ensures EncodedAt(cs + [c], k, forward, addresses) <==> EncodedAt(cs, k, forward, addresses)
  {
    assert (cs + [c])[..k] == cs[..k];
  }

  /** In an unchanged pass every statement was encoded against the final addresses. */
  lemma {:induction false} UnchangedEncodings(prog: seq<Statement>, n: nat, forward: bool, symbols: map<string, Sym>)
    requires n <= |prog|
    requires Run(prog, n, forward, symbols).Some? && !Run(prog, n, forward, symbols).value.changed
    ensures var cs := Run(prog, n, forward, symbols).value.chunks;
      forall k :: 0 <= k < |cs| ==> EncodedAt(cs, k, forward, Addresses(symbols))
  {
    hide Step, Emitted, Text, Addresses, EncodedAt;
    if n > 0 {
      var st, st' := Run(prog, n - 1, forward, symbols).value, Run(prog, n, forward, symbols).value;
      StepFacts(prog[n - 1], forward, st);
      UnchangedEncodings(prog, n - 1, forward, symbols);
      Unchanged(prog, n, forward, symbols);
      if st'.chunks != st.chunks {
        var c := st'.chunks[|st.chunks|];
        forall k | 0 <= k < |st.chunks|
          ensures EncodedAt(st'.chunks, k, forward, Addresses(symbols))
        {
          EncodedPrefix(st.chunks, c, k, forward, Addresses(symbols));
        }
        EncodedLast(st.chunks, c, forward, Addresses(symbols));
      }
    }
  }

  /** In any pass every statement was encoded at its own place against some addresses. */
  lemma {:induction false} AllEncoded(prog: seq<Statement>, n: nat, forward: bool, symbols: map<string, Sym>, k: nat)
    returns (addresses: map<string, int>)
    requires n <= |prog| && Run(prog, n, forward, symbols).Some?
    requires k < |Run(prog, n, forward, symbols).value.chunks|
    ensures EncodedAt(Run(prog, n, forward, symbols).value.chunks, k, forward, addresses)
    decreases n
  {
    hide Step, Emitted, Text, Addresses, EncodedAt;
    assert n > 0;
    var st, st' := Run(prog, n - 1, forward, symbols).value, Run(prog, n, forward, symbols).value;
    StepFacts(prog[n - 1], forward, st);
    if k < |st.chunks| {
      addresses := AllEncoded(prog, n - 1, forward, symbols, k);
      if st'.chunks != st.chunks {
        EncodedPrefix(st.chunks, st'.chunks[|st.chunks|], k, forward, addresses);
      }
    } else {
      addresses := Addresses(st'.symbols);
      EncodedLast(st.chunks, st'.chunks[|st.chunks|], forward, addresses);
    }
  }

  lemma EncodedLast(cs: seq<Chunk>, c: Chunk, forward: bool, addresses: map<string, int>)
    ensures EncodedAt(cs + [c], |cs|, forward, addresses)
      <==> Emitted(c.stmt, Env(c.at, addresses, forward), CAPACITY - |Text(cs)|) == Some(c.e)
  {
    assert (cs + [c])[..|cs|] == cs;
  }

  // ---- label addresses ----

  /** Which section the statements behind the first n stand in. */
  predicate DataAfter(prog: seq<Statement>, n: nat)
    requires n <= |prog|
  {
    if n == 0 then false
    else if prog[n - 1].body.Section? then prog[n - 1].body.isData
    else DataAfter(prog, n - 1)
  }

  /** Statement k defines label lbl in the text section. */
  predicate Defines(prog: seq<Statement>, k: nat, lbl: string) {
    k < |prog| && lbl != "" && prog[k].lbl == lbl && !prog[k].body.Section? && !DataAfter(prog, k)
  }

  /** The statements of the text section among the first n, in order. */
  function TextStatements(prog: seq<Statement>, n: nat): seq<Statement>
    requires n <= |prog|
  {
    if n == 0 then []
    else if prog[n - 1].body.Section? || DataAfter(prog, n - 1) then TextStatements(prog, n - 1)
    else TextStatements(prog, n - 1) + [prog[n - 1]]
  }

  function Statements(cs: seq<Chunk>): (ss: seq<Statement>)
    ensures |ss| == |cs| && forall k :: 0 <= k < |cs| ==> ss[k] == cs[k].stmt
  {
    seq(|cs|, k requires 0 <= k < |cs| => cs[k].stmt)
  }

  /** A pass lays out exactly the text statements of the program, one chunk each, in order. */
  lemma {:induction false} RunStatements(prog: seq<Statement>, n: nat, forward: bool, symbols: map<string, Sym>)
    requires n <= |prog| && Run(prog, n, forward, symbols).Some?
    ensures Statements(Run(prog, n, forward, symbols).value.chunks) == TextStatements(prog, n)
    decreases n
  {
    hide Step, Emitted, Text, Addresses, DataAfter;
    if n > 0 {
      var st, st' := Run(prog, n - 1, forward, symbols).value, Run(prog, n, forward, symbols).value;
      RunStatements(prog, n - 1, forward, symbols);
      RunSection(prog, n - 1, forward, symbols);
      StepFacts(prog[n - 1], forward, st);
      if st'.chunks != st.chunks {
        assert Statements(st'.chunks) == Statements(st.chunks) + [prog[n - 1]];
      }
    }
  }

  /** A text statement is met again in the list at the number of text statements before it. */
  lemma {:induction false} TextStatementAt(prog: seq<Statement>, k: nat, n: nat)
    requires k < n <= |prog| && !prog[k].body.Section? && !DataAfter(prog, k)
    ensures |TextStatements(prog, k)| < |TextStatements(prog, n)|
    ensures TextStatements(prog, k) + [prog[k]] <= TextStatements(prog, n)
    decreases n
  {
    hide DataAfter;
    if k < n - 1 {
      TextStatementAt(prog, k, n - 1);
    }
  }

  ghost predicate DistinctLabels(prog: seq<Statement>) {
    forall j, k, lbl :: Defines(prog, j, lbl) && Defines(prog, k, lbl) ==> j == k
  }

  lemma {:induction false} RunSection(prog: seq<Statement>, n: nat, forward: bool, symbols: map<string, Sym>)
    requires n <= |prog| && Run(prog, n, forward, symbols).Some?
    ensures var st := Run(prog, n, forward, symbols).value;
      st.inData == DataAfter(prog, n) && st.symbols.Keys == symbols.Keys
  {
    hide Emitted, Addresses, Text;
    if n > 0 {
      RunSection(prog, n - 1, forward, symbols);
    }
  }

  /** Addresses never decrease along a pass. */
  lemma {:induction false} RunMonotone(prog: seq<Statement>, j: nat, n: nat, forward: bool, symbols: map<string, Sym>)
    requires j <= n <= |prog| && Run(prog, n, forward, symbols).Some?
    ensures Run(prog, j, forward, symbols).Some?
    ensures var early, late := Run(prog, j, forward, symbols).value, Run(prog, n, forward, symbols).value;
      early.chunks <= late.chunks && |Text(early.chunks)| <= |Text(late.chunks)|
    decreases n
  {
    hide Step, Emitted, Addresses, Text;
    if j < n {
      RunMonotone(prog, j, n - 1, forward, symbols);
      var st, st' := Run(prog, n - 1, forward, symbols).value, Run(prog, n, forward, symbols).value;
      StepFacts(prog[n - 1], forward, st);
      if st'.chunks != st.chunks {
        TextAppend(st.chunks, st'.chunks[|st.chunks|]);
      }
    }
  }

  /** After a pass a text label of the table holds the address where its statement was met. */
  lemma {:induction false} LabelAddress(prog: seq<Statement>, n: nat, forward: bool, symbols: map<string, Sym>, k: nat)
    requires n <= |prog| && Run(prog, n, forward, symbols).Some? && DistinctLabels(prog)
    requires k < n && Defines(prog, k, prog[k].lbl) && prog[k].lbl in symbols
    ensures Run(prog, k, forward, symbols).Some?
    ensures var lbl := prog[k].lbl; var late := Run(prog, n, forward, symbols).value;
      lbl in late.symbols
      && late.symbols[lbl] == symbols[lbl].(address := Here(Run(prog, k, forward, symbols).value))
    decreases n
  {
    hide Step, Emitted, Text, Addresses;
    var lbl := prog[k].lbl;
    RunMonotone(prog, n - 1, n, forward, symbols);
    var st := Run(prog, n - 1, forward, symbols).value;
    RunSection(prog, n - 1, forward, symbols);
    StepFacts(prog[n - 1], forward, st);
    if k < n - 1 {
      LabelAddress(prog, n - 1, forward, symbols, k);
      assert !Defines(prog, n - 1, lbl);
    } else {
      OtherLabel(prog, n - 1, forward, symbols, lbl);
    }
  }

  /** Names the first n statements do not define keep what they held. */
  lemma {:induction false} OtherLabel(prog: seq<Statement>, n: nat, forward: bool, symbols: map<string, Sym>,
                                      lbl: string)
    requires n <= |prog| && Run(prog, n, forward, symbols).Some?
    requires forall k: nat :: k < n ==> !Defines(prog, k, lbl)
    ensures lbl in Run(prog, n, forward, symbols).value.symbols <==> lbl in symbols
    ensures lbl in symbols ==> Run(prog, n, forward, symbols).value.symbols[lbl] == symbols[lbl]
  {
    hide Step, Emitted, Text, Addresses;
    if n > 0 {
      RunMonotone(prog, n - 1, n, forward, symbols);
      RunSection(prog, n - 1, forward, symbols);
      OtherLabel(prog, n - 1, forward, symbols, lbl);
      StepFacts(prog[n - 1], forward, Run(prog, n - 1, forward, symbols).value);
      assert !Defines(prog, n - 1, lbl);
    }
  }
}
