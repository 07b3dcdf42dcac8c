// When a program cannot run out of space: its long forms fit the text section and their fields the fixup
// list. Then every pass succeeds, and the passes converge without further conditions.

module Capacity {
  import opened Bytes
  import opened Operands
  import opened Encoding
  import opened Symbols
  import opened Layout
  import R = Relaxation

  // What an encoder sees that knows no label: every branch is near.
  const BLIND: Env := Env(0, map[], false)

  /** The statement is accepted wherever it stands. */
  predicate Encodable(s: Statement) {
    match s.body
    case Inst(i) => LabelOnly(s) || Encode(i, BLIND).Some?
    case Align(n) => PowerOfTwo(ToInt32(n))
    case _ => true
  }

  /** The most bytes a statement can take: its near form, or the widest padding. */
  function LongSize(s: Statement): nat {
    match s.body
    case Inst(i) =>
      if LabelOnly(s) then 0 else var e := Encode(i, BLIND); if e.Some? then |e.value.bytes| else 0
    case Align(n) => if ToInt32(n) > 0 then ToInt32(n) - 1 else 0
    case Data(width, items) => |Items(width, items)|
    case Reserve(width, count) => if count < 0 then 0 else CountTimes(count, width)
    case Section(_) => 0
  }

  function CountTimes(count: nat, width: nat): nat { count * width }

  /** Whether it can need a fixup. */
  predicate HasField(s: Statement) {
    s.body.Inst? && !LabelOnly(s) && Encode(s.body.inst, BLIND).Some? && Encode(s.body.inst, BLIND).value.field.Some?
  }

  predicate InText(prog: seq<Statement>, k: nat)
    requires k < |prog|
  {
    !prog[k].body.Section? && !DataAfter(prog, k)
  }

  function LongTotal(prog: seq<Statement>, n: nat): nat
    requires n <= |prog|
  {
    if n == 0 then 0 else LongTotal(prog, n - 1) + (if InText(prog, n - 1) then LongSize(prog[n - 1]) else 0)
  }

  function FieldTotal(prog: seq<Statement>, n: nat): nat
    requires n <= |prog|
  {
    if n == 0 then 0
    else FieldTotal(prog, n - 1) + (if InText(prog, n - 1) && HasField(prog[n - 1]) then 1 else 0)
  }

  /** The program's text statements are accepted, fit the section in their longest forms, and the fixup list. */
  predicate Roomy(prog: seq<Statement>) {
    && (forall k :: 0 <= k < |prog| && InText(prog, k) ==> Encodable(prog[k]))
    && LongTotal(prog, |prog|) <= CAPACITY && FieldTotal(prog, |prog|) <= MAX_SYMBOLS
  }

  // ---- one statement ----

  /** No address makes an encoding fail, longer than its near form, or need a field the near form does not. */
  lemma NoLonger(i: Instruction, env: Env)
    requires Encode(i, BLIND).Some?
    ensures var e, long := Encode(i, env), Encode(i, BLIND).value;
      e.Some? && |e.value.bytes| <= |long.bytes| && (e.value.field.Some? ==> long.field.Some?)
  {
    var n := |SegmentPrefix(SegmentOf(i.operands).value)|;
    var a, b := env.(at := env.at + n), BLIND.(at := n);
    if (i.op.Jmp? || i.op.Jcc? || i.op.Jnz?) && |i.operands| == 1 && i.operands[0].Label? {
      BranchNoLonger(i, a, b);
    } else {
      R.DispatchDependsOn(i, a, b);
    }
    hide Dispatch;
  }

  lemma BranchNoLonger(i: Instruction, a: Env, b: Env)
    requires (i.op.Jmp? || i.op.Jcc? || i.op.Jnz?) && |i.operands| == 1 && i.operands[0].Label?
    requires b.addresses == map[]
    ensures var e, long := Dispatch(i, a), Dispatch(i, b);
      e.Some? && long.Some? && |e.value.bytes| <= |long.value.bytes| && long.value.field.Some?
  {
  }

  lemma StatementFits(s: Statement, env: Env, room: int)
    requires Encodable(s) && !s.body.Section? && LongSize(s) <= room
    ensures var e := Emitted(s, env, room);
      e.Some? && |e.value.bytes| <= LongSize(s) && (e.value.field.Some? ==> HasField(s))
  {
    hide Encode, Items, PowerOfTwo, AlignUp, ToInt32;
    match s.body
    case Inst(i) =>
      if !LabelOnly(s) {
        NoLonger(i, env);
      }
    case Align(n) =>
      PowerPositive(ToInt32(n));
      AlignLeast(env.at, ToInt32(n));
    case _ =>
  }

  lemma PowerPositive(n: int)
    requires PowerOfTwo(n)
    ensures n > 0
  {
  }

  // ---- a pass ----

  lemma TotalsMonotone(prog: seq<Statement>, j: nat, n: nat)
    requires j <= n <= |prog|
    ensures LongTotal(prog, j) <= LongTotal(prog, n) && FieldTotal(prog, j) <= FieldTotal(prog, n)
    decreases n
  {
    hide LongSize, HasField, InText;
    if j < n {
      TotalsMonotone(prog, j, n - 1);
    }
  }

  /** From any addresses and in either mode, every round of a pass succeeds. */
  lemma {:induction false} RunSucceeds(prog: seq<Statement>, n: nat, forward: bool, symbols: map<string, Sym>)
    requires n <= |prog| && Roomy(prog)
    ensures var r := Run(prog, n, forward, symbols);
      r.Some? && |Text(r.value.chunks)| <= LongTotal(prog, n) && |Fixups(r.value.chunks)| <= FieldTotal(prog, n)
    decreases n
  {
    hide LongSize, HasField, Encodable, Emitted, Addresses, Step;
    if n > 0 {
      RunSucceeds(prog, n - 1, forward, symbols);
      TotalsMonotone(prog, n, |prog|);
      RunSection(prog, n - 1, forward, symbols);
      StepSucceeds(prog, n - 1, forward, Run(prog, n - 1, forward, symbols).value);
    } else {
      assert Text([]) == [] && Fixups([]) == [];
    }
  }

  lemma StepSucceeds(prog: seq<Statement>, n: nat, forward: bool, st: PassState)
    requires n < |prog| && st.inData == DataAfter(prog, n) && (InText(prog, n) ==> Encodable(prog[n]))
    requires |Text(st.chunks)| <= LongTotal(prog, n) && |Fixups(st.chunks)| <= FieldTotal(prog, n)
    requires LongTotal(prog, n + 1) <= CAPACITY && FieldTotal(prog, n + 1) <= MAX_SYMBOLS
    ensures var r := Step(prog[n], forward, st);
      && r.Some? && |Text(r.value.chunks)| <= LongTotal(prog, n + 1)
      && |Fixups(r.value.chunks)| <= FieldTotal(prog, n + 1)
  {
    hide LongSize, HasField, Encodable, Emitted, Addresses, Text, Fixups, DataAfter;
    if InText(prog, n) {
      var s, room := prog[n], CAPACITY - |Text(st.chunks)|;
      var symbols := if s.lbl == "" then st.symbols else Moved(st.symbols, s.lbl, Here(st));
      var env := Env(Here(st), Addresses(symbols), forward);
      StatementFits(s, env, room);
      var c := Chunk(Here(st), s, Emitted(s, env, room).value);
      TextAppend(st.chunks, c);
      FixupsAppend(st.chunks, c);
    }
  }

  lemma FixupsAppend(cs: seq<Chunk>, c: Chunk)
    ensures |Fixups(cs + [c])| == |Fixups(cs)| + (if c.e.field.Some? then 1 else 0)
  {
    assert (cs + [c])[..|cs|] == cs;
  }

  // ---- repeated passes ----

  lemma {:induction false} IterateSucceeds(prog: seq<Statement>, symbols: map<string, Sym>, p: nat)
    requires Roomy(prog)
    ensures R.Iterate(prog, symbols, p).Some?
  {
    hide Run, Roomy;
    if p > 0 {
      IterateSucceeds(prog, symbols, p - 1);
      RunSucceeds(prog, |prog|, false, R.Iterate(prog, symbols, p - 1).value);
    }
  }

  /**
   * Convergence of a program with room: from any starting addresses the conservative passes reach the
   * canonical layout, and stay there, after as many passes as there are forward branches and one more.
   */
  lemma ConvergesWithRoom(prog: seq<Statement>, symbols: map<string, Sym>, p: nat, outside: map<string, int>)
    requires Roomy(prog) && DistinctLabels(prog) && R.Outside(prog, symbols, outside)
    requires p > R.ForwardBranches(prog, |prog|)
    ensures R.Iterate(prog, symbols, p).Some? && R.Canon(prog, |prog|, symbols.Keys, outside).Some?
    ensures var st := Pass(prog, false, R.Iterate(prog, symbols, p).value);
      && st.Some? && !st.value.changed && st.value.symbols == R.Iterate(prog, symbols, p).value
      && st.value.chunks == R.Canon(prog, |prog|, symbols.Keys, outside).value.chunks
  {
    hide Run, Roomy, DistinctLabels, R.Canon, R.Outside, R.ForwardBranches;
    IterateSucceeds(prog, symbols, p + 1);
    R.Converges(prog, symbols, p, outside);
  }
}
