// Conditional assembly: a flat machine with a stack of open conditionals keeps exactly the lines that a
// recursive reading of the nested blocks keeps, and rejects exactly what that reading rejects.

module Preprocessor {
  import opened Operands

  const MAX_DEFINES: nat := 128
  const MAX_DEPTH: nat := 64
  const MAX_TOKEN: nat := 1023

  // A source line as the pp_parse_* helpers classify it. Malformed is a directive without its symbol.
  datatype Line =
    | If(expr: string) | Ifdef(name: string) | Ifndef(name: string) | Else | Endif
    | Error | Warning | Define(name: string, value: string) | Malformed | Plain(text: string)

  type Defines = seq<(string, string)>

  // A kept line, with the definitions its text is to be substituted by.
  datatype Kept = Kept(text: string, defines: Defines)

  // What stays fixed during the pass: the macro names, and how strtoll reads a whole token.
  datatype Rules = Rules(macros: set<string>, number: string -> Option<int>)

  // ---- definitions ----

  /** pp_lookup_define */
  function Lookup(ds: Defines, name: string): Option<string> {
    if ds == [] then None
    else if ds[0].0 == name then Some(ds[0].1)
    else Lookup(ds[1..], name)
  }

  /** pp_define_set */
  function DefineSet(ds: Defines, name: string, value: string): Option<Defines> {
    var k := IndexOf(ds, name);
    if k < |ds| then Some(ds[k := (name, value)])
    else if |ds| >= MAX_DEFINES then None
    else Some(ds + [(name, value)])
  }

  function IndexOf(ds: Defines, name: string): (k: nat)
    ensures k <= |ds|
    ensures k < |ds| ==> ds[k].0 == name
    ensures forall j :: 0 <= j < k ==> ds[j].0 != name
  {
    if ds == [] || ds[0].0 == name then 0 else 1 + IndexOf(ds[1..], name)
  }

  lemma {:induction false} LookupIndex(ds: Defines, name: string)
    ensures Lookup(ds, name) == if IndexOf(ds, name) < |ds| then Some(ds[IndexOf(ds, name)].1) else None
    decreases |ds|
  {
    if ds != [] && ds[0].0 != name {
      LookupIndex(ds[1..], name);
    }
  }

  /** Setting a name makes it read back, and no other name changes. */
  lemma DefineReadBack(ds: Defines, name: string, value: string, other: string)
    ensures DefineSet(ds, name, value).None? <==> Lookup(ds, name).None? && |ds| >= MAX_DEFINES
    ensures var r := DefineSet(ds, name, value);
      r.Some? ==>
        && Lookup(r.value, name) == Some(value)
        && (other != name ==> Lookup(r.value, other) == Lookup(ds, other))
  {
    LookupIndex(ds, name);
    LookupIndex(ds, other);
    var r := DefineSet(ds, name, value);
    if r.Some? {
      LookupIndex(r.value, name);
      LookupIndex(r.value, other);
      FirstIndex(r.value, name, IndexOf(ds, name));
      if other != name {
        FirstIndex(r.value, other, if IndexOf(ds, other) < |ds| then IndexOf(ds, other) else |r.value|);
      }
    }
  }

  lemma FirstIndex(ds: Defines, name: string, k: nat)
    requires k <= |ds| && (k < |ds| ==> ds[k].0 == name) && forall j :: 0 <= j < k ==> ds[j].0 != name
    ensures IndexOf(ds, name) == k
  {
  }

  // ---- %if expressions ----

  predicate IsSpace(c: char) { c == ' ' || '\t' <= c <= '\r' }

  predicate IdentStart(c: char) { 'a' <= c <= 'z' || 'A' <= c <= 'Z' || c == '_' }

  /** pp_skip_ws */
  function SkipSpace(s: string): (r: string)
    ensures |r| <= |s| && (r != "" ==> !IsSpace(r[0]))
  {
    if s != "" && IsSpace(s[0]) then SkipSpace(s[1..]) else s
  }

  /** The loop over leading exclamation marks: what is left, and whether their number is odd. */
  function Bangs(s: string, negate: bool): (string, bool)
    decreases |s|
  {
    if s != "" && s[0] == '!' then Bangs(SkipSpace(s[1..]), !negate) else (s, negate)
  }

  function TokenOf(s: string, limit: nat): string
    decreases limit
  {
    if s == "" || IsSpace(s[0]) || limit == 0 then "" else [s[0]] + TokenOf(s[1..], limit - 1)
  }

  /** pp_eval_number_or_symbol; None is its error return */
  function Evaluate(expr: string, ds: Defines, rules: Rules): Option<bool> {
    var (rest, negate) := Bangs(SkipSpace(expr), false);
    Worth(TokenOf(rest, MAX_TOKEN), negate, ds, rules)
  }

  /**
   * The value of a whole token: a definition's number, a definition that is no number counting as true, or a
   * number.
   */
  function Worth(token: string, negate: bool, ds: Defines, rules: Rules): Option<bool> {
    if token == "" then None
    else if IdentStart(token[0]) then
      var d := Lookup(ds, token);
      var truth := d.Some? && (d.value == "" || (var n := rules.number(d.value); n.None? || n.value != 0));
      Some(truth != negate)
    else
      var n :- rules.number(token);
      Some((n != 0) != negate)
  }

  /** The value of a conditional's test. */
  function Test(l: Line, ds: Defines, rules: Rules): Option<bool>
    requires Opens(l)
  {
    match l
    case If(expr) => Evaluate(expr, ds, rules)
    case Ifdef(name) => Some(Lookup(ds, name).Some? || name in rules.macros)
    case Ifndef(name) => Some(!(Lookup(ds, name).Some? || name in rules.macros))
  }

  predicate Opens(l: Line) { l.If? || l.Ifdef? || l.Ifndef? }

  predicate Leaf(l: Line) { !Opens(l) && l != Else && l != Endif }

  // ---- the machine ----

  datatype Frame = Frame(parentActive: bool, branchTaken: bool)

  datatype Output = Output(defines: Defines, kept: seq<Kept>)

  datatype Machine = Machine(stack: seq<Frame>, active: bool, out: Output)

  /** What an active line that opens or closes nothing does; %error and a full table reject. */
  function Effect(l: Line, out: Output): Option<Output>
    requires Leaf(l)
  {
    match l
    case Error => None
    case Malformed => None
    case Warning => Some(out)
    case Define(name, value) =>
      var ds :- DefineSet(out.defines, name, value);
      Some(Output(ds, out.kept))
    case Plain(text) => Some(Output(out.defines, out.kept + [Kept(text, out.defines)]))
  }

  /** One round of the second-pass loop. */
  function Step(l: Line, m: Machine, rules: Rules): Option<Machine> {
    if Opens(l) then
      if |m.stack| >= MAX_DEPTH then None
      else
        var value :- if m.active then Test(l, m.out.defines, rules) else Some(false);
        Some(Machine(m.stack + [Frame(m.active, m.active && value)], m.active && value, m.out))
    else if l == Else then
      if m.stack == [] then None
      else
        var f := m.stack[|m.stack| - 1];
        Some(Machine(m.stack[..|m.stack| - 1] + [Frame(f.parentActive, true)], f.parentActive && !f.branchTaken, m.out))
    else if l == Endif then
      if m.stack == [] then None
      else Some(Machine(m.stack[..|m.stack| - 1], m.stack[|m.stack| - 1].parentActive, m.out))
    else if l == Malformed then None
    else if !m.active then Some(m)
    else
      var out :- Effect(l, m.out);
      Some(m.(out := out))
  }

  function Run(ls: seq<Line>, m: Machine, rules: Rules): Option<Machine> {
    if ls == [] then Some(m)
    else
      var next :- Step(ls[0], m, rules);
      Run(ls[1..], next, rules)
  }

  /** The pass over a whole source: every conditional must be closed at the end. */
  function Accept(ls: seq<Line>, ds: Defines, rules: Rules): Option<Output> {
    var m :- Run(ls, Machine([], true, Output(ds, [])), rules);
    if m.stack != [] then None else Some(m.out)
  }

  // ---- nested blocks ----

  type LeafLine = l: Line | Leaf(l) witness Warning
  type OpenLine = l: Line | Opens(l) witness If("")

  // A block is a list of leaves and conditionals; a conditional has one arm and one more for each %else.
  datatype Block = Nil | Single(line: LeafLine, rest: Block) | Cond(test: OpenLine, arms: Arms, rest: Block)
  datatype Arms = Last(body: Block) | More(body: Block, others: Arms)

  function Flatten(b: Block): seq<Line> {
    match b
    case Nil => []
    case Single(l, rest) => [l] + Flatten(rest)
    case Cond(t, arms, rest) => [t] + FlattenArms(arms) + [Endif] + Flatten(rest)
  }

  function FlattenArms(a: Arms): seq<Line> {
    match a
    case Last(body) => Flatten(body)
    case More(body, others) => Flatten(body) + [Else] + FlattenArms(others)
  }

  /** Whether chosen or not, a block must have no malformed directive and nest at most MAX_DEPTH deep. */
  ghost predicate Sound(b: Block, depth: nat) {
    match b
    case Nil => true
    case Single(l, rest) => l != Malformed && Sound(rest, depth)
    case Cond(_, arms, rest) => depth < MAX_DEPTH && SoundArms(arms, depth + 1) && Sound(rest, depth)
  }

  ghost predicate SoundArms(a: Arms, depth: nat) {
    Sound(a.body, depth) && (a.More? ==> SoundArms(a.others, depth))
  }

  /** The meaning of a block: a conditional is the arm its test chooses, and arms behind the second are never chosen. */
  function Meaning(b: Block, out: Output, rules: Rules): Option<Output>
  {
    match b
    case Nil => Some(out)
    case Single(l, rest) =>
      var next :- Effect(l, out);
      Meaning(rest, next, rules)
    case Cond(t, arms, rest) =>
      var value :- Test(t, out.defines, rules);
      var next :-
        if value then Meaning(arms.body, out, rules)
        else if arms.More? then Meaning(arms.others.body, out, rules)
        else Some(out);
      Meaning(rest, next, rules)
  }

  // ---- the machine on a flattened block ----

  lemma {:induction false} RunSplit(a: seq<Line>, b: seq<Line>, m: Machine, rules: Rules)
    ensures Run(a + b, m, rules) == (match Run(a, m, rules) case None => None case Some(n) => Run(b, n, rules))
    decreases |a|
  {
    hide Step;
    if a == [] {
      assert a + b == b;
    } else {
      assert (a + b)[1..] == a[1..] + b;
      var next := Step(a[0], m, rules);
      if next.Some? {
        RunSplit(a[1..], b, next.value, rules);
      }
    }
  }

  /** What running a flattened block does to the machine: nothing to the stack, and its meaning when active. */
  ghost function BlockRun(b: Block, m: Machine, rules: Rules): Option<Machine> {
    if !Sound(b, |m.stack|) then None
    else if !m.active then Some(m)
    else match Meaning(b, m.out, rules)
      case None => None
      case Some(out) => Some(m.(out := out))
  }

  /** The arms of an open conditional, whose frame is on top: at most one of them is active. */
  ghost function ArmsRun(a: Arms, m: Machine, rules: Rules): Option<Machine>
    requires m.stack != []
  {
    var top := m.stack[|m.stack| - 1];
    if !SoundArms(a, |m.stack|) then None
    else if m.active then
      match Meaning(a.body, m.out, rules)
      case None => None
      case Some(out) => Some(Machine(Tail(m.stack), top.parentActive, out))
    else if top.parentActive && !top.branchTaken && a.More? then
      match Meaning(a.others.body, m.out, rules)
      case None => None
      case Some(out) => Some(Machine(Tail(m.stack), top.parentActive, out))
    else Some(Machine(Tail(m.stack), top.parentActive, m.out))
  }

  function Tail(stack: seq<Frame>): seq<Frame>
    requires stack != []
  {
    stack[..|stack| - 1]
  }

  /** An active arm has been marked as taken, and only below an active parent. */
  ghost predicate Consistent(m: Machine) {
    m.stack != [] && m.active ==> m.stack[|m.stack| - 1].parentActive && m.stack[|m.stack| - 1].branchTaken
  }

  lemma RunOne(l: Line, m: Machine, rules: Rules)
    ensures Run([l], m, rules) == Step(l, m, rules)
  {
    hide Step;
    assert [l][1..] == [];
    var next := Step(l, m, rules);
    if next.Some? {
      assert Run([], next.value, rules) == next;
    }
  }

  lemma RunCons(l: Line, ls: seq<Line>, m: Machine, rules: Rules)
    ensures Run([l] + ls, m, rules) == (match Step(l, m, rules) case None => None case Some(n) => Run(ls, n, rules))
  {
    hide Step, Run;
    RunOne(l, m, rules);
    RunSplit([l], ls, m, rules);
  }

  lemma LeafStep(l: LeafLine, rest: Block, m: Machine, rules: Rules)
    ensures var next := Step(l, m, rules);
      && BlockRun(Single(l, rest), m, rules) == (match next case None => None case Some(n) => BlockRun(rest, n, rules))
      && (next.Some? ==> next.value.stack == m.stack)
  {
    hide Test, DefineSet;
  }

  /** A flattened block, run by the machine. */
  lemma {:induction false} BlockRuns(b: Block, m: Machine, rules: Rules)
    requires |m.stack| <= MAX_DEPTH
    ensures Run(Flatten(b), m, rules) == BlockRun(b, m, rules)
    decreases b
  {
    hide Step, Meaning, Test, Run, BlockRun, ArmsRun;
    match b
    case Nil => NilRuns(m, rules);
    case Single(l, rest) =>
      RunCons(l, Flatten(rest), m, rules);
      LeafStep(l, rest, m, rules);
      var next := Step(l, m, rules);
      if next.Some? {
        BlockRuns(rest, next.value, rules);
      }
    case Cond(t, arms, rest) =>
      assert Flatten(b) == [t] + (FlattenArms(arms) + [Endif] + Flatten(rest));
      RunCons(t, FlattenArms(arms) + [Endif] + Flatten(rest), m, rules);
      CondStep(t, arms, rest, m, rules);
      var pushed := Step(t, m, rules);
      if pushed.Some? {
        RunSplit(FlattenArms(arms) + [Endif], Flatten(rest), pushed.value, rules);
        ArmsRuns(arms, pushed.value, rules);
        var closed := ArmsRun(arms, pushed.value, rules);
        if closed.Some? {
          BlockRuns(rest, closed.value, rules);
        }
      }
  }

  lemma NilRuns(m: Machine, rules: Rules)
    ensures Run([], m, rules) == BlockRun(Nil, m, rules)
  {
  }

  lemma CondStep(t: OpenLine, arms: Arms, rest: Block, m: Machine, rules: Rules)
    requires |m.stack| <= MAX_DEPTH
    ensures var pushed, whole := Step(t, m, rules), BlockRun(Cond(t, arms, rest), m, rules);
      match pushed
      case None => whole == None
      case Some(n) =>
        && |n.stack| == |m.stack| + 1 && |n.stack| <= MAX_DEPTH && Consistent(n)
        && match ArmsRun(arms, n, rules)
           case None => whole == None
           case Some(k) => k.stack == m.stack && whole == BlockRun(rest, k, rules)
  {
    hide Test;
    var pushed := Step(t, m, rules);
    if pushed.Some? {
      assert Tail(pushed.value.stack) == m.stack;
    }
  }

  /** The arms of a conditional, with its %endif. */
  lemma {:induction false} ArmsRuns(a: Arms, m: Machine, rules: Rules)
    requires m.stack != [] && |m.stack| <= MAX_DEPTH && Consistent(m)
    ensures Run(FlattenArms(a) + [Endif], m, rules) == ArmsRun(a, m, rules)
    decreases a
  {
    hide Step, Meaning, Test, Run, BlockRun, ArmsRun;
    BlockRuns(a.body, m, rules);
    var body := BlockRun(a.body, m, rules);
    match a
    case Last(b) =>
      RunSplit(Flatten(b), [Endif], m, rules);
      LastStep(b, m, rules);
      if body.Some? {
        RunOne(Endif, body.value, rules);
      }
    case More(b, others) =>
      assert FlattenArms(a) + [Endif] == Flatten(b) + ([Else] + (FlattenArms(others) + [Endif]));
      RunSplit(Flatten(b), [Else] + (FlattenArms(others) + [Endif]), m, rules);
      MoreStep(b, others, m, rules);
      if body.Some? {
        RunCons(Else, FlattenArms(others) + [Endif], body.value, rules);
        ArmsRuns(others, Step(Else, body.value, rules).value, rules);
      }
  }

  lemma LastStep(b: Block, m: Machine, rules: Rules)
    requires m.stack != [] && Consistent(m)
    ensures var body := BlockRun(b, m, rules);
      ArmsRun(Last(b), m, rules) == (match body case None => None case Some(n) => Step(Endif, n, rules))
  {
    hide Meaning, Sound;
  }

  lemma MoreStep(b: Block, others: Arms, m: Machine, rules: Rules)
    requires m.stack != [] && Consistent(m)
    ensures var body, whole := BlockRun(b, m, rules), ArmsRun(More(b, others), m, rules);
      match body
      case None => whole == None
      case Some(n) =>
        var next := Step(Else, n, rules);
        && next.Some? && |next.value.stack| == |m.stack| && Consistent(next.value)
        && whole == ArmsRun(others, next.value, rules)
  {
    hide Meaning, Sound;
    var body := BlockRun(b, m, rules);
    if body.Some? {
      assert Tail(Step(Else, body.value, rules).value.stack) == Tail(m.stack);
    }
  }

  // ---- which sources are balanced ----

  /** Some nesting of blocks flattens to the source. */
  ghost predicate Balanced(ls: seq<Line>) {
    exists b: Block :: Flatten(b) == ls
  }

  /**
   * Reads a block up to the end of the source or to an %else or %endif that is not its own; fails in an open
   * conditional.
   */
  ghost function ReadBlock(ls: seq<Line>): (r: Option<(Block, seq<Line>)>)
    ensures r.Some? ==> |r.value.1| <= |ls|
    ensures r.Some? && r.value.1 != [] ==> r.value.1[0] == Else || r.value.1[0] == Endif
    decreases |ls|, 0
  {
    if ls == [] || ls[0] == Else || ls[0] == Endif then Some((Nil, ls))
    else if Leaf(ls[0]) then
      var (rest, tail) :- ReadBlock(ls[1..]);
      Some((Single(ls[0], rest), tail))
    else
      var (arms, after) :- ReadArms(ls[1..]);
      var (rest, tail) :- ReadBlock(after);
      Some((Cond(ls[0], arms, rest), tail))
  }

  ghost function ReadArms(ls: seq<Line>): (r: Option<(Arms, seq<Line>)>)
    ensures r.Some? ==> |r.value.1| < |ls|
    decreases |ls|, 1
  {
    var (body, after) :- ReadBlock(ls);
    if after == [] then None
    else if after[0] == Endif then Some((Last(body), after[1..]))
    else
      var (others, tail) :- ReadArms(after[1..]);
      Some((More(body, others), tail))
  }

  lemma {:induction false} ReadBlockFlat(ls: seq<Line>)
    ensures var r := ReadBlock(ls); r.Some? ==> Flatten(r.value.0) + r.value.1 == ls
    decreases |ls|, 0
  {
    if ReadBlock(ls).Some? && ls != [] && ls[0] != Else && ls[0] != Endif {
      assert ls == [ls[0]] + ls[1..];
      if Leaf(ls[0]) {
        ReadBlockFlat(ls[1..]);
      } else {
        var (arms, after) := ReadArms(ls[1..]).value;
        var (rest, tail) := ReadBlock(after).value;
        ReadArmsFlat(ls[1..]);
        ReadBlockFlat(after);
        CondOf(ls[0], FlattenArms(arms), Flatten(rest), tail, ls);
      }
    }
  }

  lemma CondOf(t: Line, arms: seq<Line>, rest: seq<Line>, tail: seq<Line>, ls: seq<Line>)
    requires ls == [t] + (arms + [Endif] + (rest + tail))
    ensures ([t] + arms + [Endif] + rest) + tail == ls
  {
  }

  lemma {:induction false} ReadArmsFlat(ls: seq<Line>)
    ensures var r := ReadArms(ls); r.Some? ==> FlattenArms(r.value.0) + [Endif] + r.value.1 == ls
    decreases |ls|, 1
  {
    if ReadArms(ls).Some? {
      ReadBlockFlat(ls);
      var (body, after) := ReadBlock(ls).value;
      if after[0] == Endif {
        EndOf(Flatten(body), after);
      } else {
        ReadArmsFlat(after[1..]);
        var (others, tail) := ReadArms(after[1..]).value;
        ElseOf(Flatten(body), FlattenArms(others), tail, after);
      }
    }
  }

  lemma EndOf(body: seq<Line>, after: seq<Line>)
    requires after != [] && after[0] == Endif
    ensures body + [Endif] + after[1..] == body + after
  {
    assert after == [Endif] + after[1..];
  }

  lemma ElseOf(body: seq<Line>, others: seq<Line>, tail: seq<Line>, after: seq<Line>)
    requires after != [] && after[0] == Else && after[1..] == others + [Endif] + tail
    ensures (body + [Else] + others) + [Endif] + tail == body + after
  {
    assert after == [Else] + (others + [Endif] + tail);
  }

  /** Where reading a block fails, the machine rejects or is left with a conditional still open. */
  lemma {:induction false} OpenBlock(ls: seq<Line>, m: Machine, rules: Rules)
    requires ReadBlock(ls).None? && |m.stack| <= MAX_DEPTH
    ensures var r := Run(ls, m, rules); r.Some? ==> |r.value.stack| > |m.stack|
    decreases |ls|, 0
  {
    hide Step, Test;
    var next := Step(ls[0], m, rules);
    if next.Some? {
      StackStep(ls[0], m, rules);
      if Leaf(ls[0]) {
        OpenBlock(ls[1..], next.value, rules);
      } else {
        OpenArms(ls[1..], next.value, rules);
        if ReadArms(ls[1..]).Some? {
          var arms, after := ReadArms(ls[1..]).value.0, ReadArms(ls[1..]).value.1;
          ReadArmsFlat(ls[1..]);
          ConsistentStep(ls[0], m, rules);
          ArmsRuns(arms, next.value, rules);
          RunSplit(FlattenArms(arms) + [Endif], after, next.value, rules);
          var closed := ArmsRun(arms, next.value, rules);
          if closed.Some? {
            OpenBlock(after, closed.value, rules);
          }
        }
      }
    }
  }

  lemma {:induction false} OpenArms(ls: seq<Line>, m: Machine, rules: Rules)
    requires m.stack != [] && |m.stack| <= MAX_DEPTH
    ensures ReadArms(ls).None? ==> var r := Run(ls, m, rules); r.Some? ==> |r.value.stack| > |m.stack| - 1
    decreases |ls|, 1
  {
    hide Step, Test, Meaning;
    if ReadBlock(ls).None? {
      OpenBlock(ls, m, rules);
    } else {
      var body, after := ReadBlock(ls).value.0, ReadBlock(ls).value.1;
      ReadBlockFlat(ls);
      BlockRuns(body, m, rules);
      RunSplit(Flatten(body), after, m, rules);
      var n := BlockRun(body, m, rules);
      if n.Some? && after != [] && after[0] == Else {
        StackStep(Else, n.value, rules);
        var next := Step(Else, n.value, rules);
        if next.Some? {
          OpenArms(after[1..], next.value, rules);
        }
      }
    }
  }

  lemma StackStep(l: Line, m: Machine, rules: Rules)
    requires |m.stack| <= MAX_DEPTH
    ensures var r := Step(l, m, rules);
      r.Some? ==>
        && |r.value.stack| <= MAX_DEPTH
        && |r.value.stack| == |m.stack| + (if Opens(l) then 1 else if l == Endif then -1 else 0)
  {
  }

  lemma ConsistentStep(l: Line, m: Machine, rules: Rules)
    requires Opens(l)
    ensures var r := Step(l, m, rules); r.Some? ==> Consistent(r.value)
  {
  }

  /** A source has at most one reading, and ReadBlock finds it. */
  lemma {:induction false} ReadUnique(b: Block, tail: seq<Line>)
    requires tail != [] ==> tail[0] == Else || tail[0] == Endif
    ensures ReadBlock(Flatten(b) + tail) == Some((b, tail))
    decreases b
  {
    var ls := Flatten(b) + tail;
    match b
    case Nil => assert ls == tail;
    case Single(l, rest) =>
      assert ls[1..] == Flatten(rest) + tail;
      ReadUnique(rest, tail);
    case Cond(t, arms, rest) =>
      CondTail(t, FlattenArms(arms), Flatten(rest), tail);
      ReadArmsUnique(arms, Flatten(rest) + tail);
      ReadUnique(rest, tail);
  }

  lemma CondTail(t: Line, arms: seq<Line>, rest: seq<Line>, tail: seq<Line>)
    ensures (([t] + arms + [Endif] + rest) + tail)[0] == t
    ensures (([t] + arms + [Endif] + rest) + tail)[1..] == arms + [Endif] + (rest + tail)
  {
  }

  lemma {:induction false} ReadArmsUnique(a: Arms, tail: seq<Line>)
    ensures ReadArms(FlattenArms(a) + [Endif] + tail) == Some((a, tail))
    decreases a
  {
    var ls := FlattenArms(a) + [Endif] + tail;
    match a
    case Last(body) =>
      ReadUnique(body, [Endif] + tail);
      assert ls == Flatten(body) + ([Endif] + tail);
      assert ([Endif] + tail)[1..] == tail;
    case More(body, others) =>
      var after := [Else] + (FlattenArms(others) + [Endif] + tail);
      ReadUnique(body, after);
      assert ls == Flatten(body) + after;
      assert after[1..] == FlattenArms(others) + [Endif] + tail;
      ReadArmsUnique(others, tail);
  }

  /**
   * Refinement: the machine accepts exactly the sources that are the flattening of nested blocks at most
   * MAX_DEPTH deep, free of malformed directives, whose chosen arms run without error; and it keeps
   * the lines, each under its definitions, that the meaning of the blocks keeps.
   */
  lemma {:induction false} MachineRefines(ls: seq<Line>, ds: Defines, rules: Rules, out: Output)
    ensures Accept(ls, ds, rules) == Some(out)
      <==> exists b: Block :: Flatten(b) == ls && Sound(b, 0) && Meaning(b, Output(ds, []), rules) == Some(out)
  {
    hide Meaning, Sound, Step;
    var start := Machine([], true, Output(ds, []));
    forall b: Block | Flatten(b) == ls
      ensures Accept(ls, ds, rules) == if Sound(b, 0) then Meaning(b, Output(ds, []), rules) else None
    {
      BlockRuns(b, start, rules);
    }
    if Accept(ls, ds, rules) == Some(out) {
      if ReadBlock(ls).None? {
        OpenBlock(ls, start, rules);
        assert false;
      } else {
        var b, tail := ReadBlock(ls).value.0, ReadBlock(ls).value.1;
        ReadBlockFlat(ls);
        BlockRuns(b, start, rules);
        RunSplit(Flatten(b), tail, start, rules);
        if tail != [] {
          Unopened(tail, BlockRun(b, start, rules), rules);
          assert false;
        } else {
          assert Flatten(b) + [] == Flatten(b);
        }
      }
    }
  }

  lemma Unopened(tail: seq<Line>, m: Option<Machine>, rules: Rules)
    requires tail != [] && (tail[0] == Else || tail[0] == Endif)
    ensures m.Some? && m.value.stack == [] ==> Run(tail, m.value, rules).None?
  {
  }

  /** Unbalanced sources are rejected whatever the definitions are. */
  lemma UnbalancedRejected(ls: seq<Line>, ds: Defines, rules: Rules)
    requires !Balanced(ls)
    ensures Accept(ls, ds, rules).None?
  {
    hide Accept, Flatten;
    if Accept(ls, ds, rules).Some? {
      MachineRefines(ls, ds, rules, Accept(ls, ds, rules).value);
      assert false;
    }
  }

  // ---- the active flag ----

  ghost predicate AllOf(arms: seq<bool>) { forall k :: 0 <= k < |arms| ==> arms[k] }

  /** arms says which open conditionals chose the arm being read; the flags of the machine are its conjunctions. */
  ghost predicate Conjunction(m: Machine, arms: seq<bool>) {
    && |arms| == |m.stack|
    && (m.active <==> AllOf(arms))
    && (forall k :: 0 <= k < |arms| ==>
          (m.stack[k].parentActive <==> AllOf(arms[..k])) && (arms[k] ==> m.stack[k].branchTaken))
  }

  /**
   * How a line changes the choices: a conditional opens its first arm by its test, and %else takes the arm no
   * earlier one took.
   */
  ghost function Choices(l: Line, m: Machine, arms: seq<bool>, rules: Rules): seq<bool>
    requires |arms| == |m.stack|
  {
    if Opens(l) then arms + [m.active && Test(l, m.out.defines, rules) == Some(true)]
    else if l == Else && arms != [] then arms[..|arms| - 1] + [!m.stack[|arms| - 1].branchTaken]
    else if l == Endif && arms != [] then arms[..|arms| - 1]
    else arms
  }

  /** Every round keeps current_active the conjunction over the stack. */
  lemma ActiveIsConjunction(l: Line, m: Machine, arms: seq<bool>, rules: Rules)
    requires Conjunction(m, arms) && Step(l, m, rules).Some?
    ensures Conjunction(Step(l, m, rules).value, Choices(l, m, arms, rules))
  {
    hide Test, Effect, Conjunction;
    if Opens(l) {
      OpenConjunction(m, arms, m.active && Test(l, m.out.defines, rules) == Some(true));
    } else if l == Else {
      TopConjunction(m, arms);
    } else if l == Endif {
      TopConjunction(m, arms);
    } else {
      LeafConjunction(l, m, arms, rules);
    }
  }

  lemma LeafConjunction(l: Line, m: Machine, arms: seq<bool>, rules: Rules)
    requires Conjunction(m, arms) && Leaf(l) && Step(l, m, rules).Some?
    ensures Conjunction(Step(l, m, rules).value, arms)
  {
    hide Effect;
  }

  lemma AllAppend(arms: seq<bool>, a: bool)
    ensures AllOf(arms + [a]) <==> AllOf(arms) && a
  {
    var after := arms + [a];
    assert after[|arms|] == a;
    assert forall k :: 0 <= k < |arms| ==> arms[k] == after[k];
  }

  lemma OpenConjunction(m: Machine, arms: seq<bool>, choice: bool)
    requires Conjunction(m, arms) && (choice ==> m.active)
    ensures |arms| == |m.stack|
    ensures Conjunction(Machine(m.stack + [Frame(m.active, choice)], choice, m.out), arms + [choice])
  {
    var after := arms + [choice];
    assert after[|arms|] == choice;
    assert forall k :: 0 <= k <= |arms| ==> after[..k] == arms[..k];
    assert arms[..|arms|] == arms;
    AllAppend(arms, choice);
  }

  /** The top of the stack: replaced at an %else, removed at an %endif. */
  lemma TopConjunction(m: Machine, arms: seq<bool>)
    requires Conjunction(m, arms) && m.stack != []
    ensures |arms| == |m.stack|
    ensures var n := |arms| - 1; var f := m.stack[n];
      && Conjunction(Machine(m.stack[..n] + [Frame(f.parentActive, true)], f.parentActive && !f.branchTaken, m.out),
                     arms[..n] + [!f.branchTaken])
      && Conjunction(Machine(m.stack[..n], f.parentActive, m.out), arms[..n])
  {
    var n := |arms| - 1;
    var after := arms[..n] + [!m.stack[n].branchTaken];
    AllAppend(arms[..n], !m.stack[n].branchTaken);
    assert after[n] == !m.stack[n].branchTaken;
    assert forall k :: 0 <= k <= n ==> after[..k] == arms[..k] && arms[..n][..k] == arms[..k];
  }

  // ---- the pass as it runs ----

  /** The definitions given on the command line; an empty value counts as 1, and what cannot be set is dropped. */
  function Seed(cli: seq<(string, string)>): (ds: Defines)
    ensures |ds| <= MAX_DEFINES
  {
    if cli == [] then []
    else
      var before, d := Seed(cli[..|cli| - 1]), cli[|cli| - 1];
      if d.0 == "" then before
      else match DefineSet(before, d.0, if d.1 == "" then "1" else d.1)
        case None => before
        case Some(ds) => ds
  }

  /** What the command line says of a name last; an empty value counts as 1. */
  function LastGiven(cli: seq<(string, string)>, name: string): Option<string> {
    if cli == [] then None
    else
      var d := cli[|cli| - 1];
      if d.0 == name && name != "" then Some(if d.1 == "" then "1" else d.1) else LastGiven(cli[..|cli| - 1], name)
  }

  /** The definitions a pass starts with. */
  lemma {:induction false} SeedReads(cli: seq<(string, string)>, name: string)
    requires |cli| <= MAX_DEFINES
    ensures |Seed(cli)| <= |cli| && Lookup(Seed(cli), name) == LastGiven(cli, name)
  {
    hide Lookup;
    if cli != [] {
      var before, d := Seed(cli[..|cli| - 1]), cli[|cli| - 1];
      SeedReads(cli[..|cli| - 1], name);
      SeedReads(cli[..|cli| - 1], d.0);
      DefineReadBack(before, d.0, if d.1 == "" then "1" else d.1, name);
    } else {
      LookupNone(name);
    }
  }

  lemma LookupNone(name: string)
    ensures Lookup([], name) == None
  {
  }

  lemma StartConjunction(m: Machine)
    requires m.stack == [] && m.active
    ensures Conjunction(m, [])
  {
  }

  lemma ConjunctionLength(m: Machine, arms: seq<bool>)
    requires Conjunction(m, arms)
    ensures |arms| == |m.stack|
  {
  }

  lemma BangsStep(s: string, negate: bool)
    requires s != "" && s[0] == '!'
    ensures Bangs(s, negate) == Bangs(SkipSpace(s[1..]), !negate)
  {
    hide SkipSpace;
  }

  lemma BangsEnd(s: string, negate: bool)
    requires s == "" || s[0] != '!'
    ensures Bangs(s, negate) == (s, negate)
  {
  }

  /** The loop that copies the token: up to a blank, the end, or a full buffer. */
  method TokenHere(s: string) returns (token: string)
    ensures token == TokenOf(s, MAX_TOKEN)
  {
    hide IsSpace;
    token := "";
    var i := 0;
    assert s[0..] == s;
    while i < |s| && !IsSpace(s[i]) && i < MAX_TOKEN
      invariant i <= |s| && i <= MAX_TOKEN
      invariant TokenOf(s, MAX_TOKEN) == token + TokenOf(s[i..], MAX_TOKEN - i)
    {
      assert s[i..][1..] == s[i + 1..];
      assert (token + [s[i]]) + TokenOf(s[i + 1..], MAX_TOKEN - i - 1)
        == token + ([s[i]] + TokenOf(s[i + 1..], MAX_TOKEN - i - 1));
      token := token + [s[i]];
      i := i + 1;
    }
    assert token + [] == token;
  }

  // The tables and flags of preprocess_macros.
  class Pass {
    const parentActive: array<bool>
    const branchTaken: array<bool>
    var condDepth: nat
    var currentActive: bool
    const names: array<string>
    const values: array<string>
    var defineCount: nat
    var output: seq<Kept>

    ghost predicate Valid()
      reads this
    {
      && parentActive.Length == branchTaken.Length == MAX_DEPTH && condDepth <= MAX_DEPTH
      && names.Length == values.Length == MAX_DEFINES && defineCount <= MAX_DEFINES
      && parentActive != branchTaken && names != values
    }

    ghost function Stack(): seq<Frame>
      requires Valid()
      reads this, parentActive, branchTaken
    {
      seq(condDepth, k requires 0 <= k < condDepth reads this, parentActive, branchTaken requires Valid()
          => Frame(parentActive[k], branchTaken[k]))
    }

    ghost function Table(): (ds: Defines)
      requires Valid()
      reads this, names, values
      ensures |ds| == defineCount && forall k :: 0 <= k < |ds| ==> ds[k] == (names[k], values[k])
    {
      seq(defineCount,
          k requires 0 <= k < defineCount reads this, names, values requires Valid() => (names[k], values[k]))
    }

    ghost function State(): Machine
      requires Valid()
      reads this, parentActive, branchTaken, names, values
    {
      Machine(Stack(), currentActive, Output(Table(), output))
    }

    constructor ()
      ensures Valid() && State() == Machine([], true, Output([], []))
      ensures fresh(parentActive) && fresh(branchTaken) && fresh(names) && fresh(values)
    {
      parentActive := new bool[MAX_DEPTH];
      branchTaken := new bool[MAX_DEPTH];
      names := new string[MAX_DEFINES];
      values := new string[MAX_DEFINES];
      condDepth, currentActive, defineCount, output := 0, true, 0, [];
    }

    /** The search behind pp_lookup_define: the first entry with this name, or the count. */
    method FindDefine(name: string) returns (k: nat)
      requires Valid()
      ensures k == IndexOf(Table(), name)
    {
      k := 0;
      while k < defineCount && names[k] != name
        invariant k <= defineCount && forall j :: 0 <= j < k ==> names[j] != name
      {
        k := k + 1;
      }
      FirstIndex(Table(), name, k);
    }

    /** pp_define_set */
    method SetDefine(name: string, value: string) returns (ok: bool)
      requires Valid()
      modifies this`defineCount, names, values
      ensures Valid() && ok == DefineSet(old(Table()), name, value).Some?
      ensures Table() == if ok then DefineSet(old(Table()), name, value).value else old(Table())
    {
      hide IndexOf;
      ghost var before := Table();
      var k := FindDefine(name);
      if k < defineCount {
        values[k] := value;
        assert Table() == before[k := (name, value)];
        return true;
      }
      if defineCount >= MAX_DEFINES {
        return false;
      }
      names[defineCount], values[defineCount] := name, value;
      defineCount := defineCount + 1;
      assert Table() == before + [(name, value)];
      return true;
    }

    /** pp_eval_number_or_symbol */
    method EvalNumberOrSymbol(expr: string, rules: Rules) returns (r: Option<bool>)
      requires Valid()
      ensures r == Evaluate(expr, Table(), rules)
    {
      hide Bangs, TokenOf, SkipSpace, IsSpace;
      var rest, negate := SkipSpace(expr), false;
      while rest != "" && rest[0] == '!'
        invariant Bangs(rest, negate) == Bangs(SkipSpace(expr), false)
        decreases |rest|
      {
        BangsStep(rest, negate);
        negate := !negate;
        rest := SkipSpace(rest[1..]);
      }
      BangsEnd(rest, negate);
      var token := TokenHere(rest);
      r := EvalToken(token, negate, rules);
    }

    /** What the token of an expression is worth. */
    method EvalToken(token: string, negate: bool, rules: Rules) returns (r: Option<bool>)
      requires Valid()
      ensures r == Worth(token, negate, Table(), rules)
    {
      hide Lookup, IndexOf;
      if token == "" {
        return None;
      }
      if IdentStart(token[0]) {
        var k := FindDefine(token);
        LookupIndex(Table(), token);
        if k >= defineCount {
          return Some(negate);
        }
        if values[k] == "" {
          return Some(!negate);
        }
        var n := rules.number(values[k]);
        return Some(if n.Some? then (if negate then n.value == 0 else n.value != 0) else !negate);
      }
      var n := rules.number(token);
      if n.None? {
        return None;
      }
      return Some(if negate then n.value == 0 else n.value != 0);
    }

    /** Opening a conditional whose test came out as value. */
    method Open(value: bool)
      requires Valid() && condDepth < MAX_DEPTH
      modifies this`condDepth, this`currentActive, parentActive, branchTaken
      ensures Valid()
      ensures var m := old(State());
        State() == Machine(m.stack + [Frame(m.active, m.active && value)], m.active && value, m.out)
    {
      parentActive[condDepth] := currentActive;
      branchTaken[condDepth] := currentActive && value;
      currentActive := branchTaken[condDepth];
      condDepth := condDepth + 1;
      assert Stack() == old(Stack()) + [Frame(old(currentActive), old(currentActive) && value)];
    }

    /** %else */
    method Alternate()
      requires Valid() && condDepth > 0
      modifies this`currentActive, branchTaken
      ensures Valid()
      ensures var m := old(State()); var f := m.stack[|m.stack| - 1];
        State() == Machine(m.stack[..|m.stack| - 1] + [Frame(f.parentActive, true)],
                           f.parentActive && !f.branchTaken, m.out)
    {
      var k := condDepth - 1;
      currentActive := parentActive[k] && !branchTaken[k];
      branchTaken[k] := true;
      assert Stack() == old(Stack())[..k] + [Frame(parentActive[k], true)];
      assert Table() == old(Table());
    }

    /** %endif */
    method Close()
      requires Valid() && condDepth > 0
      modifies this`condDepth, this`currentActive
      ensures Valid()
      ensures var m := old(State());
        State() == Machine(m.stack[..|m.stack| - 1], m.stack[|m.stack| - 1].parentActive, m.out)
    {
      condDepth := condDepth - 1;
      currentActive := parentActive[condDepth];
      assert Stack() == old(Stack())[..condDepth];
      assert Table() == old(Table());
    }

    /** %if, %ifdef and %ifndef */
    method ProcessOpening(l: Line, rules: Rules) returns (ok: bool)
      requires Valid() && Opens(l)
      modifies this`condDepth, this`currentActive, parentActive, branchTaken
      ensures Valid() && ok == Step(l, old(State()), rules).Some?
      ensures ok ==> Step(l, old(State()), rules) == Some(State())
    {
      hide Evaluate, Lookup, IndexOf;
      match l
      case If(expr) =>
        if condDepth >= MAX_DEPTH {
          return false;
        }
        var value := Some(false);
        if currentActive {
          value := EvalNumberOrSymbol(expr, rules);
          if value.None? {
            return false;
          }
        }
        Open(value.value);
        return true;
      case Ifdef(name) =>
        var k := FindDefine(name);
        LookupIndex(Table(), name);
        if condDepth >= MAX_DEPTH {
          return false;
        }
        Open(k < defineCount || name in rules.macros);
        return true;
      case Ifndef(name) =>
        var k := FindDefine(name);
        LookupIndex(Table(), name);
        if condDepth >= MAX_DEPTH {
          return false;
        }
        Open(!(k < defineCount || name in rules.macros));
        return true;
    }

    /** One round of the loop over the lines. */
    method ProcessLine(l: Line, rules: Rules) returns (ok: bool)
      requires Valid()
      modifies this, parentActive, branchTaken, names, values
      ensures Valid() && ok == Step(l, old(State()), rules).Some?
      ensures ok ==> Step(l, old(State()), rules) == Some(State())
    {
      hide Conjunction;
      ok := true;
      if Opens(l) {
        ok := ProcessOpening(l, rules);
      } else if l == Else {
        if condDepth == 0 {
          return false;
        }
        Alternate();
      } else if l == Endif {
        if condDepth == 0 {
          return false;
        }
        Close();
      } else if l == Malformed {
        return false;
      } else if currentActive {
        ok := ProcessLeaf(l);
        assert Stack() == old(Stack());
      }
    }

    /** A line of an active arm that opens and closes nothing. */
    method ProcessLeaf(l: Line) returns (ok: bool)
      requires Valid() && Leaf(l)
      modifies this`defineCount, this`output, names, values
      ensures Valid() && ok == Effect(l, old(State().out)).Some?
      ensures ok ==> Effect(l, old(State().out)) == Some(State().out)
    {
      hide DefineSet, IndexOf;
      ok := true;
      match l
      case Error =>
        ok := false;
      case Malformed =>
        ok := false;
      case Define(name, value) =>
        ok := SetDefine(name, value);
      case Plain(text) =>
        var ds := CurrentDefines();
        output := output + [Kept(text, ds)];
        assert Table() == old(Table());
      case _ =>
    }

    /** The definitions a kept line is substituted by. */
    method CurrentDefines() returns (ds: Defines)
      requires Valid()
      ensures ds == Table()
    {
      ds := [];
      for k := 0 to defineCount
        invariant ds == Table()[..k]
      {
        ds := ds + [(names[k], values[k])];
      }
    }

    /**
     * The second pass of preprocess_macros: it succeeds and keeps lines exactly as the machine does, which by
     * MachineRefines is what the nested blocks mean.
     */
    method Preprocess(lines: seq<Line>, cli: seq<(string, string)>, rules: Rules) returns (ok: bool)
      requires Valid()
      modifies this, parentActive, branchTaken, names, values
      ensures Valid() && ok == Accept(lines, Seed(cli), rules).Some?
      ensures ok ==> Accept(lines, Seed(cli), rules) == Some(Output(Table(), output))
    {
      hide Step, Conjunction;
      condDepth, currentActive, defineCount, output := 0, true, 0, [];
      for i := 0 to |cli|
        invariant Valid() && Table() == Seed(cli[..i]) && condDepth == 0 && currentActive && output == []
      {
        assert cli[..i + 1][..i] == cli[..i];
        if cli[i].0 != "" {
          var done := SetDefine(cli[i].0, if cli[i].1 == "" then "1" else cli[i].1);
        }
      }
      assert cli[..|cli|] == cli;
      ghost var start := Machine([], true, Output(Seed(cli), []));
      assert State() == start;
      ghost var arms: seq<bool> := [];
      StartConjunction(start);
      for i := 0 to |lines|
        invariant Valid() && Conjunction(State(), arms)
        invariant Run(lines, start, rules) == Run(lines[i..], State(), rules)
      {
        assert lines[i..][1..] == lines[i + 1..];
        ghost var before := State();
        ConjunctionLength(before, arms);
        var kept := ProcessLine(lines[i], rules);
        if !kept {
          return false;
        }
        ActiveIsConjunction(lines[i], before, arms, rules);
        arms := Choices(lines[i], before, arms, rules);
      }
      return condDepth == 0;
    }
  }
}
