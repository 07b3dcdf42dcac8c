// Which lines of a conditional are kept, said in terms of the definitions, the macro names and the lines alone.

module Conditions {
  import opened Operands
  import opened P = Preprocessor

  /** l, the lines of a, %else, the lines of b, %endif. */
  function Choice(l: OpenLine, a: Block, b: Block): seq<Line> {
    [l] + Flatten(a) + [Else] + Flatten(b) + [Endif]
  }

  /** m stands in an active part with room for one more conditional, in which a and b may stand. */
  ghost predicate Room(m: Machine, a: Block, b: Block) {
    m.active && Consistent(m) && |m.stack| < MAX_DEPTH && Sound(a, |m.stack| + 1) && Sound(b, |m.stack| + 1)
  }

  lemma {:induction false} Shallower(b: Block, depth: nat)
    requires Sound(b, depth + 1) && depth < MAX_DEPTH
    ensures Sound(b, depth)
    decreases b, 0
  {
    match b
    case Nil =>
    case Single(l, rest) => Shallower(rest, depth);
    case Cond(_, arms, rest) =>
      ShallowerArms(arms, depth + 1);
      Shallower(rest, depth);
  }

  lemma {:induction false} ShallowerArms(a: Arms, depth: nat)
    requires SoundArms(a, depth + 1) && depth < MAX_DEPTH
    ensures SoundArms(a, depth)
    decreases a, 0
  {
    Shallower(a.body, depth);
    if a.More? {
      ShallowerArms(a.others, depth);
    }
  }

  lemma Flattened(l: OpenLine, a: Block, b: Block)
    ensures Flatten(Cond(l, More(a, Last(b)), Nil)) == Choice(l, a, b)
  {
    var arms := More(a, Last(b));
    assert FlattenArms(Last(b)) == Flatten(b) && Flatten(Nil) == [];
    assert FlattenArms(arms) == Flatten(a) + [Else] + Flatten(b);
    assert [l] + FlattenArms(arms) + [Endif] + [] == Choice(l, a, b);
  }

  /** A conditional is its first arm or its second, as the test of its line comes out. */
  lemma Decided(l: OpenLine, a: Block, b: Block, m: Machine, rules: Rules)
    requires Room(m, a, b)
    ensures Run(Choice(l, a, b), m, rules)
         == match P.Test(l, m.out.defines, rules)
            case None => None
            case Some(taken) => Run(Flatten(if taken then a else b), m, rules)
  {
    hide Run, Meaning, P.Test, Sound, Consistent;
    var whole := Cond(l, More(a, Last(b)), Nil);
    Flattened(l, a, b);
    BlockRuns(whole, m, rules);
    BlockRuns(a, m, rules);
    BlockRuns(b, m, rules);
    Shallower(a, |m.stack|);
    Shallower(b, |m.stack|);
    WholeSound(l, a, b, |m.stack|);
    WholeMeaning(l, a, b, m.out, rules);
  }

  lemma WholeSound(l: OpenLine, a: Block, b: Block, depth: nat)
    requires depth < MAX_DEPTH && Sound(a, depth + 1) && Sound(b, depth + 1)
    ensures Sound(Cond(l, More(a, Last(b)), Nil), depth)
  {
  }

  lemma WholeMeaning(l: OpenLine, a: Block, b: Block, out: Output, rules: Rules)
    ensures Meaning(Cond(l, More(a, Last(b)), Nil), out, rules)
         == match P.Test(l, out.defines, rules)
            case None => None
            case Some(taken) => Meaning(if taken then a else b, out, rules)
  {
    hide P.Test;
    forall next {
      NilMeaning(next, rules);
    }
  }

  lemma NilMeaning(out: Output, rules: Rules)
    ensures Meaning(Nil, out, rules) == Some(out)
  {
  }

  /** A name counts as defined that has a definition, even an empty one, or that is a macro's. */
  predicate Defined(ds: Defines, macros: set<string>, name: string) {
    (exists k :: 0 <= k < |ds| && ds[k].0 == name) || name in macros
  }

  lemma {:induction false} LookupFinds(ds: Defines, name: string)
    ensures Lookup(ds, name).Some? <==> exists k :: 0 <= k < |ds| && ds[k].0 == name
    decreases |ds|
  {
    LookupIndex(ds, name);
  }

  /** %ifdef keeps its first part exactly when the name is defined, %ifndef exactly when it is not. */
  lemma IfdefKeeps(name: string, a: Block, b: Block, m: Machine, rules: Rules)
    requires Room(m, a, b)
    ensures Run(Choice(Ifdef(name), a, b), m, rules)
         == Run(Flatten(if Defined(m.out.defines, rules.macros, name) then a else b), m, rules)
    ensures Run(Choice(Ifndef(name), a, b), m, rules)
         == Run(Flatten(if Defined(m.out.defines, rules.macros, name) then b else a), m, rules)
  {
    hide Run, Room, Choice;
    LookupFinds(m.out.defines, name);
    Decided(Ifdef(name), a, b, m, rules);
    Decided(Ifndef(name), a, b, m, rules);
  }

  /** In a part that is not kept, a whole conditional goes by without effect, whatever its test. */
  lemma Unread(l: OpenLine, a: Block, b: Block, m: Machine, rules: Rules)
    requires !m.active && Consistent(m) && |m.stack| < MAX_DEPTH
    requires Sound(a, |m.stack| + 1) && Sound(b, |m.stack| + 1)
    ensures Run(Choice(l, a, b), m, rules) == Some(m)
  {
    hide Run, Meaning, P.Test, Sound, Consistent;
    var whole := Cond(l, More(a, Last(b)), Nil);
    Flattened(l, a, b);
    BlockRuns(whole, m, rules);
    WholeSound(l, a, b, |m.stack|);
  }

  // ---- %if ----

  function Marks(n: nat): string { seq(n, _ => '!') }

  /** A word as %if reads it: no blanks, no leading exclamation mark, no longer than the token buffer. */
  predicate IsWord(w: string) {
    w != "" && w[0] != '!' && |w| <= 1023 && forall k :: 0 <= k < |w| ==> !IsSpace(w[k])
  }

  predicate Letter(c: char) { 'a' <= c <= 'z' || 'A' <= c <= 'Z' || c == '_' }

  /**
   * Whether a word holds: a name by its definition, which counts as true unless it is a number that is zero, and
   * anything else as a number; None where it is neither.
   */
  function WordHolds(w: string, ds: Defines, number: string -> Option<int>): Option<bool>
    requires w != ""
  {
    if Letter(w[0]) then
      match Lookup(ds, w)
      case None => Some(false)
      case Some(v) => Some(v == "" || number(v) != Some(0))
    else
      match number(w)
      case None => None
      case Some(v) => Some(v != 0)
  }

  lemma {:induction false} BangsMarks(n: nat, w: string, rest: string, negate: bool)
    requires IsWord(w)
    ensures Bangs(Marks(n) + w + rest, negate) == (w + rest, if n % 2 == 0 then negate else !negate)
    decreases n
  {
    var s := Marks(n) + w + rest;
    if n == 0 {
      assert s == w + rest && s[0] == w[0];
    } else {
      assert s[0] == '!' && s[1..] == Marks(n - 1) + w + rest;
      assert SkipSpace(s[1..]) == s[1..];
      BangsMarks(n - 1, w, rest, !negate);
    }
  }

  lemma {:induction false} TokenWord(w: string, rest: string, limit: nat)
    requires |w| <= limit && (forall k :: 0 <= k < |w| ==> !IsSpace(w[k])) && (rest != "" ==> IsSpace(rest[0]))
    ensures TokenOf(w + rest, limit) == w
    decreases |w|
  {
    if w == "" {
      assert w + rest == rest;
    } else {
      assert (w + rest)[0] == w[0] && (w + rest)[1..] == w[1..] + rest;
      TokenWord(w[1..], rest, limit - 1);
    }
  }

  /** %if with n exclamation marks in front of a word keeps its first part as the word holds and n is even. */
  lemma IfKeeps(n: nat, w: string, rest: string, a: Block, b: Block, m: Machine, rules: Rules)
    requires Room(m, a, b) && IsWord(w) && (rest != "" ==> IsSpace(rest[0]))
    ensures Run(Choice(If(Marks(n) + w + rest), a, b), m, rules)
         == match WordHolds(w, m.out.defines, rules.number)
            case None => None
            case Some(holds) => Run(Flatten(if holds == (n % 2 == 0) then a else b), m, rules)
  {
    hide Run, Room, Choice, Bangs, TokenOf, IsWord;
    Decided(If(Marks(n) + w + rest), a, b, m, rules);
    IfWord(n, w, rest, m.out.defines, rules);
  }

  lemma IfWord(n: nat, w: string, rest: string, ds: Defines, rules: Rules)
    requires IsWord(w) && (rest != "" ==> IsSpace(rest[0]))
    ensures Evaluate(Marks(n) + w + rest, ds, rules)
         == match WordHolds(w, ds, rules.number)
            case None => None
            case Some(holds) => Some(holds == (n % 2 == 0))
  {
    hide Bangs, TokenOf;
    var s := Marks(n) + w + rest;
    assert s[0] == if n == 0 then w[0] else '!';
    assert SkipSpace(s) == s;
    BangsMarks(n, w, rest, false);
    TokenWord(w, rest, MAX_TOKEN);
  }

  // ---- the lines that are no conditionals ----

  /**
   * In an active part a plain line is kept under the definitions of the moment, a definition replaces or adds one,
   * a warning does nothing and an error rejects; in an inactive part none of them has an effect. A malformed
   * directive rejects in both.
   */
  lemma LeafLines(m: Machine, text: string, name: string, value: string, rules: Rules)
    ensures var out := m.out;
      m.active ==>
        && Run([Plain(text)], m, rules) == Some(m.(out := Output(out.defines, out.kept + [Kept(text, out.defines)])))
        && Run([Warning], m, rules) == Some(m) && Run([Error], m, rules) == None
        && (match Run([Define(name, value)], m, rules)
            case None => |out.defines| >= 128 && !(exists k :: 0 <= k < |out.defines| && out.defines[k].0 == name)
            case Some(n) =>
              n == m.(out := n.out) && n.out.kept == out.kept && Lookup(n.out.defines, name) == Some(value))
    ensures !m.active ==>
      && Run([Plain(text)], m, rules) == Run([Warning], m, rules) == Some(m)
      && Run([Error], m, rules) == Run([Define(name, value)], m, rules) == Some(m)
    ensures Run([Malformed], m, rules) == None
  {
    hide Run, DefineSet;
    LookupFinds(m.out.defines, name);
    DefineReadBack(m.out.defines, name, value, name);
    RunOne(Plain(text), m, rules);
    RunOne(Warning, m, rules);
    RunOne(Error, m, rules);
    RunOne(Define(name, value), m, rules);
    RunOne(Malformed, m, rules);
  }
}
