// What a memory operand says: from the tokens between the brackets to its label, its displacement and its
// registers, for every token list that is accepted and for every way of writing an operand.

module Components {
  import opened Bytes
  import opened Operands
  import opened Lexing
  import opened MemParsing
  import PrintParse

  // ---- every accepted operand ----

  predicate IsName(t: Token) { t.kind == Identifier && ParseRegister(t.text).None? }

  // What the tokens so far come to: the label, the displacement, whether there is one, and the last token.
  datatype Said = Said(lbl: string, disp: int, hasDisp: bool, last: Kind)

  /**
   * One token more: a name that is no register's becomes the label, as far as it fits the field, and a number that
   * does not stand behind a star is added, with the sign in front of it.
   */
  function Hear(s: Said, t: Token): Said {
    var term := ToInt32(t.value);
    Said(if IsName(t) then Clip(t.text, MAX_LABEL) else s.lbl,
         if t.kind != Number || s.last == Star then s.disp
         else if s.last == Minus then s.disp - term
         else s.disp + term,
         s.hasDisp || (t.kind == Number && s.last != Star),
         t.kind)
  }

  function HearAll(s: Said, ts: seq<Token>): Said
    decreases |ts|
  {
    if ts == [] then s else HearAll(Hear(s, ts[0]), ts[1..])
  }

  lemma {:induction false} HearBoth(s: Said, a: seq<Token>, b: seq<Token>)
    ensures HearAll(s, a + b) == HearAll(HearAll(s, a), b)
    decreases |a|
  {
    hide Hear;
    if a == [] {
      assert a + b == b;
    } else {
      assert (a + b)[0] == a[0] && (a + b)[1..] == a[1..] + b;
      HearBoth(Hear(s, a[0]), a[1..], b);
    }
  }

  lemma HearOne(s: Said, t: Token)
    ensures HearAll(s, [t]) == Hear(s, t)
  {
    hide Hear;
    assert [t][1..] == [];
    assert HearAll(Hear(s, t), []) == Hear(s, t);
  }

  lemma HearTwo(s: Said, t: Token, u: Token)
    ensures HearAll(s, [t, u]) == Hear(Hear(s, t), u)
  {
    hide Hear;
    assert [t] + [u] == [t, u];
    HearBoth(s, [t], [u]);
    HearOne(s, t);
    HearOne(Hear(s, t), u);
  }

  /** The label is the last such name, if there is one. */
  lemma {:induction false} LastName(s: Said, ts: seq<Token>, k: nat)
    requires k < |ts| && IsName(ts[k]) && forall j :: k < j < |ts| ==> !IsName(ts[j])
    ensures HearAll(s, ts).lbl == Clip(ts[k].text, MAX_LABEL)
    decreases |ts|
  {
    hide IsName, Clip;
    if k > 0 {
      LastName(Hear(s, ts[0]), ts[1..], k - 1);
    } else {
      NoName(Hear(s, ts[0]), ts[1..]);
    }
  }

  lemma {:induction false} NoName(s: Said, ts: seq<Token>)
    requires forall j :: 0 <= j < |ts| ==> !IsName(ts[j])
    ensures HearAll(s, ts).lbl == s.lbl
    decreases |ts|
  {
    hide IsName, Clip;
    if ts != [] {
      NoName(Hear(s, ts[0]), ts[1..]);
    }
  }

  function Fields(m: Mem, last: Kind): Said { Said(m.lbl, m.disp, m.hasDisp, last) }

  /** A kind that a component may follow: the sign and the star belong to what is behind them. */
  predicate Between(k: Kind) { k != Plus && k != Minus && k != Star }

  /** The tokens read turn the fields of m into those of r, and end a component. */
  ghost predicate Says(r: Mem, m: Mem, prev: Kind, read: seq<Token>) {
    var s := HearAll(Fields(m, prev), read);
    s == Fields(r, s.last) && Between(s.last)
  }

  /** What one component leaves is a part of the tokens it was given, and it reads the others. */
  ghost predicate Reads(r: Parsed, m: Mem, prev: Kind, ts: seq<Token>) {
    r.Parsed? ==>
      |r.rest| < |ts| && ts[|ts| - |r.rest|..] == r.rest && Says(r.mem, m, prev, ts[..|ts| - |r.rest|])
  }

  lemma ReadBefore(r: Parsed, m: Mem, prev: Kind, read: seq<Token>, ts: seq<Token>)
    requires r.Parsed? ==> read != [] && ts == read + r.rest && Says(r.mem, m, prev, read)
    ensures Reads(r, m, prev, ts)
  {
    hide Says;
    if r.Parsed? {
      assert ts[..|ts| - |r.rest|] == read;
    }
  }

  lemma TailOf(ts: seq<Token>)
    ensures ts != [] ==> Tail(ts) == ts[1..] && Head(ts) == ts[0] && ts == [ts[0]] + Tail(ts)
    ensures ts == [] ==> Tail(ts) == [] && Head(ts).kind == Eof
  {
  }

  /** index*scale, behind the tokens before. */
  lemma ScaledReads(m: Mem, index: Reg, ts: seq<Token>, before: seq<Token>, prev: Kind)
    requires HearAll(Fields(m, prev), before) == Fields(m, Star)
    ensures Reads(Scaled(m, index, ts), m, prev, before + ts)
  {
    hide IsName, ToInt32, Clip, Reads, HearAll;
    TailOf(ts);
    if Head(ts).kind == Number && Scale(Head(ts).value) {
      HearBoth(Fields(m, prev), before, [ts[0]]);
      HearOne(Fields(m, Star), ts[0]);
      NotName(ts[0]);
      assert before + ts == before + [ts[0]] + Tail(ts);
    }
    ReadBefore(Scaled(m, index, ts), m, prev, before + [Head(ts)], before + ts);
  }

  lemma NotName(t: Token)
    ensures t.kind != Identifier || ParseRegister(t.text).Some? ==> !IsName(t)
    ensures t.kind == Identifier && ParseRegister(t.text).None? ==> IsName(t)
  {
  }

  lemma RegisterReads(m: Mem, ts: seq<Token>, prev: Kind)
    requires ts != [] && ts[0].kind == Identifier
    ensures Reads(RegisterOrLabel(m, ts), m, prev, ts)
  {
    hide IsName, ParseRegister, ToInt32, Clip, Lower, Scaled, Reads, HearAll;
    var t, after := ts[0], ts[1..];
    NotName(t);
    HearOne(Fields(m, prev), t);
    TailOf(after);
    assert ts == [t] + after;
    var reg := ParseRegister(t.text);
    if reg.Some? && !(reg.value.0 == RIP || (reg.value.1 == R64 && Lower(Head(after).text) == "rip"))
       && Head(after).kind == Star {
      HearTwo(Fields(m, prev), t, after[0]);
      NotName(after[0]);
      assert ts == [t, after[0]] + Tail(after);
      ScaledReads(m, reg.value.0, Tail(after), [t, after[0]], prev);
    } else {
      ReadBefore(RegisterOrLabel(m, ts), m, prev, [t], ts);
    }
  }

  /** A sign and a number. */
  lemma SignedNumber(m: Mem, minus: bool, t: Token, u: Token, prev: Kind)
    requires t.kind == (if minus then Minus else Plus) && u.kind == Number && AddDisp(m, minus, u.value).Some?
    ensures Says(AddDisp(m, minus, u.value).value, m, prev, [t, u])
  {
    hide IsName, ToInt32, Clip, HearAll;
    HearTwo(Fields(m, prev), t, u);
    NotName(t);
    NotName(u);
  }

  /** A sign and a scaled register. */
  lemma SignedScaled(m: Mem, index: Reg, t: Token, u: Token, v: Token, ts: seq<Token>, prev: Kind)
    requires t.kind == Plus || t.kind == Minus
    requires u.kind == Identifier && ParseRegister(u.text).Some? && v.kind == Star
    ensures Reads(Scaled(m, index, ts), m, prev, [t, u, v] + ts)
  {
    hide IsName, ParseRegister, ToInt32, Clip, Scaled, Reads, HearAll;
    NotName(t);
    NotName(u);
    NotName(v);
    HearTwo(Fields(m, prev), t, u);
    HearBoth(Fields(m, prev), [t, u], [v]);
    HearOne(Fields(m, Identifier), v);
    assert [t, u] + [v] == [t, u, v];
    ScaledReads(m, index, ts, [t, u, v], prev);
  }

  /** A sign and a name. */
  lemma SignedName(m: Mem, t: Token, u: Token, prev: Kind)
    requires (t.kind == Plus || t.kind == Minus) && u.kind == Identifier
    ensures var reg := ParseRegister(u.text);
      Says(if reg.Some? then m.(index := Some(reg.value.0), scale := 1) else m.(lbl := Clip(u.text, MAX_LABEL)),
           m, prev, [t, u])
  {
    hide IsName, ParseRegister, ToInt32, Clip, HearAll;
    HearTwo(Fields(m, prev), t, u);
    NotName(t);
    NotName(u);
  }

  lemma SignedReads(m: Mem, minus: bool, ts: seq<Token>, prev: Kind)
    requires ts != [] && ts[0].kind == (if minus then Minus else Plus)
    ensures Reads(SignedPart(m, minus, Tail(ts)), m, prev, ts)
  {
    hide IsName, ParseRegister, ToInt32, Clip, Scaled, Reads, Says, AddDisp;
    var t, body := ts[0], Tail(ts);
    TailOf(ts);
    TailOf(body);
    if body != [] {
      var u, after := body[0], Tail(body);
      assert ts == [t, u] + after;
      TailOf(after);
      if u.kind == Identifier && ParseRegister(u.text).Some? && Head(after).kind == Star {
        assert ts == [t, u, after[0]] + Tail(after);
        SignedScaled(m, ParseRegister(u.text).value.0, t, u, after[0], Tail(after), prev);
        return;
      }
      if u.kind == Number && AddDisp(m, minus, u.value).Some? {
        SignedNumber(m, minus, t, u, prev);
      } else if u.kind == Identifier {
        SignedName(m, t, u, prev);
      }
      ReadBefore(SignedPart(m, minus, body), m, prev, [t, u], ts);
    } else {
      ReadBefore(SignedPart(m, minus, body), m, prev, [t], ts);
    }
  }

  lemma NumberReads(m: Mem, ts: seq<Token>, prev: Kind)
    requires ts != [] && ts[0].kind == Number && Between(prev)
    ensures Reads(Component(m, ts), m, prev, ts)
  {
    hide IsName, ToInt32, Clip, Reads, HearAll;
    TailOf(ts);
    HearOne(Fields(m, prev), ts[0]);
    NotName(ts[0]);
    ReadBefore(Component(m, ts), m, prev, [ts[0]], ts);
  }

  lemma StarReads(m: Mem, ts: seq<Token>, prev: Kind)
    requires ts != [] && ts[0].kind == Star
    ensures Reads(Component(m, ts), m, prev, ts)
  {
    hide IsName, ToInt32, Clip, Reads, HearAll;
    TailOf(ts);
    var after := Tail(ts);
    TailOf(after);
    if after != [] {
      HearTwo(Fields(m, prev), ts[0], after[0]);
      NotName(ts[0]);
      NotName(after[0]);
      assert ts == [ts[0], after[0]] + Tail(after);
    }
    ReadBefore(Component(m, ts), m, prev, [ts[0], Head(after)], ts);
  }

  lemma ComponentReads(m: Mem, ts: seq<Token>, prev: Kind)
    requires ts != [] && ts[0].kind != RBracket && ts[0].kind != Eof && Between(prev)
    ensures Reads(Component(m, ts), m, prev, ts)
  {
    hide RegisterOrLabel, SignedPart, Reads, AddDisp;
    TailOf(ts);
    if !Component(m, ts).Parsed? {
      ReadBefore(Component(m, ts), m, prev, [], ts);
      return;
    }
    match ts[0].kind
    case Identifier => RegisterReads(m, ts, prev);
    case Number => NumberReads(m, ts, prev);
    case Plus => SignedReads(m, false, ts, prev);
    case Minus => SignedReads(m, true, ts, prev);
    case Star => StarReads(m, ts, prev);
    case _ =>
  }

  /** The same of a list of components, possibly none. */
  ghost predicate ReadsAll(r: Parsed, m: Mem, prev: Kind, ts: seq<Token>) {
    r.Parsed? ==>
      |r.rest| <= |ts| && ts[|ts| - |r.rest|..] == r.rest && Says(r.mem, m, prev, ts[..|ts| - |r.rest|])
  }

  lemma ReadOn(c: Parsed, r: Parsed, m: Mem, prev: Kind, ts: seq<Token>)
    requires c.Parsed? && Reads(c, m, prev, ts)
    requires forall last :: Between(last) ==> ReadsAll(r, c.mem, last, c.rest)
    ensures ReadsAll(r, m, prev, ts)
  {
    hide HearAll, Fields;
    var read := ts[..|ts| - |c.rest|];
    var s := HearAll(Fields(m, prev), read);
    assert ts == read + c.rest;
    assert ReadsAll(r, c.mem, s.last, c.rest);
    if r.Parsed? {
      var more := c.rest[..|c.rest| - |r.rest|];
      assert ts[..|ts| - |r.rest|] == read + more;
      HearBoth(Fields(m, prev), read, more);
      SaysOn(r.mem, c.mem, m, prev, read, more);
    }
  }

  lemma SaysOn(r: Mem, c: Mem, m: Mem, prev: Kind, read: seq<Token>, more: seq<Token>)
    requires Says(c, m, prev, read) && Says(r, c, HearAll(Fields(m, prev), read).last, more)
    ensures Says(r, m, prev, read + more)
  {
    hide HearAll;
    HearBoth(Fields(m, prev), read, more);
  }

  lemma RestOf(c: Parsed, m: Mem, prev: Kind, ts: seq<Token>)
    requires c.Parsed? && Reads(c, m, prev, ts) && forall t <- ts :: t.kind != Eof
    ensures |c.rest| < |ts| && forall t <- c.rest :: t.kind != Eof
  {
    hide Says;
    assert forall t <- c.rest :: t in ts;
  }

  lemma {:induction false} ComponentsRead(m: Mem, ts: seq<Token>, prev: Kind)
    requires Between(prev) && forall t <- ts :: t.kind != Eof
    ensures ReadsAll(Components(m, ts), m, prev, ts)
    decreases |ts|
  {
    hide Component, Reads, ReadsAll, Between;
    if ts != [] && ts[0].kind != RBracket {
      ComponentReads(m, ts, prev);
      var c := Component(m, ts);
      if c.Parsed? {
        RestOf(c, m, prev, ts);
        forall last | Between(last)
          ensures ReadsAll(Components(c.mem, c.rest), c.mem, last, c.rest)
        {
          ComponentsRead(c.mem, c.rest, last);
        }
        ReadOn(c, Components(c.mem, c.rest), m, prev, ts);
      } else {
        NotRead(Components(m, ts), m, prev, ts);
      }
    } else {
      NothingRead(m, prev, ts);
    }
  }

  lemma NotRead(r: Parsed, m: Mem, prev: Kind, ts: seq<Token>)
    requires !r.Parsed?
    ensures ReadsAll(r, m, prev, ts)
  {
  }

  lemma NothingRead(m: Mem, prev: Kind, ts: seq<Token>)
    requires Between(prev)
    ensures ReadsAll(Parsed(m, ts), m, prev, ts)
  {
    assert ts[..0] == [] && ts[0..] == ts;
  }

  /**
   * Every accepted operand but [abs n]: between its brackets stand the tokens that its label and its displacement
   * are read from, one by one.
   */
  lemma ParsedSays(ts: seq<Token>)
    requires ParseMem(ts).Parsed? && forall t <- ts :: t.kind != Eof
    requires !ParseMem(ts).mem.isAbsolute
    ensures var r := ParseMem(ts);
      && |r.rest| + 2 <= |ts| && ts[|ts| - |r.rest|..] == r.rest
      && ts[0].kind == LBracket && ts[|ts| - |r.rest| - 1].kind == RBracket
      && var s := HearAll(Said("", 0, false, LBracket), ts[1..|ts| - |r.rest| - 1]);
         r.mem.lbl == s.lbl && r.mem.disp == s.disp && r.mem.hasDisp == s.hasDisp
  {
    hide HearAll, Components, Lower;
    TailOf(ts);
    var body := Tail(ts);
    assert forall t <- body :: t in ts;
    ComponentsRead(NO_MEM, body, LBracket);
    var c := Components(NO_MEM, body);
    assert c.Parsed? && Head(c.rest).kind == RBracket;
    TailOf(c.rest);
    assert body[..|body| - |c.rest|] == ts[1..|ts| - |c.rest|];
  }

  // ---- every way of writing an operand ----

  /** A register's name, in any case and of any size. */
  predicate IsRegister(t: Token, r: Reg) {
    t.kind == Identifier && ParseRegister(t.text).Some? && ParseRegister(t.text).value.0 == r
  }

  predicate IsScale(t: Token) { t.kind == Number && Scale(t.value) }

  predicate IsNumber(t: Token) { t.kind == Number && FitsInt32(t.value) && t.value != INT32_MIN }

  // The parts of an operand as they are written; negative says that the displacement has a minus sign.
  datatype Written = Written(base: Option<Token>, index: Option<Token>, scale: Option<Token>,
                             name: Option<Token>, number: Option<Token>, negative: bool)

  const PLUS := Simple(Plus)
  const MINUS := Simple(Minus)
  const STAR := Simple(Star)

  /** A plus sign where something stands before. */
  function Joined(first: bool, ts: seq<Token>): seq<Token> { if first then ts else [PLUS] + ts }

  function IndexPart(w: Written): seq<Token> {
    if w.index.None? then []
    else Joined(w.base.None?, [w.index.value] + (if w.scale.Some? then [STAR, w.scale.value] else []))
  }

  function NamePart(w: Written): seq<Token> {
    if w.name.None? then [] else Joined(w.base.None? && w.index.None?, [w.name.value])
  }

  function NumberPart(w: Written): seq<Token> {
    if w.number.None? then []
    else if w.negative then [MINUS, w.number.value]
    else Joined(w.base.None? && w.index.None? && w.name.None?, [w.number.value])
  }

  function BasePart(w: Written): seq<Token> { if w.base.None? then [] else [w.base.value] }

  /** base + index * scale + name +- number, each part optional, in brackets. */
  function Tokenised(w: Written): seq<Token> {
    [Simple(LBracket)] + (BasePart(w) + (IndexPart(w) + (NamePart(w) + (NumberPart(w) + [Simple(RBracket)]))))
  }

  /** What the parts must be: registers but rip, an index without a base scaled, a name that is none, an int32. */
  predicate Sensible(w: Written, base: Reg, index: Reg) {
    && (w.base.Some? ==> IsRegister(w.base.value, base) && base != RIP && Lower(w.base.value.text) != "abs")
    && (w.index.Some? ==> IsRegister(w.index.value, index) && index != RIP && Lower(w.index.value.text) != "abs")
    && (w.index.Some? && w.base.None? ==> w.scale.Some?)
    && (w.scale.Some? ==> IsScale(w.scale.value))
    && (w.name.Some? ==> IsName(w.name.value) && Lower(w.name.value.text) != "abs")
    && (w.number.Some? ==> IsNumber(w.number.value))
  }

  function NumberOf(w: Written): int {
    if w.number.None? then 0 else if w.negative then -w.number.value.value else w.number.value.value
  }

  /** The operand that was written. */
  function Operand(w: Written, base: Reg, index: Reg): Mem {
    Mem(if w.base.Some? then Some(base) else None, if w.index.Some? then Some(index) else None,
        if w.index.Some? && w.scale.Some? then w.scale.value.value else 1,
        NumberOf(w), w.number.Some?, false, false, Default,
        if w.name.Some? then Clip(w.name.value.text, MAX_LABEL) else "")
  }

  lemma BaseStep(m: Mem, t: Token, r: Reg, ts: seq<Token>)
    requires IsRegister(t, r) && r != RIP && m.base.None? && PrintParse.Follows(ts)
    ensures Components(m, [t] + ts) == Components(m.(base := Some(r)), ts)
  {
    hide ParseRegister, Lower, Components;
    PrintParse.LowerEmpty();
    assert ([t] + ts)[1..] == ts;
    PrintParse.StepTo(m, [t] + ts, m.(base := Some(r)), ts);
  }

  lemma IndexStep(m: Mem, w: Written, base: Reg, r: Reg, ts: seq<Token>)
    requires Sensible(w, base, r) && PrintParse.Follows(ts) && w.index.Some? && m.index.None? && m.scale == 1
    requires m.base.Some? == w.base.Some?
    ensures Components(m, IndexPart(w) + ts)
         == Components(m.(index := Some(r), scale := if w.scale.Some? then w.scale.value.value else 1), ts)
  {
    hide Components, IsRegister, IsScale;
    if w.base.Some? {
      AddedIndex(m, w.index.value, w.scale, r, ts);
    } else {
      FirstIndex(m, w.index.value, w.scale.value, r, ts);
    }
  }

  lemma AddedIndex(m: Mem, i: Token, scale: Option<Token>, r: Reg, ts: seq<Token>)
    requires IsRegister(i, r) && PrintParse.Follows(ts) && m.scale == 1 && (scale.Some? ==> IsScale(scale.value))
    ensures Components(m, [PLUS] + ([i] + (if scale.Some? then [STAR, scale.value] else [])) + ts)
         == Components(m.(index := Some(r), scale := if scale.Some? then scale.value.value else 1), ts)
  {
    hide ParseRegister, Components;
    var all := [PLUS] + ([i] + (if scale.Some? then [STAR, scale.value] else [])) + ts;
    if scale.Some? {
      assert all == [PLUS, i, STAR, scale.value] + ts;
      assert all[1..] == [i, STAR, scale.value] + ts && all[1..][1..] == [STAR, scale.value] + ts;
      assert all[1..][1..][1..] == [scale.value] + ts && all[1..][1..][1..][1..] == ts;
    } else {
      assert all == [PLUS, i] + ts && all[1..] == [i] + ts && all[1..][1..] == ts;
    }
    PrintParse.StepTo(m, all, m.(index := Some(r), scale := if scale.Some? then scale.value.value else 1), ts);
  }

  lemma FirstIndex(m: Mem, i: Token, scale: Token, r: Reg, ts: seq<Token>)
    requires IsRegister(i, r) && r != RIP && IsScale(scale)
    ensures Components(m, ([i] + [STAR, scale]) + ts) == Components(m.(index := Some(r), scale := scale.value), ts)
  {
    hide ParseRegister, Lower, Components;
    PrintParse.LowerEmpty();
    var all := ([i] + [STAR, scale]) + ts;
    assert all == [i, STAR, scale] + ts && all[1..] == [STAR, scale] + ts;
    assert all[1..][1..] == [scale] + ts && all[1..][1..][1..] == ts;
    EmptyNotRip();
    PrintParse.StepTo(m, all, m.(index := Some(r), scale := scale.value), ts);
  }

  lemma EmptyNotRip()
    ensures Lower(STAR.text) != "rip" && Lower(PLUS.text) != "rip"
  {
  }

  lemma NameStep(m: Mem, first: bool, t: Token, ts: seq<Token>)
    requires IsName(t) && PrintParse.Follows(ts)
    ensures Components(m, Joined(first, [t]) + ts) == Components(m.(lbl := Clip(t.text, MAX_LABEL)), ts)
  {
    hide ParseRegister, Lower, Components;
    var all := Joined(first, [t]) + ts;
    if first {
      assert all == [t] + ts && all[1..] == ts;
    } else {
      assert all == [PLUS, t] + ts && all[1..] == [t] + ts && all[1..][1..] == ts;
    }
    PrintParse.StepTo(m, all, m.(lbl := Clip(t.text, MAX_LABEL)), ts);
  }

  lemma NumberStep(m: Mem, first: bool, negative: bool, t: Token, ts: seq<Token>)
    requires IsNumber(t) && m.disp == 0
    ensures var part := if negative then [MINUS, t] else Joined(first, [t]);
      Components(m, part + ts) == Components(m.(disp := if negative then -t.value else t.value, hasDisp := true), ts)
  {
    hide Components;
    var part := if negative then [MINUS, t] else Joined(first, [t]);
    var all := part + ts;
    if first && !negative {
      assert all == [t] + ts && all[1..] == ts;
    } else {
      assert all == [if negative then MINUS else PLUS, t] + ts && all[1..] == [t] + ts && all[1..][1..] == ts;
    }
    PrintParse.StepTo(m, all, m.(disp := if negative then -t.value else t.value, hasDisp := true), ts);
  }

  lemma PartsEnd(w: Written, rest: seq<Token>)
    requires w.number.None? || w.negative || w.base.Some? || w.index.Some? || w.name.Some?
    ensures PrintParse.Follows(NumberPart(w) + ([Simple(RBracket)] + rest))
    ensures w.name.None? || w.base.Some? || w.index.Some? ==>
        PrintParse.Follows(NamePart(w) + (NumberPart(w) + ([Simple(RBracket)] + rest)))
  {
  }

  /** The parts behind the base, into m. */
  lemma PartsRead(m: Mem, w: Written, base: Reg, index: Reg, rest: seq<Token>)
    requires Sensible(w, base, index)
    requires m == if w.base.Some? then NO_MEM.(base := Some(base)) else NO_MEM
    ensures Components(m, IndexPart(w) + (NamePart(w) + (NumberPart(w) + ([Simple(RBracket)] + rest))))
         == Parsed(Operand(w, base, index), [Simple(RBracket)] + rest)
  {
    hide Components, IsRegister, IsName, IsNumber, IsScale, Clip, Lower, PrintParse.Follows;
    var end := [Simple(RBracket)] + rest;
    var numbers := NumberPart(w) + end;
    var names := NamePart(w) + numbers;
    var m2 := if w.index.Some?
              then m.(index := Some(index), scale := if w.scale.Some? then w.scale.value.value else 1) else m;
    var m3 := if w.name.Some? then m2.(lbl := Clip(w.name.value.text, MAX_LABEL)) else m2;
    if w.index.Some? || w.name.Some? {
      PartsEnd(w, rest);
    }
    if w.index.Some? {
      IndexStep(m, w, base, index, names);
    } else {
      assert IndexPart(w) + names == names;
    }
    if w.name.Some? {
      NameStep(m2, w.base.None? && w.index.None?, w.name.value, numbers);
    } else {
      assert names == numbers;
    }
    NumbersRead(m3, w, rest);
  }

  lemma NumbersRead(m: Mem, w: Written, rest: seq<Token>)
    requires (w.number.Some? ==> IsNumber(w.number.value)) && m.disp == 0 && !m.hasDisp
    ensures Components(m, NumberPart(w) + ([Simple(RBracket)] + rest))
         == Parsed(m.(disp := NumberOf(w), hasDisp := w.number.Some?), [Simple(RBracket)] + rest)
  {
    hide Components, IsNumber;
    var end := [Simple(RBracket)] + rest;
    if w.number.Some? {
      NumberStep(m, w.base.None? && w.index.None? && w.name.None?, w.negative, w.number.value, end);
    } else {
      assert NumberPart(w) + end == end;
    }
    EndRead(m.(disp := NumberOf(w), hasDisp := w.number.Some?), rest);
  }

  /** An operand written part by part is read back as it was meant: register sizes do not matter. */
  lemma WrittenRead(w: Written, base: Reg, index: Reg, rest: seq<Token>)
    requires Sensible(w, base, index)
    ensures ParseMem(Tokenised(w) + rest) == Parsed(Operand(w, base, index), rest)
  {
    hide Lower, Components, IsRegister, IsName, IsNumber, IsScale, Clip, PrintParse.Follows, IndexPart, NamePart,
         NumberPart;
    var end := [Simple(RBracket)] + rest;
    var parts := IndexPart(w) + (NamePart(w) + (NumberPart(w) + end));
    var body := BasePart(w) + parts;
    assert Tokenised(w) + rest == [Simple(LBracket)] + body;
    assert ([Simple(LBracket)] + body)[1..] == body;
    PartsRead(if w.base.Some? then NO_MEM.(base := Some(base)) else NO_MEM, w, base, index, rest);
    if w.base.Some? {
      BaseEnds(w, rest);
      BaseStep(NO_MEM, w.base.value, base, parts);
    } else {
      assert body == parts;
    }
    NotAbs(w, base, index, rest);
    Closed(Operand(w, base, index), body, rest);
  }

  /** Behind the components the bracket closes. */
  lemma Closed(m: Mem, body: seq<Token>, rest: seq<Token>)
    requires Components(NO_MEM, body) == Parsed(m, [Simple(RBracket)] + rest)
    requires !(m.isRip && (m.base.Some? || m.index.Some?))
    requires Head(body).kind == Identifier ==> Lower(Head(body).text) != "abs"
    ensures ParseMem([Simple(LBracket)] + body) == Parsed(m, rest)
  {
    hide Components, Lower;
    assert ([Simple(LBracket)] + body)[1..] == body;
    EndRead(m, rest);
  }

  /** The same behind rip, where a label needs the plus sign. */
  lemma WrittenRip(t: Token, w: Written, rest: seq<Token>)
    requires IsRegister(t, RIP) && Sensible(w, 0, 0) && w.base.None? && w.index.None? && Lower(t.text) != "abs"
    ensures var name := if w.name.Some? then [PLUS, w.name.value] else [];
      var number := if w.number.Some? then [if w.negative then MINUS else PLUS, w.number.value] else [];
      ParseMem([Simple(LBracket)] + ([t] + (name + (number + ([Simple(RBracket)] + rest)))))
      == Parsed(Operand(w, 0, 0).(isRip := true), rest)
  {
    hide Components, IsName, IsNumber, Clip, ParseRegister, Lower, PrintParse.Follows;
    var end := [Simple(RBracket)] + rest;
    var number := if w.number.Some? then [if w.negative then MINUS else PLUS, w.number.value] else [];
    var name := if w.name.Some? then [PLUS, w.name.value] else [];
    var m1 := NO_MEM.(isRip := true);
    var m2 := if w.name.Some? then m1.(lbl := Clip(w.name.value.text, MAX_LABEL)) else m1;
    assert ([t] + (name + (number + end)))[1..] == name + (number + end);
    PrintParse.StepTo(NO_MEM, [t] + (name + (number + end)), m1, name + (number + end));
    RipEnds(w, rest);
    assert forall x: Token :: [PLUS] + [x] == [PLUS, x];
    if w.name.Some? {
      NameStep(m1, false, w.name.value, number + end);
    } else {
      assert name + (number + end) == number + end;
    }
    if w.number.Some? {
      NumberStep(m2, false, w.negative, w.number.value, end);
    } else {
      assert number + end == end;
    }
    EndRead(m2.(disp := NumberOf(w), hasDisp := w.number.Some?), rest);
    Closed(Operand(w, 0, 0).(isRip := true), [t] + (name + (number + end)), rest);
  }

  lemma RipEnds(w: Written, rest: seq<Token>)
    ensures var number := if w.number.Some? then [if w.negative then MINUS else PLUS, w.number.value] else [];
      PrintParse.Follows(number + ([Simple(RBracket)] + rest))
  {
  }

  lemma BaseEnds(w: Written, rest: seq<Token>)
    requires w.base.Some?
    ensures PrintParse.Follows(IndexPart(w) + (NamePart(w) + (NumberPart(w) + ([Simple(RBracket)] + rest))))
  {
  }

  lemma EndRead(m: Mem, rest: seq<Token>)
    ensures Components(m, [Simple(RBracket)] + rest) == Parsed(m, [Simple(RBracket)] + rest)
    ensures Head([Simple(RBracket)] + rest).kind == RBracket && Tail([Simple(RBracket)] + rest) == rest
  {
  }

  /** The first token is not the word abs. */
  lemma NotAbs(w: Written, base: Reg, index: Reg, rest: seq<Token>)
    requires Sensible(w, base, index)
    ensures var body := BasePart(w) + (IndexPart(w) + (NamePart(w) + (NumberPart(w) + ([Simple(RBracket)] + rest))));
      Head(body).kind == Identifier ==> Lower(Head(body).text) != "abs"
  {
    hide ParseRegister, Lower;
  }

  // ---- what is read otherwise than it is written ----

  /** The sign in front of a register is not looked at: [rax - rcx] is [rax + rcx]. */
  lemma RegisterSign(m: Mem, t: Token, r: Reg, ts: seq<Token>)
    requires IsRegister(t, r)
    ensures SignedPart(m, true, [t] + ts) == SignedPart(m, false, [t] + ts)
    ensures PrintParse.Follows(ts) ==> SignedPart(m, true, [t] + ts) == Parsed(m.(index := Some(r), scale := 1), ts)
  {
    hide ParseRegister, Scaled;
    assert ([t] + ts)[1..] == ts;
  }

  /** Nor that in front of a label, unless rip stands before it, where the minus sign is an error. */
  lemma NameSign(m: Mem, t: Token, ts: seq<Token>)
    requires IsName(t)
    ensures SignedPart(m, false, [t] + ts) == Parsed(m.(lbl := Clip(t.text, MAX_LABEL)), ts)
    ensures SignedPart(m, true, [t] + ts) == if m.isRip then Rejected else SignedPart(m, false, [t] + ts)
  {
    hide ParseRegister, Clip;
    assert ([t] + ts)[1..] == ts;
  }

  /** rip behind a sign is taken for an index: [x + rip] is a label with index rip, not rip-relative. */
  lemma RipAsIndex(name: Token, rip: Token, rest: seq<Token>)
    requires IsName(name) && Lower(name.text) != "abs" && IsRegister(rip, RIP)
    ensures ParseMem([Simple(LBracket)] + ([name] + ([PLUS, rip] + ([Simple(RBracket)] + rest))))
         == Parsed(NO_MEM.(lbl := Clip(name.text, MAX_LABEL), index := Some(RIP)), rest)
  {
    hide ParseRegister, Lower, Components, Clip;
    var end := [Simple(RBracket)] + rest;
    var m := NO_MEM.(lbl := Clip(name.text, MAX_LABEL));
    NameStep(NO_MEM, true, name, [PLUS, rip] + end);
    RegisterSign(m, rip, RIP, end);
    assert ([PLUS, rip] + end)[1..] == [rip] + end;
    PrintParse.StepTo(m, [PLUS, rip] + end, m.(index := Some(RIP), scale := 1), end);
    EndRead(m.(index := Some(RIP)), rest);
    Closed(m.(index := Some(RIP)), [name] + ([PLUS, rip] + end), rest);
  }

  /** [abs n] is the absolute address n, an int32. */
  lemma AbsoluteRead(t: Token, n: Token, rest: seq<Token>)
    requires t.kind == Identifier && Lower(t.text) == "abs" && n.kind == Number
    ensures ParseMem([Simple(LBracket), t, n, Simple(RBracket)] + rest)
         == Parsed(Mem(None, None, 1, ToInt32(n.value), true, true, false, Default, ""), rest)
  {
    hide Lower;
    var all := [Simple(LBracket), t, n, Simple(RBracket)] + rest;
    assert all[1..] == [t, n, Simple(RBracket)] + rest && all[1..][1..] == [n, Simple(RBracket)] + rest;
    assert all[1..][1..][1..] == [Simple(RBracket)] + rest && all[1..][1..][1..][1..] == rest;
  }
}
