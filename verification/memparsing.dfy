// Reading a memory operand from a token stream.

module MemParsing {
  import opened Bytes
  import opened Operands
  import opened Text
  import opened Lexing

  // The operand and the tokens behind it, a syntax error, or a displacement
  // whose int32_t arithmetic leaves its range (undefined in C).
  datatype Parsed = Parsed(mem: Mem, rest: seq<Token>) | Rejected | Overflow

  function Head(ts: seq<Token>): Token {
    if ts == [] then Simple(Eof) else ts[0]
  }

  function Tail(ts: seq<Token>): seq<Token> {
    if ts == [] then [] else ts[1..]
  }

  /** mem->displacement += sign * (int32_t)value, with minus for sign == -1; None where that overflows */
  function AddDisp(m: Mem, minus: bool, value: int): Option<Mem> {
    var term := if minus then -ToInt32(value) else ToInt32(value);
    if FitsInt32(term) && FitsInt32(m.disp + term) then Some(m.(disp := m.disp + term, hasDisp := true)) else None
  }

  /** One component of the operand: what the loop body does to mem, and the tokens it leaves. */
  function Component(m: Mem, ts: seq<Token>): (r: Parsed)
    requires Head(ts).kind != RBracket && Head(ts).kind != Eof
    ensures r.Parsed? ==> |r.rest| < |ts|
  {
    match Head(ts).kind
    case Identifier => RegisterOrLabel(m, ts)
    case Number =>
      var d := AddDisp(m, false, Head(ts).value);
      if d.None? then Overflow else Parsed(d.value, Tail(ts))
    case Plus => SignedPart(m, false, Tail(ts))
    case Minus => SignedPart(m, true, Tail(ts))
    case Star =>
      var after := Tail(ts);
      if Head(after).kind != Number || m.index.None? || !Scale(Head(after).value) then Rejected
      else Parsed(m.(scale := Head(after).value), Tail(after))
    case _ => Rejected
  }

  predicate Scale(v: int) { v == 1 || v == 2 || v == 4 || v == 8 }

  function RegisterOrLabel(m: Mem, ts: seq<Token>): (r: Parsed)
    requires ts != [] && ts[0].kind == Identifier
    ensures r.Parsed? ==> |r.rest| < |ts|
  {
    var reg := ParseRegister(ts[0].text);
    var after := ts[1..];
    if reg.None? then Parsed(m.(lbl := Clip(ts[0].text, MAX_LABEL)), after)
    else if reg.value.0 == RIP || (reg.value.1 == R64 && Lower(Head(after).text) == "rip") then
      Parsed(m.(isRip := true), after)
    else if Head(after).kind == Star then
      Scaled(m, reg.value.0, Tail(after))
    else if m.base.None? then Parsed(m.(base := Some(reg.value.0)), after)
    else if m.index.None? then Parsed(m.(index := Some(reg.value.0)), after)
    else Rejected
  }

  /** index*scale, with the star already consumed */
  function Scaled(m: Mem, index: Reg, ts: seq<Token>): (r: Parsed)
    ensures r.Parsed? ==> |r.rest| < |ts|
  {
    if Head(ts).kind != Number || !Scale(Head(ts).value) then Rejected
    else Parsed(m.(index := Some(index), scale := Head(ts).value), Tail(ts))
  }

  /** behind + or - */
  function SignedPart(m: Mem, minus: bool, ts: seq<Token>): (r: Parsed)
    ensures r.Parsed? ==> |r.rest| < |ts|
  {
    if Head(ts).kind == Number then
      var d := AddDisp(m, minus, Head(ts).value);
      if d.None? then Overflow else Parsed(d.value, Tail(ts))
    else if Head(ts).kind == Identifier then
      var reg := ParseRegister(Head(ts).text);
      if reg.Some? then
        if Head(Tail(ts)).kind == Star then Scaled(m, reg.value.0, Tail(Tail(ts)))
        else Parsed(m.(index := Some(reg.value.0), scale := 1), Tail(ts))
      else if minus && m.isRip then Rejected
      else Parsed(m.(lbl := Clip(Head(ts).text, MAX_LABEL)), Tail(ts))
    else Rejected
  }

  /** The component loop, up to the closing bracket or the end of the text. */
  function Components(m: Mem, ts: seq<Token>): (r: Parsed)
    ensures r.Parsed? ==> |r.rest| <= |ts| && (Head(r.rest).kind == RBracket || r.rest == [])
    decreases |ts|
  {
    if ts == [] || ts[0].kind == RBracket then Parsed(m, ts)
    else if ts[0].kind == Eof then Parsed(m, [])
    else
      match Component(m, ts)
      case Parsed(m', rest) => Components(m', rest)
      case other => other
  }

  /** Behind the component loop: the closing bracket and the RIP check. */
  function Close(p: Parsed): Parsed {
    if !p.Parsed? then p
    else if Head(p.rest).kind != RBracket then Rejected
    else if p.mem.isRip && (p.mem.base.Some? || p.mem.index.Some?) then Rejected
    else Parsed(p.mem, Tail(p.rest))
  }

  /** [abs number] behind the word abs */
  function Absolute(ts: seq<Token>): Parsed {
    if Head(ts).kind != Number || Head(Tail(ts)).kind != RBracket then Rejected
    else Parsed(NO_MEM.(isAbsolute := true, disp := ToInt32(Head(ts).value), hasDisp := true), Tail(Tail(ts)))
  }

  /** parse_memory_operand */
  function ParseMem(ts: seq<Token>): Parsed {
    if Head(ts).kind != LBracket then Rejected
    else
      var body := Tail(ts);
      if Head(body).kind == Identifier && Lower(Head(body).text) == "abs" then Absolute(Tail(body))
      else Close(Components(NO_MEM, body))
  }

  // ---- what the parser never builds ----

  /** Parsed operands have an int32 displacement, 0 unless one was written, and a legal scale. */
  predicate Regular(m: Mem) {
    FitsInt32(m.disp) && (!m.hasDisp ==> m.disp == 0) && Scale(m.scale)
  }

  lemma ComponentRegular(m: Mem, ts: seq<Token>)
    requires Regular(m) && Head(ts).kind != RBracket && Head(ts).kind != Eof
    ensures var r := Component(m, ts); r.Parsed? ==> Regular(r.mem)
  {
    hide ParseRegister, ToInt32, Lower, Clip, RegisterOrLabel, SignedPart;
    match Head(ts).kind
    case Identifier => RegisterRegular(m, ts);
    case Plus => SignedRegular(m, false, Tail(ts));
    case Minus => SignedRegular(m, true, Tail(ts));
    case _ =>
  }

  lemma RegisterRegular(m: Mem, ts: seq<Token>)
    requires Regular(m) && ts != [] && ts[0].kind == Identifier
    ensures var r := RegisterOrLabel(m, ts); r.Parsed? ==> Regular(r.mem)
  {
    hide ParseRegister, ToInt32, Lower, Clip;
  }

  lemma SignedRegular(m: Mem, minus: bool, ts: seq<Token>)
    requires Regular(m)
    ensures var r := SignedPart(m, minus, ts); r.Parsed? ==> Regular(r.mem)
  {
    hide ParseRegister, ToInt32, Lower, Clip;
  }

  lemma {:induction false} ComponentsRegular(m: Mem, ts: seq<Token>)
    requires Regular(m)
    ensures var r := Components(m, ts); r.Parsed? ==> Regular(r.mem)
    decreases |ts|
  {
    hide Component, Regular;
    if ts != [] && ts[0].kind != RBracket && ts[0].kind != Eof {
      var c := Component(m, ts);
      ComponentRegular(m, ts);
      if c.Parsed? {
        ComponentsRegular(c.mem, c.rest);
      }
    }
  }

  lemma ParsedRegular(ts: seq<Token>)
    ensures var r := ParseMem(ts);
      r.Parsed? ==> Regular(r.mem) && !(r.mem.isRip && (r.mem.base.Some? || r.mem.index.Some?))
  {
    if Head(ts).kind == LBracket {
      ComponentsRegular(NO_MEM, Tail(ts));
    }
  }
}
