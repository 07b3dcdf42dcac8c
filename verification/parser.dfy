// The tokenizer and the memory-operand parser as the sources run them: a position that moves over
// the text, one token of lookahead, and an operand filled in field by field.

module Parser {
  import opened Bytes
  import opened Operands
  import opened Text
  import opened Lexing
  import opened MemParsing

  /** One character, or one escape, of a quoted literal. */
  lemma BodyStep(s: string, room: nat)
    requires s != "" && s[0] != '"' && room > 0
    ensures var n := if s[0] == '\\' && |s| > 1 then 2 else 1;
      var (t, k) := StringBody(s[n..], room - 1);
      StringBody(s, room) == ([if n == 2 then Escape(s[1]) else s[0]] + t, k + n)
  {
    hide Escape;
  }

  lemma BodyEnd(s: string, room: nat)
    requires s == "" || s[0] == '"' || room == 0
    ensures StringBody(s, room) == ("", 0)
  {
  }

  lemma TokensNext(s: string)
    ensures var (t, n) := NextToken(s); Tokens(s) == if t.kind == Eof then [] else [t] + Tokens(s[n..])
  {
    hide NextToken;
  }

  class ParserState {
    const input: string
    var pos: nat
    var current: Token
    var peek: Token

    ghost predicate Valid()
      reads this
    {
      && pos <= |input|
      && (current.kind == Eof ==> peek.kind == Eof)
      && (peek.kind == Eof ==> Tokens(input[pos..]) == [])
    }

    /** The tokens still to be consumed, the current one first. */
    ghost function Stream(): seq<Token>
      requires pos <= |input|
      reads this
    {
      if current.kind == Eof then []
      else if peek.kind == Eof then [current]
      else [current, peek] + Tokens(input[pos..])
    }

    /** parser_init */
    constructor (text: string)
      ensures input == text && pos == 0 && current.kind == Unknown
    {
      input := text;
      pos := 0;
      current, peek := Simple(Unknown), Simple(Unknown);
    }

    /** init_tokens */
    method InitTokens()
      requires pos == 0 && current.kind == Unknown
      modifies this
      ensures Valid() && Stream() == Tokens(input)
    {
      hide NextToken, Tokens, TokenAt, SkipBlank;
      assert input[0..] == input;
      TokensNext(input);
      peek := Next();
      ghost var rest := Tokens(input[pos..]);
      if peek.kind == Eof {
        assert input[pos..] == "";
        TokensEmpty();
      } else {
        assert ([current, peek] + rest)[1..] == [peek] + rest;
      }
      Advance();
    }

    /** skip_whitespace */
    method SkipWhitespace()
      requires pos <= |input|
      modifies this`pos
      ensures pos == old(pos) + SkipBlank(input[old(pos)..])
    {
      ghost var start := pos;
      while pos < |input|
        invariant start <= pos <= |input|
        invariant SkipBlank(input[start..]) == pos - start + SkipBlank(input[pos..])
      {
        ghost var s := input[pos..];
        assert s[0] == input[pos] && (|s| > 1 ==> s[1] == input[pos + 1]);
        if input[pos] == ';' || (input[pos] == '/' && pos + 1 < |input| && input[pos + 1] == '/') {
          pos := SpanFrom(pos, c => c != '\n', |input| - pos);
          return;
        } else if input[pos] == '\n' {
          return;
        } else if IsSpace(input[pos]) {
          assert s[1..] == input[pos + 1..];
          pos := pos + 1;
        } else {
          break;
        }
      }
    }

    /** The character loops of next_token: where a run of characters satisfying p ends. */
    method SpanFrom(start: nat, p: char -> bool, limit: nat) returns (end: nat)
      requires start <= |input|
      ensures end == start + Span(input[start..], p, limit)
    {
      end := start;
      while end < |input| && end - start < limit && p(input[end])
        invariant start <= end <= |input| && end - start <= limit
        invariant Span(input[start..], p, limit) == end - start + Span(input[end..], p, limit - (end - start))
      {
        assert input[end..][0] == input[end] && input[end..][1..] == input[end + 1..];
        end := end + 1;
      }
    }

    /** The loop over the body of a double-quoted literal. */
    method QuotedFrom(start: nat) returns (text: string, end: nat)
      requires start <= |input|
      ensures (text, end - start) == StringBody(input[start..], MAX_LINE - 1)
      ensures start <= end <= |input|
    {
      text, end := "", start;
      hide StringBody, Escape;
      ghost var (t0, n0) := StringBody(input[start..], MAX_LINE - 1);
      while end < |input| && input[end] != '"' && |text| < MAX_LINE - 1
        invariant start <= end <= |input| && |text| <= MAX_LINE - 1
        invariant var (t, n) := StringBody(input[end..], MAX_LINE - 1 - |text|);
          t0 == text + t && n0 == end - start + n
      {
        ghost var s := input[end..];
        assert s[0] == input[end] && s[1..] == input[end + 1..];
        BodyStep(s, MAX_LINE - 1 - |text|);
        if input[end] == '\\' && end + 1 < |input| {
          assert s[1] == input[end + 1] && s[2..] == input[end + 2..];
          text := text + [Escape(input[end + 1])];
          end := end + 2;
        } else {
          text := text + [input[end]];
          end := end + 1;
        }
      }
      BodyEnd(input[end..], MAX_LINE - 1 - |text|);
      assert text + "" == text;
    }

    /** How long the 0x or 0b of a number is. */
    method PrefixLength() returns (n: nat)
      requires pos < |input|
      ensures var s := input[pos..];
        n == if HasPrefix0(s, 'x', 'X') || HasPrefix0(s, 'b', 'B') then 2 else 0
      ensures pos + n <= |input|
    {
      assert pos + 1 < |input| ==> input[pos..][1] == input[pos + 1];
      n := 0;
      if input[pos] == '0' && pos + 1 < |input|
         && (input[pos + 1] == 'x' || input[pos + 1] == 'X' || input[pos + 1] == 'b' || input[pos + 1] == 'B') {
        n := 2;
      }
    }

    /** The number branch of next_token. */
    method NumberHere() returns (t: Token)
      requires pos < |input| && IsDecDigit(input[pos])
      modifies this`pos
      ensures pos <= |input|
      ensures var s := input[old(pos)..];
        pos == old(pos) + NumberLength(s) && t == NumberToken(s[..NumberLength(s)])
    {
      hide HasPrefix0, NumberToken, Span, IsHexDigit, IsDecDigit;
      ghost var s := input[pos..];
      var prefix := PrefixLength();
      assert s[prefix..] == input[pos + prefix..];
      var end := SpanFrom(pos + prefix, c => IsHexDigit(c), |input| - pos);
      assert s[..end - pos] == input[pos..end];
      t := NumberToken(input[pos..end]);
      pos := end;
    }

    /** The identifier branch of next_token. */
    method IdentifierHere() returns (t: Token)
      requires pos < |input|
      modifies this`pos
      ensures pos <= |input|
      ensures var s := input[old(pos)..]; var n := Span(s, c => IsIdentChar(c), MAX_LINE - 1);
        pos == old(pos) + n && t == Token(Identifier, s[..n], 0)
    {
      hide Span;
      ghost var s := input[pos..];
      var end := SpanFrom(pos, c => IsIdentChar(c), MAX_LINE - 1);
      assert s[..end - pos] == input[pos..end];
      t := Token(Identifier, input[pos..end], 0);
      pos := end;
    }

    /** The literal branches of next_token. */
    method LiteralHere() returns (t: Token)
      requires pos < |input| && (input[pos] == '\'' || input[pos] == '"')
      modifies this`pos
      ensures pos <= |input|
      ensures (t, pos - old(pos)) == TokenAt(input[old(pos)..])
    {
      hide CharLiteral, StringBody;
      ghost var s := input[pos..];
      assert s[0] == input[pos];
      if input[pos] == '\'' {
        var (ch, n) := CharLiteral(input[pos..]);
        pos := pos + n;
        return Token(CharLit, [ch], ch as int % 256);
      }
      assert s[1..] == input[pos + 1..];
      var text, end := QuotedFrom(pos + 1);
      assert end < |input| ==> s[end - pos] == input[end];
      pos := if end < |input| && input[end] == '"' then end + 1 else end;
      return Token(StringLit, text, 0);
    }

    /** next_token, behind the blanks. */
    method TokenHere() returns (t: Token)
      requires pos <= |input|
      modifies this`pos
      ensures pos <= |input|
      ensures (t, pos - old(pos)) == TokenAt(input[old(pos)..])
    {
      hide Span, NumberLength, NumberToken, CharLiteral, StringBody, IsIdentStart;
      if pos == |input| {
        return Simple(Eof);
      }
      var c := input[pos];
      assert input[pos..][0] == c;
      if c == '\n' {
        pos := pos + 1;
        return Simple(Newline);
      }
      var k := Punctuation(c);
      if k.Some? {
        pos := pos + 1;
        return Simple(k.value);
      }
      if c == '\'' || c == '"' {
        t := LiteralHere();
      } else if IsDecDigit(c) {
        t := NumberHere();
      } else if IsIdentStart(c) {
        t := IdentifierHere();
      } else {
        pos := pos + 1;
        t := Simple(Unknown);
      }
    }

    /** next_token */
    method Next() returns (t: Token)
      requires pos <= |input|
      modifies this`pos
      ensures pos <= |input|
      ensures (t, pos - old(pos)) == NextToken(input[old(pos)..])
    {
      hide SkipBlank, TokenAt;
      ghost var start := pos;
      SkipWhitespace();
      assert input[start..][pos - start..] == input[pos..];
      t := TokenHere();
    }

    /** advance */
    method Advance()
      requires Valid()
      modifies this
      ensures Valid()
      ensures Stream() == Tail(old(Stream()))
    {
      hide NextToken, Tokens;
      current := peek;
      if peek.kind == Eof {
        return;
      }
      ghost var s := input[pos..];
      TokensNext(s);
      var t := Next();
      assert s[pos - old(pos)..] == input[pos..];
      if t.kind == Eof {
        assert input[pos..] == "";
      }
      TokensEmpty();
      peek := t;
    }

    /** expect */
    method Expect(k: Kind) returns (ok: bool)
      requires Valid() && k != Eof
      modifies this
      ensures Valid()
      ensures ok == (Head(old(Stream())).kind == k)
      ensures Stream() == if ok then Tail(old(Stream())) else old(Stream())
    {
      ok := current.kind == k;
      if ok {
        Advance();
      }
    }

    /** index*scale, behind the star */
    method ScaledIndex(mem: Mem, index: Reg) returns (r: Option<Mem>)
      requires Valid()
      modifies this
      ensures Valid() && Agrees(Scaled(mem, index, old(Stream())), r)
    {
      if current.kind != Number || !Scale(current.value) {
        return None;
      }
      r := Some(mem.(index := Some(index), scale := current.value));
      Advance();
    }

    /** What a parsing method returns and leaves, against the specification's result. */
    ghost predicate Agrees(spec: Parsed, r: Option<Mem>)
      requires pos <= |input|
      reads this
    {
      match spec
      case Parsed(m, rest) => r == Some(m) && Stream() == rest
      case _ => r == None
    }

    /** The identifier branch of the component loop. */
    method ParseRegisterOrLabel(mem: Mem) returns (r: Option<Mem>)
      requires Valid() && current.kind == Identifier
      modifies this
      ensures Valid() && Agrees(RegisterOrLabel(mem, old(Stream())), r)
    {
      hide Tokens, ParseRegister, Lower, Clip;
      var text := current.text;
      var reg := ParseRegister(text);
      Advance();
      if reg.None? {
        return Some(mem.(lbl := Clip(text, MAX_LABEL)));
      }
      var (n, size) := reg.value;
      if n == RIP || (size == R64 && current.kind != Eof && Lower(current.text) == "rip") {
        return Some(mem.(isRip := true));
      }
      var star := Expect(Star);
      if star {
        r := ScaledIndex(mem, n);
      } else if mem.base.None? {
        r := Some(mem.(base := Some(n)));
      } else if mem.index.None? {
        r := Some(mem.(index := Some(n)));
      } else {
        r := None;
      }
    }

    /** The plus and minus branches, behind the sign. */
    method ParseSigned(mem: Mem, minus: bool) returns (r: Option<Mem>)
      requires Valid()
      modifies this
      ensures Valid() && Agrees(SignedPart(mem, minus, old(Stream())), r)
    {
      hide Tokens, ParseRegister, Lower, Clip, AddDisp, Scaled;
      if current.kind == Number {
        r := AddDisp(mem, minus, current.value);
        if r.Some? {
          Advance();
        }
      } else if current.kind == Identifier {
        var text := current.text;
        var reg := ParseRegister(text);
        if reg.Some? {
          Advance();
          var star := Expect(Star);
          if star {
            r := ScaledIndex(mem, reg.value.0);
          } else {
            r := Some(mem.(index := Some(reg.value.0), scale := 1));
          }
        } else if minus && mem.isRip {
          r := None;
        } else {
          Advance();
          r := Some(mem.(lbl := Clip(text, MAX_LABEL)));
        }
      } else {
        r := None;
      }
    }

    /** One round of the component loop. */
    method ParseComponent(mem: Mem) returns (r: Option<Mem>)
      requires Valid() && current.kind != RBracket && current.kind != Eof
      modifies this
      ensures Valid() && Agrees(Component(mem, old(Stream())), r)
    {
      hide Tokens, ParseRegister, Lower, Clip, AddDisp, RegisterOrLabel, SignedPart;
      match current.kind
      case Identifier => r := ParseRegisterOrLabel(mem);
      case Number =>
        r := AddDisp(mem, false, current.value);
        if r.Some? {
          Advance();
        }
      case Plus => Advance(); r := ParseSigned(mem, false);
      case Minus => Advance(); r := ParseSigned(mem, true);
      case Star =>
        Advance();
        if current.kind == Number && mem.index.Some? && Scale(current.value) {
          r := Some(mem.(scale := current.value));
          Advance();
        } else {
          r := None;
        }
      case _ => r := None;
    }

    /** [abs number], behind the word */
    method ParseAbsolute() returns (r: Option<Mem>)
      requires Valid()
      modifies this
      ensures Valid() && Agrees(Absolute(old(Stream())), r)
    {
      if current.kind != Number {
        return None;
      }
      r := Some(NO_MEM.(isAbsolute := true, disp := ToInt32(current.value), hasDisp := true));
      Advance();
      var closed := Expect(RBracket);
      if !closed {
        r := None;
      }
    }

    /** parse_memory_operand: on success the operand and exactly its tokens, as ParseMem says. */
    method ParseMemoryOperand() returns (r: Option<Mem>)
      requires Valid()
      modifies this
      ensures Valid() && Agrees(ParseMem(old(Stream())), r)
    {
      hide Tokens, Component, Absolute, Lower;
      var open := Expect(LBracket);
      if !open {
        return None;
      }
      if current.kind == Identifier && Lower(current.text) == "abs" {
        Advance();
        r := ParseAbsolute();
        return;
      }
      ghost var body := Stream();
      var mem := NO_MEM;
      while current.kind != RBracket && current.kind != Eof
        invariant Valid()
        invariant Components(NO_MEM, body) == Components(mem, Stream())
        decreases |Stream()|
      {
        var next := ParseComponent(mem);
        if next.None? {
          return None;
        }
        mem := next.value;
      }
      assert Components(mem, Stream()) == Parsed(mem, Stream());
      var closed := Expect(RBracket);
      if !closed || (mem.isRip && (mem.base.Some? || mem.index.Some?)) {
        return None;
      }
      return Some(mem);
    }
  }
}
