// The text printed for a memory operand is tokenised and parsed back to the same operand.

module PrintParse {
  import opened Bytes
  import opened Operands
  import opened Text
  import opened Lexing
  import opened MemParsing

  /** The memory operands format_rm_operand can produce. */
  predicate Printed(m: Mem) {
    && (m.base.Some? ==> IsGpr(m.base.value))
    && (m.index.Some? ==> IsGpr(m.index.value))
    && Scale(m.scale) && (m.index.None? ==> m.scale == 1)
    && FitsInt32(m.disp) && (!m.hasDisp ==> m.disp == 0)
    && (m.isRip ==> m.base.None? && m.index.None? && m.hasDisp)
    && (m.base.None? && m.index.None? ==> m.hasDisp)
    && !m.isAbsolute && m.segment == Default && m.lbl == ""
  }

  // ---- single tokens ----

  lemma SpanExact(s: string, p: char -> bool, limit: nat, n: nat)
    requires n <= |s| && n <= limit
    requires forall k :: 0 <= k < n ==> p(s[k])
    requires n < |s| && n < limit ==> !p(s[n])
    ensures Span(s, p, limit) == n
  {
  }

  lemma TokensStep(s: string, t: Token, n: nat)
    requires s != [] && n <= |s| && !IsSpace(s[0]) && s[0] != ';' && s[0] != '/'
    requires TokenAt(s) == (t, n) && t.kind != Eof
    ensures Tokens(s) == [t] + Tokens(s[n..])
  {
    hide TokenAt;
    assert SkipBlank(s) == 0;
    assert s[0..] == s;
  }

  lemma TokensPunctuation(c: char, rest: string)
    requires Punctuation(c).Some?
    ensures Tokens([c] + rest) == [Simple(Punctuation(c).value)] + Tokens(rest)
  {
    var s := [c] + rest;
    assert s[1..] == rest;
    TokensStep(s, Simple(Punctuation(c).value), 1);
  }

  lemma TokensIdentifier(name: string, rest: string)
    requires 0 < |name| < MAX_LINE - 1 && IsAlpha(name[0])
    requires forall k :: 0 <= k < |name| ==> IsIdentChar(name[k])
    requires rest != [] ==> !IsIdentChar(rest[0])
    ensures Tokens(name + rest) == [Token(Identifier, name, 0)] + Tokens(rest)
  {
    var s := name + rest;
    SpanExact(s, c => IsIdentChar(c), MAX_LINE - 1, |name|);
    assert s[..|name|] == name && s[|name|..] == rest;
    assert TokenAt(s) == (Token(Identifier, name, 0), |name|);
    TokensStep(s, Token(Identifier, name, 0), |name|);
  }

  lemma {:induction false} DigitsLength(n: nat, k: nat)
    requires n < Pow256(k)
    ensures |Hex(n)| <= 2 * k + 1
    decreases k
  {
    assert n > 0 ==> k > 0;
    if 16 <= n < 256 {
      assert Digits(n, 16) == [Digit(n / 16)] + [Digit(n % 16)];
    } else if n >= 256 {
      var q := Quotient(n, 16);
      assert Quotient(q, 16) == n / 256;
      DigitsLength(n / 256, k - 1);
    }
  }

  lemma NumberText(n: nat)
    requires n <= UINT32_MAX
    ensures |"0x" + Hex(n)| < MAX_LINE && ParseNumber("0x" + Hex(n)) == n
  {
    hide IsHexDigit, DigitValue, Digits, DigitsValue;
    Pow256Values();
    DigitsLength(n, 4);
    var t := "0x" + Hex(n);
    assert t[2..] == Hex(n);
    SpanExact(Hex(n), c => IsDigitOf(c, 16), |Hex(n)|, |Hex(n)|);
    assert Hex(n)[..|Hex(n)|] == Hex(n);
    DigitsInverse(n, 16);
  }

  lemma TokensNumber(text: string, value: int, rest: string)
    requires text != [] && |text| < MAX_LINE && IsDecDigit(text[0]) && ParseNumber(text) == value
    requires rest != [] ==> !IsHexDigit(rest[0]) && rest[0] != 'x' && rest[0] != 'X'
    requires HasPrefix0(text, 'x', 'X') || |text| == 1
    requires forall k :: (if |text| == 1 then 0 else 2) <= k < |text| ==> IsHexDigit(text[k])
    ensures Tokens(text + rest) == [Token(Number, text, value)] + Tokens(rest)
  {
    hide ParseNumber;
    var s := text + rest;
    var start := if |text| == 1 then 0 else 2;
    assert s[..|text|] == text && s[|text|..] == rest;
    assert |text| == 1 && rest != [] ==> s[1] == rest[0];
    var tail := s[start..];
    assert forall k :: 0 <= k < |text| - start ==> tail[k] == text[start + k];
    assert rest != [] ==> tail[|text| - start] == rest[0];
    SpanExact(tail, c => IsHexDigit(c), |s|, |text| - start);
    assert HasPrefix0(s, 'x', 'X') <==> start == 2;
    assert start == 0 ==> !HasPrefix0(s, 'b', 'B');
    assert NumberLength(s) == |text|;
    assert TokenAt(s) == (Token(Number, text, value), |text|);
    TokensStep(s, Token(Number, text, value), |text|);
  }

  function HexToken(n: nat): Token { Token(Number, "0x" + Hex(n), n) }

  lemma TokensHex(n: nat, rest: string)
    requires n <= UINT32_MAX
    requires rest != [] ==> rest[0] == ']'
    ensures Tokens("0x" + Hex(n) + rest) == [HexToken(n)] + Tokens(rest)
  {
    hide ParseNumber, Tokens;
    NumberText(n);
    TokensNumber("0x" + Hex(n), n, rest);
  }

  function ScaleToken(s: int): Token
  {
    Token(Number, ScaleDigit(s), s)
  }

  lemma TokensScale(s: int, rest: string)
    requires Scale(s)
    requires rest != [] ==> rest[0] == ']' || rest[0] == '+' || rest[0] == '-'
    ensures Tokens(ScaleDigit(s) + rest) == [ScaleToken(s)] + Tokens(rest)
  {
    ScaleValue(s);
    hide ParseNumber, Tokens;
    TokensNumber(ScaleDigit(s), s, rest);
  }

  lemma ScaleValue(s: int)
    requires Scale(s)
    ensures ParseNumber(ScaleDigit(s)) == s
  {
    var t := ScaleDigit(s);
    SpanExact(t, c => IsDigitOf(c, 10), 1, 1);
    assert t[..1] == t && t[..0] == [];
    assert DigitsValue(t, 10) == Shifted(DigitsValue([], 10), DigitValue(t[0]), 10);
  }

  // ---- register names ----

  lemma LowerSame(s: string)
    requires forall k :: 0 <= k < |s| ==> !('A' <= s[k] <= 'Z')
    ensures Lower(s) == s
  {
  }

  lemma Reg64Names(r: Reg)
    requires IsGpr(r)
    ensures 2 <= |REG64[r]| <= 3 && REG64[r][0] == 'r'
    ensures forall k :: 0 <= k < |REG64[r]| ==> IsIdentChar(REG64[r][k]) && !('A' <= REG64[r][k] <= 'Z')
    ensures REG64[r] != "rip" && REG64[r] != "abs"
  {
  }

  lemma Reg64Distinct(j: nat, r: nat)
    requires j < r < 16
    ensures REG64[j] != REG64[r]
  {
    assert REG64[j][1] != REG64[r][1]
      || |REG64[j]| != |REG64[r]|
      || REG64[j][2] != REG64[r][2];
  }

  lemma ParseReg64(r: Reg)
    requires IsGpr(r)
    ensures ParseRegister(REG64[r]) == Some((r, R64)) && Lower(REG64[r]) == REG64[r]
  {
    Reg64Names(r);
    LowerSame(REG64[r]);
    forall j | 0 <= j < r
      ensures REG64[j] != REG64[r]
    {
      Reg64Distinct(j, r);
    }
    FindNameAt(REG64, r);
  }

  function RegToken(r: Reg): Token
    requires IsGpr(r)
  {
    Token(Identifier, REG64[r], 0)
  }

  lemma TokensReg(r: Reg, rest: string)
    requires IsGpr(r)
    requires rest != [] ==> rest[0] == ']' || rest[0] == '+' || rest[0] == '-' || rest[0] == '*'
    ensures Tokens(RegName(r, R64) + rest) == [RegToken(r)] + Tokens(rest)
  {
    hide Tokens;
    Reg64Names(r);
    TokensIdentifier(REG64[r], rest);
  }

  lemma ParseRip()
    ensures ParseRegister("rip") == Some((RIP, R64))
  {
    LowerSame("rip");
    NoRip(REG64); NoRip(REG32); NoRip(REG16); NoRip(REG8); NoRip(REG8H);
    hide FindName;
  }

  lemma NoRip(names: seq<string>)
    requires names == REG64 || names == REG32 || names == REG16 || names == REG8 || names == REG8H
    ensures FindName(names, "rip") == None
  {
    forall k | 0 <= k < |names|
      ensures names[k] != "rip"
    {
      assert |names[k]| != 3 || names[k][0] != 'r' || names[k][1] != 'i';
    }
    NotIn(names, "rip");
  }

  lemma {:induction false} NotIn(names: seq<string>, name: string)
    requires forall k :: 0 <= k < |names| ==> names[k] != name
    ensures FindName(names, name) == None
  {
    if names != [] {
      NotIn(names[1..], name);
    }
  }

  // ---- the tokens of a printed operand ----

  const LB := Simple(LBracket)
  const RB := Simple(RBracket)
  const PLUS := Simple(Plus)
  const MINUS := Simple(Minus)
  const STAR := Simple(Star)
  const RIP_TOKEN := Token(Identifier, "rip", 0)

  function SignedTokens(v: int): seq<Token> {
    if v < 0 then [MINUS, HexToken(-v)] else [PLUS, HexToken(v)]
  }

  function DispTokens(m: Mem): seq<Token> {
    if !m.hasDisp then []
    else if m.base.None? && m.index.None? && !m.isRip then [HexToken(m.disp % TWO32)]
    else SignedTokens(m.disp)
  }

  function IndexTokens(m: Mem): seq<Token>
    requires m.index.Some? ==> IsGpr(m.index.value)
  {
    if m.index.None? then []
    else (if m.base.Some? then [PLUS] else []) + [RegToken(m.index.value), STAR, ScaleToken(m.scale)]
  }

  function BaseTokens(m: Mem): seq<Token>
    requires m.base.Some? ==> IsGpr(m.base.value)
  {
    if m.isRip then [RIP_TOKEN] else if m.base.Some? then [RegToken(m.base.value)] else []
  }

  lemma TokensSigned(v: int, rest: string)
    requires FitsInt32(v)
    requires rest != [] ==> rest[0] == ']'
    ensures Tokens(SignedHex(v) + rest) == SignedTokens(v) + Tokens(rest)
  {
    hide Tokens, Hex, Digits;
    var n := if v < 0 then -v else v;
    TokensHex(n, rest);
    var c := if v < 0 then '-' else '+';
    TokensPunctuation(c, "0x" + Hex(n) + rest);
    assert SignedHex(v) + rest == [c] + ("0x" + Hex(n) + rest);
  }

  function DispText(m: Mem): string {
    if !m.hasDisp then ""
    else if m.base.None? && m.index.None? && !m.isRip then "0x" + Hex(m.disp % TWO32)
    else SignedHex(m.disp)
  }

  function IndexText(m: Mem): string {
    if m.index.None? then ""
    else (if m.base.Some? then "+" else "") + RegName(m.index.value, R64) + "*" + ScaleDigit(m.scale)
  }

  function BaseText(m: Mem): string {
    if m.isRip then "rip" else if m.base.Some? then RegName(m.base.value, R64) else ""
  }

  lemma TokensDisp(m: Mem, rest: string)
    requires Printed(m) && (rest != [] ==> rest[0] == ']')
    ensures Tokens(DispText(m) + rest) == DispTokens(m) + Tokens(rest)
  {
    hide Tokens, SignedHex;
    if !m.hasDisp {
      assert "" + rest == rest;
    } else if m.base.None? && m.index.None? && !m.isRip {
      TokensHex(m.disp % TWO32, rest);
    } else {
      TokensSigned(m.disp, rest);
    }
  }

  lemma TokensIndex(m: Mem, rest: string)
    requires Printed(m) && rest != [] && (m.index.None? || rest[0] == ']' || rest[0] == '+' || rest[0] == '-')
    ensures Tokens(IndexText(m) + rest) == IndexTokens(m) + Tokens(rest)
  {
    hide Tokens, RegName, ScaleDigit, IndexText;
    IndexParts(m, rest);
    if m.index.Some? {
      var bare := RegName(m.index.value, R64) + (['*'] + (ScaleDigit(m.scale) + rest));
      TokensScaled(m.index.value, m.scale, rest);
      if m.base.Some? {
        TokensPunctuation('+', bare);
      }
    }
  }

  lemma IndexParts(m: Mem, rest: string)
    ensures IndexText(m) + rest
         == if m.index.None? then rest
            else
              var bare := RegName(m.index.value, R64) + (['*'] + (ScaleDigit(m.scale) + rest));
              if m.base.Some? then ['+'] + bare else bare
  {
    hide RegName, ScaleDigit;
    if m.index.None? {
      assert "" + rest == rest;
    }
  }

  lemma TokensScaled(r: Reg, scale: int, rest: string)
    requires IsGpr(r) && Scale(scale)
    requires rest != [] ==> rest[0] == ']' || rest[0] == '+' || rest[0] == '-'
    ensures Tokens(RegName(r, R64) + (['*'] + (ScaleDigit(scale) + rest)))
      == [RegToken(r), STAR, ScaleToken(scale)] + Tokens(rest)
  {
    hide Tokens, RegName, ScaleDigit;
    var digit := ScaleDigit(scale) + rest;
    TokensScale(scale, rest);
    TokensPunctuation('*', digit);
    TokensReg(r, ['*'] + digit);
  }

  lemma TokensBase(m: Mem, rest: string)
    requires Printed(m) && rest != []
    requires rest[0] == ']' || rest[0] == '+' || rest[0] == '-' || (!m.isRip && m.base.None?)
    ensures Tokens(BaseText(m) + rest) == BaseTokens(m) + Tokens(rest)
  {
    hide Tokens, RegName;
    if m.isRip {
      TokensIdentifier("rip", rest);
    } else if m.base.Some? {
      TokensReg(m.base.value, rest);
    } else {
      assert "" + rest == rest;
    }
  }

  lemma RenderedText(m: Mem)
    requires Printed(m)
    ensures RenderMem(m) == "[" + (BaseText(m) + (IndexText(m) + (DispText(m) + "]")))
  {
    hide RegName, ScaleDigit, SignedHex, Digits;
    Between(BaseText(m), IndexText(m), DispText(m));
    if m.isRip {
      assert RenderMem(m) == "[rip" + SignedHex(m.disp) + "]";
      Nothing(SignedHex(m.disp));
    } else {
      assert RenderMem(m) == "[" + BaseText(m) + IndexText(m) + DispText(m) + "]";
    }
  }

  lemma Between(base: string, index: string, disp: string)
    ensures "[" + base + index + disp + "]" == "[" + (base + (index + (disp + "]")))
  {
  }

  lemma Nothing(disp: string)
    ensures "[" + "rip" + "" + disp + "]" == "[rip" + disp + "]"
  {
    assert "[" + "rip" + "" == "[rip";
  }

  lemma RenderedTokens(m: Mem, rest: string)
    requires Printed(m)
    ensures Tokens(RenderMem(m) + rest)
         == [LB] + (BaseTokens(m) + (IndexTokens(m) + (DispTokens(m) + ([RB] + Tokens(rest)))))
  {
    hide Tokens, RenderMem, Printed, BaseText, IndexText, DispText, BaseTokens, IndexTokens, DispTokens;
    BaseGpr(m);
    RenderedText(m);
    var d := DispText(m) + ([']'] + rest);
    TokensPunctuation(']', rest);
    TokensDisp(m, [']'] + rest);
    var i := IndexText(m) + d;
    DispStart(m, [']'] + rest);
    TokensIndex(m, d);
    IndexStart(m, d);
    var b := BaseText(m) + i;
    TokensBase(m, i);
    TokensPunctuation('[', b);
    Brackets(BaseText(m), IndexText(m), DispText(m), rest);
  }

  lemma Brackets(base: string, index: string, disp: string, rest: string)
    ensures "[" + (base + (index + (disp + "]"))) + rest == ['['] + (base + (index + (disp + ([']'] + rest))))
  {
  }

  lemma BaseGpr(m: Mem)
    requires Printed(m)
    ensures m.base.Some? ==> IsGpr(m.base.value)
    ensures m.index.Some? ==> IsGpr(m.index.value)
    ensures m.isRip ==> m.base.None? && m.index.None?
  {
  }

  lemma DispStart(m: Mem, rest: string)
    requires Printed(m) && rest != [] && rest[0] == ']'
    ensures var s := DispText(m) + rest;
      s != [] && (s[0] == ']' || s[0] == '+' || s[0] == '-' || (m.base.None? && m.index.None? && !m.isRip))
  {
  }

  lemma IndexStart(m: Mem, rest: string)
    requires Printed(m) && rest != []
    ensures var s := IndexText(m) + rest;
      s != [] && (m.index.None? ==> s == rest) && (m.index.Some? && m.base.Some? ==> s[0] == '+')
  {
  }

  // ---- parsing the tokens ----

  /** The one displacement whose printed magnitude does not fit an int32_t. */
  predicate SignedMinimum(m: Mem) {
    m.disp == INT32_MIN && (m.base.Some? || m.index.Some? || m.isRip)
  }

  /** Tokens that can follow a register without changing what it means. */
  predicate Follows(ts: seq<Token>) {
    ts != [] && ts[0].text == "" && (ts[0].kind == Plus || ts[0].kind == Minus || ts[0].kind == RBracket)
  }

  lemma ParseBase(m: Mem, ts: seq<Token>)
    requires Printed(m) && (m.base.Some? ==> Follows(ts))
    ensures Components(NO_MEM, BaseTokens(m) + ts) == Components(NO_MEM.(base := m.base, isRip := m.isRip), ts)
  {
    hide ParseRegister, Lower, AddDisp, Components;
    if m.isRip || m.base.Some? {
      var all := BaseTokens(m) + ts;
      assert all[1..] == ts;
      ParseRip();
      LowerEmpty();
      if m.base.Some? {
        ParseReg64(m.base.value);
      }
      assert RegisterOrLabel(NO_MEM, all) == Parsed(NO_MEM.(base := m.base, isRip := m.isRip), ts);
      StepTo(NO_MEM, all, NO_MEM.(base := m.base, isRip := m.isRip), ts);
    } else {
      assert BaseTokens(m) + ts == ts;
    }
  }

  lemma LowerEmpty()
    ensures Lower("") != "rip"
  {
  }

  lemma StepTo(m: Mem, ts: seq<Token>, m': Mem, rest: seq<Token>)
    requires ts != [] && ts[0].kind != RBracket && ts[0].kind != Eof
    requires Component(m, ts) == Parsed(m', rest)
    ensures Components(m, ts) == Components(m', rest)
  {
    hide Component;
  }

  lemma ParseIndex(m: Mem, ts: seq<Token>)
    requires Printed(m)
    ensures var m1 := NO_MEM.(base := m.base, isRip := m.isRip);
      Components(m1, IndexTokens(m) + ts) == Components(m1.(index := m.index, scale := m.scale), ts)
  {
    hide ParseRegister, Lower, AddDisp, Components, Component, SignedPart, RegisterOrLabel;
    var m1 := NO_MEM.(base := m.base, isRip := m.isRip);
    if m.index.Some? {
      var m2 := m1.(index := m.index, scale := m.scale);
      IndexComponent(m, ts);
      StepTo(m1, IndexTokens(m) + ts, m2, ts);
    } else {
      assert IndexTokens(m) + ts == ts;
    }
  }

  lemma IndexComponent(m: Mem, ts: seq<Token>)
    requires Printed(m) && m.index.Some?
    ensures var m1 := NO_MEM.(base := m.base, isRip := m.isRip); var all := IndexTokens(m) + ts;
      && all != [] && all[0].kind != RBracket && all[0].kind != Eof
      && Component(m1, all) == Parsed(m1.(index := m.index, scale := m.scale), ts)
  {
    hide ParseRegister, Lower, AddDisp, SignedPart, RegisterOrLabel;
    var m1 := NO_MEM.(base := m.base, isRip := m.isRip);
    var all := IndexTokens(m) + ts;
    var body := [RegToken(m.index.value), STAR, ScaleToken(m.scale)] + ts;
    if m.base.Some? {
      assert all[1..] == body;
      SignedIndex(m1, m.index.value, m.scale, ts);
    } else {
      assert all == body;
      PlainIndex(m1, m.index.value, m.scale, ts);
    }
  }

  lemma SignedIndex(m: Mem, r: Reg, scale: int, ts: seq<Token>)
    requires IsGpr(r) && Scale(scale)
    ensures SignedPart(m, false, [RegToken(r), STAR, ScaleToken(scale)] + ts)
      == Parsed(m.(index := Some(r), scale := scale), ts)
  {
    hide ParseRegister, Lower, AddDisp;
    ParseReg64(r);
    var all := [RegToken(r), STAR, ScaleToken(scale)] + ts;
    assert all[1..] == [STAR, ScaleToken(scale)] + ts && all[1..][1..] == [ScaleToken(scale)] + ts
      && all[1..][1..][1..] == ts;
  }

  lemma PlainIndex(m: Mem, r: Reg, scale: int, ts: seq<Token>)
    requires IsGpr(r) && Scale(scale)
    ensures RegisterOrLabel(m, [RegToken(r), STAR, ScaleToken(scale)] + ts)
      == Parsed(m.(index := Some(r), scale := scale), ts)
  {
    hide ParseRegister, AddDisp;
    ParseReg64(r);
    var all := [RegToken(r), STAR, ScaleToken(scale)] + ts;
    assert all[1..] == [STAR, ScaleToken(scale)] + ts && all[1..][1..] == [ScaleToken(scale)] + ts
      && all[1..][1..][1..] == ts;
    LowerEmpty();
    hide Lower;
  }

  lemma ParseDisp(m: Mem, rest: seq<Token>)
    requires Printed(m)
    ensures Components(m.(disp := 0, hasDisp := false), DispTokens(m) + ([RB] + rest))
         == if SignedMinimum(m) then Overflow else Parsed(m, [RB] + rest)
  {
    hide ParseRegister, Lower, Hex;
    var m2 := m.(disp := 0, hasDisp := false);
    var close := [RB] + rest;
    var all := DispTokens(m) + close;
    assert Components(m, close) == Parsed(m, close);
    if !m.hasDisp {
      assert all == close && m2 == m;
    } else if m.base.None? && m.index.None? && !m.isRip {
      assert all[1..] == close;
      assert AddDisp(m2, false, m.disp % TWO32) == Some(m);
    } else {
      assert all[1..][1..] == close;
      if !SignedMinimum(m) {
        assert AddDisp(m2, m.disp < 0, if m.disp < 0 then -m.disp else m.disp) == Some(m);
      } else {
        assert AddDisp(m2, true, -m.disp) == None;
      }
    }
  }

  lemma ParseBody(m: Mem, rest: seq<Token>)
    requires Printed(m)
    ensures Components(NO_MEM, BaseTokens(m) + (IndexTokens(m) + (DispTokens(m) + ([RB] + rest))))
         == if SignedMinimum(m) then Overflow else Parsed(m, [RB] + rest)
  {
    hide Components;
    var d := DispTokens(m) + ([RB] + rest);
    var i := IndexTokens(m) + d;
    ParseBase(m, i);
    ParseIndex(m, d);
    ParseDisp(m, rest);
    assert NO_MEM.(base := m.base, isRip := m.isRip).(index := m.index, scale := m.scale)
        == m.(disp := 0, hasDisp := false);
  }

  lemma NotAbsolute(m: Mem, ts: seq<Token>)
    requires Printed(m)
    ensures var body := BaseTokens(m) + (IndexTokens(m) + (DispTokens(m) + ([RB] + ts)));
      body != [] && !(body[0].kind == Identifier && Lower(body[0].text) == "abs")
  {
    hide Hex;
    LowerSame("rip");
    if m.base.Some? {
      ParseReg64(m.base.value);
      Reg64Names(m.base.value);
    } else if m.index.Some? {
      ParseReg64(m.index.value);
      Reg64Names(m.index.value);
    }
  }

  /**
   * Print, then parse: every operand the disassembler can print is read back exactly, field by field
   * and with nothing of the following text consumed. The single exception is the most negative
   * displacement written with a minus sign, where the parser's int32_t arithmetic overflows.
   */
  lemma {:induction false} PrintThenParse(m: Mem, rest: string)
    requires Printed(m)
    ensures ParseMem(Tokens(RenderMem(m) + rest))
         == if SignedMinimum(m) then Overflow else Parsed(m, Tokens(rest))
  {
    hide Tokens, RenderMem, Components, Lower;
    RenderedTokens(m, rest);
    var body := BaseTokens(m) + (IndexTokens(m) + (DispTokens(m) + ([RB] + Tokens(rest))));
    var ts := [LB] + body;
    assert ts[1..] == body;
    NotAbsolute(m, Tokens(rest));
    ParseBody(m, Tokens(rest));
    assert ([RB] + Tokens(rest))[1..] == Tokens(rest);
  }
}
