// Source text: how each token can be written, and that the tokenizer reads any sequence of them back; blanks and
// comments count for nothing.

module Sources {
  import opened Bytes
  import opened Operands
  import opened Text
  import opened Lexing
  import opened PrintParse

  const UPPER: string := "ABCDEFGHIJKLMNOPQRSTUVWXYZ"
  const LOWER: string := "abcdefghijklmnopqrstuvwxyz"

  lemma Alphabet(m: nat)
    requires m < 26
    ensures UPPER[m] as int == 65 + m && LOWER[m] as int == 97 + m
  {
  }

  lemma Folded(c: char)
    ensures c !in UPPER ==> ToLower(c) == c
    ensures forall m :: 0 <= m < 26 && c == UPPER[m] ==> ToLower(c) == LOWER[m]
  {
    forall m | 0 <= m < 26 && c == UPPER[m]
      ensures ToLower(c) == LOWER[m]
    {
      Alphabet(m);
    }
    if 'A' <= c <= 'Z' {
      Alphabet(c as int - 65);
    }
  }

  /** Capital letters are folded one by one, and nothing else changes. */
  lemma LowerLetters(s: string, k: nat)
    requires k < |s|
    ensures |Lower(s)| == |s| && (s[k] !in UPPER ==> Lower(s)[k] == s[k])
    ensures forall m :: 0 <= m < 26 && s[k] == UPPER[m] ==> Lower(s)[k] == LOWER[m]
  {
    hide ToLower;
    Folded(s[k]);
  }

  // ---- how tokens are written ----

  predicate Letter(c: char) { c in UPPER || c in LOWER || c == '_' || c == '.' || c == '@' }

  predicate Name(s: string) {
    0 < |s| < MAX_LINE - 1 && Letter(s[0]) && forall k :: 0 <= k < |s| ==> Letter(s[k]) || s[k] in "0123456789"
  }

  /** A number in decimal, hexadecimal or binary. */
  predicate Numeral(s: string, v: int) {
    0 <= v <= LLONG_MAX && (s == Digits(v, 10) || s == "0x" + Digits(v, 16) || s == "0b" + Digits(v, 2))
  }

  /** A character inside quotes. */
  function Quoted(c: char): string {
    if c == '\n' then "\\n" else if c == '\t' then "\\t" else if c == '\r' then "\\r" else if c == '\0' then "\\0"
    else if c == '\\' then "\\\\" else if c == '"' then "\\\"" else if c == '\'' then "\\'" else [c]
  }

  function QuotedAll(s: string): string { if s == [] then "" else Quoted(s[0]) + QuotedAll(s[1..]) }

  /** The tokens that can be written. */
  predicate Writable(t: Token) {
    match t.kind
    case Identifier => Name(t.text) && t.value == 0
    case Number => Numeral(t.text, t.value)
    case StringLit => |t.text| < MAX_LINE && t.value == 0
    case CharLit => |t.text| == 1 && t.value == t.text[0] as int % 256
    case Eof | Unknown => false
    case _ => t.text == "" && t.value == 0
  }

  function Spell(t: Token): string
    requires Writable(t)
  {
    match t.kind
    case Newline => "\n" case Colon => ":" case Comma => "," case LBracket => "[" case RBracket => "]"
    case Plus => "+" case Minus => "-" case Star => "*" case Dollar => "$"
    case StringLit => "\"" + QuotedAll(t.text) + "\""
    case CharLit => "'" + Quoted(t.text[0]) + "'"
    case _ => t.text
  }

  predicate AllWritable(ts: seq<Token>) { forall t <- ts :: Writable(t) }

  /** The tokens with a blank behind each. */
  function Line(ts: seq<Token>): string
    requires AllWritable(ts)
  {
    if ts == [] then "" else Spell(ts[0]) + " " + Line(ts[1..])
  }

  // ---- one token ----

  lemma NumeralLength(v: nat, b: Base, k: nat)
    requires v < Power2(k) && k > 0
    ensures |Digits(v, b)| <= k
    decreases k
  {
    if v >= b {
      assert k > 1;
      assert Quotient(v, b) <= v / 2 < Power2(k - 1);
      NumeralLength(Quotient(v, b), b, k - 1);
    }
  }

  function Power2(k: nat): (p: nat)
    ensures p >= 1
  {
    if k == 0 then 1 else 2 * Power2(k - 1)
  }

  lemma Power63()
    ensures Power2(63) == LLONG_MAX + 1
  {
    assert Power2(8) == 256;
    assert Power2(16) == 65536 by { assert Power2(12) == 4096; }
    assert Power2(24) == 0x100_0000 by { assert Power2(20) == 0x10_0000; }
    assert Power2(32) == 0x1_0000_0000 by { assert Power2(28) == 0x1000_0000; }
    assert Power2(40) == 0x100_0000_0000 by { assert Power2(36) == 0x10_0000_0000; }
    assert Power2(48) == 0x1_0000_0000_0000 by { assert Power2(44) == 0x1000_0000_0000; }
    assert Power2(56) == 0x100_0000_0000_0000 by { assert Power2(52) == 0x10_0000_0000_0000; }
    assert Power2(60) == 0x1000_0000_0000_0000;
  }

  /** strtoll on the digits of a number. */
  lemma ReadDigits(v: nat, b: Base)
    requires v <= LLONG_MAX
    ensures StrToLL(Digits(v, b), b) == v && |Digits(v, b)| <= 63
    ensures forall k :: 0 <= k < |Digits(v, b)| ==> IsHexDigit(Digits(v, b)[k])
  {
    hide Digits, DigitsValue, IsHexDigit, DigitValue;
    Power63();
    NumeralLength(v, b, 63);
    var s := Digits(v, b);
    SpanExact(s, c => IsDigitOf(c, b), |s|, |s|);
    assert s[..|s|] == s;
    DigitsInverse(v, b);
  }

  /** Decimal numbers start with a digit and hold no letter. */
  lemma {:induction false} Decimal(v: nat)
    ensures var s := Digits(v, 10);
      IsDecDigit(s[0]) && forall k :: 0 <= k < |s| ==> IsDecDigit(s[k])
  {
    if v >= 10 {
      Decimal(v / 10);
    }
  }

  lemma NumeralRead(s: string, v: int)
    requires Numeral(s, v)
    ensures 0 < |s| <= 65 && IsDecDigit(s[0]) && ParseNumber(s) == v
    ensures (s[0] == '0' && |s| >= 2 && (s[1] == 'x' || s[1] == 'b') && forall k :: 2 <= k < |s| ==> IsHexDigit(s[k]))
         || (forall k :: 0 <= k < |s| ==> IsDecDigit(s[k]))
  {
    hide Digits, StrToLL;
    if s == Digits(v, 10) {
      ReadDigits(v, 10);
      Decimal(v);
    } else if s == "0x" + Digits(v, 16) {
      ReadDigits(v, 16);
      assert s[2..] == Digits(v, 16);
    } else {
      ReadDigits(v, 2);
      assert s[2..] == Digits(v, 2);
    }
  }

  lemma NoBlank(s: string)
    requires s != [] && (s[0] == '\n' || !IsSpace(s[0])) && s[0] != ';' && s[0] != '/'
    ensures SkipBlank(s) == 0
  {
  }

  /** A token that starts with no blank, and what is behind it. */
  lemma Reads(s: string, t: Token, n: nat)
    requires s != [] && n <= |s| && (s[0] == '\n' || !IsSpace(s[0])) && s[0] != ';' && s[0] != '/'
    requires TokenAt(s) == (t, n) && t.kind != Eof
    ensures Tokens(s) == [t] + Tokens(s[n..])
  {
    hide TokenAt, SkipBlank;
    NoBlank(s);
    assert s[0..] == s;
  }

  lemma LetterIs(c: char)
    ensures Letter(c) <==> IsIdentStart(c)
    ensures Letter(c) || c in "0123456789" <==> IsIdentChar(c)
    ensures c in "0123456789" <==> IsDecDigit(c)
  {
    forall m | 0 <= m < 26
      ensures UPPER[m] as int == 65 + m && LOWER[m] as int == 97 + m
    {
      Alphabet(m);
    }
    if 'A' <= c <= 'Z' {
      assert UPPER[c as int - 65] == c;
    }
    if 'a' <= c <= 'z' {
      assert LOWER[c as int - 97] == c;
    }
    assert forall d :: 0 <= d < 10 ==> "0123456789"[d] as int == 48 + d;
    if '0' <= c <= '9' {
      assert "0123456789"[c as int - 48] == c;
    }
  }

  /** What starts a name starts nothing else. */
  lemma Apart(c: char)
    ensures IsIdentStart(c) ==>
      !IsSpace(c) && c != ';' && c != '/' && c != '\'' && c != '"' && !IsDecDigit(c) && Punctuation(c) == None
    ensures !IsIdentChar(' ') && !IsHexDigit(' ')
  {
  }

  lemma NameRead(name: string, rest: string)
    requires Name(name) && rest != [] && rest[0] == ' '
    ensures Tokens(name + rest) == [Token(Identifier, name, 0)] + Tokens(rest)
  {
    hide Letter, IsIdentStart, IsIdentChar, Tokens;
    var s := name + rest;
    forall c: char {
      LetterIs(c);
    }
    Apart(name[0]);
    SpanExact(s, c => IsIdentChar(c), MAX_LINE - 1, |name|);
    assert s[..|name|] == name && s[|name|..] == rest;
    assert TokenAt(s) == (Token(Identifier, name, 0), |name|);
    Reads(s, Token(Identifier, name, 0), |name|);
  }

  lemma NumberRead(text: string, v: int, rest: string)
    requires Numeral(text, v) && rest != [] && rest[0] == ' '
    ensures Tokens(text + rest) == [Token(Number, text, v)] + Tokens(rest)
  {
    hide ParseNumber, Tokens, Numeral, IsHexDigit;
    NumeralRead(text, v);
    Apart(' ');
    var s := text + rest;
    assert s[..|text|] == text && s[|text|..] == rest;
    NumberTaken(text, rest);
    StartsNumber(text[0]);
    assert TokenAt(s) == (Token(Number, text, v), |text|);
    Reads(s, Token(Number, text, v), |text|);
  }

  lemma StartsNumber(c: char)
    ensures IsDecDigit(c) ==>
      !IsSpace(c) && c != ';' && c != '/' && c != '\n' && c != '\'' && c != '"' && Punctuation(c) == None
  {
  }

  lemma NumberTaken(text: string, rest: string)
    requires text != [] && IsDecDigit(text[0]) && rest != [] && rest[0] == ' '
    requires (text[0] == '0' && |text| >= 2 && (text[1] == 'x' || text[1] == 'b')
              && forall k :: 2 <= k < |text| ==> IsHexDigit(text[k]))
          || (forall k :: 0 <= k < |text| ==> IsDecDigit(text[k]))
    ensures NumberLength(text + rest) == |text|
  {
    var s := text + rest;
    assert |text| == 1 ==> s[1] == ' ';
    assert |text| > 1 ==> s[1] == text[1];
    var start := if HasPrefix0(s, 'x', 'X') || HasPrefix0(s, 'b', 'B') then 2 else 0;
    assert start == 0 ==> forall k :: 0 <= k < |text| ==> IsDecDigit(text[k]);
    var tail := s[start..];
    assert forall k :: 0 <= k < |text| - start ==> tail[k] == text[start + k];
    assert tail[|text| - start] == ' ';
    SpanExact(tail, c => IsHexDigit(c), |s|, |text| - start);
  }

  // ---- literals ----

  lemma QuotedEscape(c: char)
    ensures if |Quoted(c)| == 2 then Quoted(c)[0] == '\\' && Escape(Quoted(c)[1]) == c
            else Quoted(c) == [c] && c != '\\' && c != '"' && c != '\''
    ensures 1 <= |Quoted(c)| <= 2
  {
  }

  lemma QuotedFirst(t: string)
    requires t != []
    ensures QuotedAll(t) == Quoted(t[0]) + QuotedAll(t[1..])
  {
  }

  lemma BodyEnd(rest: string, room: nat)
    requires rest != [] && rest[0] == '"'
    ensures StringBody(rest, room) == ("", 0) && QuotedAll("") == ""
  {
  }

  lemma Grouped(a: string, b: string, c: string)
    ensures (a + b) + c == a + (b + c)
  {
  }

  lemma {:induction false} BodyRead(t: string, rest: string, room: nat)
    requires |t| <= room && rest != [] && rest[0] == '"'
    ensures StringBody(QuotedAll(t) + rest, room) == (t, |QuotedAll(t)|)
  {
    hide StringBody, Quoted, QuotedAll;
    if t == [] {
      BodyEnd(rest, room);
      assert "" + rest == rest;
    } else {
      QuotedFirst(t);
      BodyRead(t[1..], rest, room - 1);
      Grouped(Quoted(t[0]), QuotedAll(t[1..]), rest);
      BodyStep(t[0], QuotedAll(t[1..]) + rest, room);
      assert t == [t[0]] + t[1..];
    }
  }

  /** The first character of a body, escaped or not. */
  lemma BodyStep(c: char, more: string, room: nat)
    requires room > 0
    ensures var b := StringBody(more, room - 1);
      StringBody(Quoted(c) + more, room) == ([c] + b.0, |Quoted(c)| + b.1)
  {
    hide Quoted, Escape;
    QuotedEscape(c);
    var q, s := Quoted(c), Quoted(c) + more;
    assert s[|q|..] == more && s[0] == q[0];
    if |q| == 2 {
      assert s[1] == q[1];
    }
  }

  lemma StringRead(t: string, rest: string)
    requires |t| < MAX_LINE
    ensures Tokens("\"" + QuotedAll(t) + "\"" + rest) == [Token(StringLit, t, 0)] + Tokens(rest)
  {
    hide Tokens, StringBody, QuotedAll;
    var s := "\"" + QuotedAll(t) + "\"" + rest;
    var n := |QuotedAll(t)|;
    assert s[1..] == QuotedAll(t) + ("\"" + rest);
    BodyRead(t, "\"" + rest, MAX_LINE - 1);
    assert s[1 + n] == '"' && s[n + 2..] == rest;
    assert TokenAt(s) == (Token(StringLit, t, 0), n + 2);
    Reads(s, Token(StringLit, t, 0), n + 2);
  }

  lemma CharRead(c: char, rest: string)
    ensures Tokens("'" + Quoted(c) + "'" + rest) == [Token(CharLit, [c], c as int % 256)] + Tokens(rest)
  {
    hide Tokens, Quoted, Escape;
    QuotedEscape(c);
    var q, s := Quoted(c), "'" + Quoted(c) + "'" + rest;
    assert s[1] == q[0] && s[|q| + 1] == '\'' && s[|q| + 2..] == rest;
    assert |q| == 2 ==> s[2] == q[1];
    assert TokenAt(s) == (Token(CharLit, [c], c as int % 256), |q| + 2);
    Reads(s, Token(CharLit, [c], c as int % 256), |q| + 2);
  }

  lemma MarkRead(t: Token, rest: string)
    requires Writable(t) && t.kind in {Newline, Colon, Comma, LBracket, RBracket, Plus, Minus, Star, Dollar}
    ensures Tokens(Spell(t) + rest) == [t] + Tokens(rest)
  {
    hide Tokens;
    var s := Spell(t) + rest;
    assert s[1..] == rest && s[0] == Spell(t)[0];
    assert TokenAt(s) == (t, 1);
    Reads(s, t, 1);
  }

  // ---- whole texts ----

  lemma Dropped(s: string, k: nat, n: nat)
    requires k + n <= |s|
    ensures s[k..][n..] == s[k + n..]
  {
  }

  /** The first token of a text and the others. */
  lemma Unfolded(s: string)
    ensures var n := SkipBlank(s); var r := TokenAt(s[n..]);
      Tokens(s) == if r.0.kind == Eof then [] else [r.0] + Tokens(s[n + r.1..])
  {
    hide SkipBlank, TokenAt;
  }

  lemma Passed(s: string, k: nat)
    requires k <= |s| && SkipBlank(s) == k + SkipBlank(s[k..])
    ensures Tokens(s) == Tokens(s[k..])
  {
    hide SkipBlank, TokenAt, Tokens;
    var n := SkipBlank(s[k..]);
    Dropped(s, k, n);
    Unfolded(s);
    Unfolded(s[k..]);
    Dropped(s, k, n + TokenAt(s[k + n..]).1);
  }

  /** A blank is passed over. */
  lemma BlankSkipped(c: char, rest: string)
    requires IsSpace(c) && c != '\n'
    ensures Tokens([c] + rest) == Tokens(rest)
  {
    hide Tokens;
    var s := [c] + rest;
    assert s[1..] == rest;
    Passed(s, 1);
  }

  lemma CommentLength(text: string, rest: string)
    requires (text != [] && text[0] == ';') || (|text| > 1 && text[0] == '/' && text[1] == '/')
    requires forall k :: 0 <= k < |text| ==> text[k] != '\n'
    requires rest == [] || rest[0] == '\n'
    ensures SkipBlank(text + rest) == |text| && SkipBlank(rest) == 0
  {
    var s := text + rest;
    SpanExact(s, c => c != '\n', |s|, |text|);
    hide Span;
  }

  /** A comment is passed over up to the end of its line. */
  lemma CommentSkipped(text: string, rest: string)
    requires (text != [] && text[0] == ';') || (|text| > 1 && text[0] == '/' && text[1] == '/')
    requires forall k :: 0 <= k < |text| ==> text[k] != '\n'
    requires rest == [] || rest[0] == '\n'
    ensures Tokens(text + rest) == Tokens(rest)
  {
    hide SkipBlank, Tokens;
    var s := text + rest;
    CommentLength(text, rest);
    assert s[|text|..] == rest;
    Passed(s, |text|);
  }

  /** Any sequence of tokens, written down with a blank behind each, is read back. */
  lemma {:induction false} TokensRead(ts: seq<Token>)
    requires AllWritable(ts)
    ensures Tokens(Line(ts)) == ts
  {
    hide Tokens, Writable, Spell;
    if ts == [] {
      TokensEmpty();
    } else {
      var t, rest := ts[0], Line(ts[1..]);
      assert t in ts && AllWritable(ts[1..]);
      TokensRead(ts[1..]);
      BlankSkipped(' ', rest);
      assert Spell(t) + " " + rest == Spell(t) + ([' '] + rest);
      OneRead(t, [' '] + rest);
    }
  }

  lemma OneRead(t: Token, rest: string)
    requires Writable(t) && rest != [] && rest[0] == ' '
    ensures Tokens(Spell(t) + rest) == [t] + Tokens(rest)
  {
    hide Tokens, Name, Numeral, Quoted, QuotedAll;
    match t.kind
    case Identifier => NameRead(t.text, rest);
    case Number => NumberRead(t.text, t.value, rest);
    case StringLit => StringRead(t.text, rest);
    case CharLit =>
      assert t.text == [t.text[0]];
      CharRead(t.text[0], rest);
    case _ => MarkRead(t, rest);
  }

  /** A printed immediate is a sign, where it needs one, and a number. */
  lemma ImmPrinted(v: int, rest: string)
    requires -LLONG_MAX <= v <= LLONG_MAX && rest != [] && rest[0] == ' '
    ensures var n := if v < 0 then -v else v;
      Tokens(RenderImm(v) + rest)
      == (if v < 0 then [Simple(Minus)] else []) + [Token(Number, "0x" + Hex(n), n)] + Tokens(rest)
  {
    hide Tokens, Digits;
    var n := if v < 0 then -v else v;
    NumberRead("0x" + Hex(n), n, rest);
    if v < 0 {
      assert "-0x" + Hex(n) + rest == "-" + ("0x" + Hex(n) + rest);
      MarkRead(Simple(Minus), "0x" + Hex(n) + rest);
    }
  }
}
