// The tokens of a source line. A text is a C string: no zero characters, and its end is where
// the C code meets the terminator.

module Lexing {
  import opened Bytes
  import opened Operands
  import opened Text

  datatype Kind = Eof | Newline | Colon | Comma | LBracket | RBracket | Plus | Minus | Star | Dollar
    | CharLit | StringLit | Number | Identifier | Unknown

  datatype Token = Token(kind: Kind, text: string, value: int)

  function Simple(k: Kind): Token { Token(k, "", 0) }

  predicate IsSpace(c: char) { c == ' ' || 9 <= c as int <= 13 }

  predicate IsAlpha(c: char) { 'a' <= c <= 'z' || 'A' <= c <= 'Z' }

  predicate IsIdentStart(c: char) { IsAlpha(c) || c == '_' || c == '.' || c == '@' }

  predicate IsIdentChar(c: char) { IsIdentStart(c) || IsDecDigit(c) }

  function ToLower(c: char): char {
    if 'A' <= c <= 'Z' then (c as int + 32) as char else c
  }

  function Lower(s: string): (r: string)
    ensures |r| == |s|
    ensures forall k :: 0 <= k < |s| ==> r[k] == ToLower(s[k])
  {
    if s == [] then [] else [ToLower(s[0])] + Lower(s[1..])
  }

  const MAX_LINE: nat := 1024
  const MAX_LABEL: nat := 256

  /** The length of the longest prefix of s, at most limit, on which p holds. */
  function Span(s: string, p: char -> bool, limit: nat): (n: nat)
    ensures n <= |s| && n <= limit
    ensures forall k :: 0 <= k < n ==> p(s[k])
    ensures n < |s| && n < limit ==> !p(s[n])
  {
    if s == [] || limit == 0 || !p(s[0]) then 0 else 1 + Span(s[1..], p, limit - 1)
  }

  /** skip_whitespace: blanks, then a comment up to the end of its line. */
  function SkipBlank(s: string): (n: nat)
    ensures n <= |s|
    ensures n < |s| ==> s[n] == '\n' || !IsSpace(s[n])
  {
    if s == [] then 0
    else if s[0] == ';' || (s[0] == '/' && |s| > 1 && s[1] == '/') then Span(s, c => c != '\n', |s|)
    else if s[0] == '\n' then 0
    else if IsSpace(s[0]) then 1 + SkipBlank(s[1..])
    else 0
  }

  const LLONG_MAX: int := 0x7FFF_FFFF_FFFF_FFFF

  /** strtoll on a text without sign or blanks: digits up to the first foreign character, saturating. */
  function StrToLL(s: string, b: Base): int {
    var n := Span(s, c => IsDigitOf(c, b), |s|);
    var v := DigitsValue(s[..n], b);
    if v > LLONG_MAX then LLONG_MAX else v
  }

  predicate HasPrefix0(s: string, lower: char, upper: char) {
    |s| >= 2 && s[0] == '0' && (s[1] == lower || s[1] == upper)
  }

  /** parse_number */
  function ParseNumber(s: string): int {
    if HasPrefix0(s, 'x', 'X') then StrToLL(s[2..], 16)
    else if HasPrefix0(s, 'b', 'B') then StrToLL(s[2..], 2)
    else StrToLL(s, 10)
  }

  /** The length of a number token; every hexadecimal digit is taken, whatever the base. */
  function NumberLength(s: string): (n: nat)
    requires s != [] && IsDecDigit(s[0])
    ensures 1 <= n <= |s|
  {
    var start := if HasPrefix0(s, 'x', 'X') || HasPrefix0(s, 'b', 'B') then 2 else 0;
    start + Span(s[start..], c => IsHexDigit(c), |s|)
  }

  function Punctuation(c: char): Option<Kind> {
    if c == ':' then Some(Colon) else if c == ',' then Some(Comma)
    else if c == '[' then Some(LBracket) else if c == ']' then Some(RBracket)
    else if c == '+' then Some(Plus) else if c == '-' then Some(Minus)
    else if c == '*' then Some(Star) else if c == '$' then Some(Dollar)
    else None
  }

  function Escape(c: char): char {
    if c == 'n' then '\n' else if c == 't' then '\t' else if c == 'r' then '\r' else if c == '0' then '\0' else c
  }

  /** A single-quoted literal at s: its character and its length. */
  function CharLiteral(s: string): (r: (char, nat))
    requires s != [] && s[0] == '\''
    ensures 1 <= r.1 <= |s|
  {
    var (c, n) :=
      if |s| > 2 && s[1] == '\\' then (Escape(s[2]), 3)
      else if |s| > 1 && s[1] != '\'' then (s[1], 2)
      else ('\0', 1);
    (c, if n < |s| && s[n] == '\'' then n + 1 else n)
  }

  /** The body of a double-quoted literal: its text and how many characters it takes. */
  function StringBody(s: string, room: nat): (r: (string, nat))
    ensures r.1 <= |s|
    decreases |s|
  {
    if s == [] || s[0] == '"' || room == 0 then ("", 0)
    else if s[0] == '\\' && |s| > 1 then
      var (t, n) := StringBody(s[2..], room - 1);
      ([Escape(s[1])] + t, n + 2)
    else
      var (t, n) := StringBody(s[1..], room - 1);
      ([s[0]] + t, n + 1)
  }

  /** The token of a number as written; the text field has room for MAX_LINE - 1 characters. */
  function NumberToken(written: string): Token {
    var text := Clip(written, MAX_LINE);
    Token(Number, text, ParseNumber(text))
  }

  /** The part of s that fits a buffer of the given size with its terminator. */
  function Clip(s: string, size: nat): string
    requires size > 0
  {
    if |s| < size then s else s[..size - 1]
  }

  /** The token at the front of s, which starts with no blank, and its length. */
  function TokenAt(s: string): (r: (Token, nat))
    ensures r.1 <= |s|
    ensures s != [] ==> r.1 > 0 && r.0.kind != Eof
  {
    if s == [] then (Simple(Eof), 0)
    else if s[0] == '\n' then (Simple(Newline), 1)
    else if Punctuation(s[0]).Some? then (Simple(Punctuation(s[0]).value), 1)
    else if s[0] == '\'' then
      var (c, n) := CharLiteral(s);
      (Token(CharLit, [c], c as int % 256), n)
    else if s[0] == '"' then
      var (t, n) := StringBody(s[1..], MAX_LINE - 1);
      var end := 1 + n;
      (Token(StringLit, t, 0), if end < |s| && s[end] == '"' then end + 1 else end)
    else if IsDecDigit(s[0]) then
      var n := NumberLength(s);
      (NumberToken(s[..n]), n)
    else if IsIdentStart(s[0]) then
      var n := Span(s, c => IsIdentChar(c), MAX_LINE - 1);
      (Token(Identifier, s[..n], 0), n)
    else (Simple(Unknown), 1)
  }

  /** next_token: the token and the number of characters it moves over, blanks included. */
  function NextToken(s: string): (r: (Token, nat))
    ensures r.1 <= |s|
    ensures r.0.kind != Eof ==> r.1 > 0
    ensures r.0.kind == Eof ==> r.1 == |s|
  {
    var skip := SkipBlank(s);
    var (t, n) := TokenAt(s[skip..]);
    (t, skip + n)
  }

  /** All tokens of s up to the end of the text. */
  function Tokens(s: string): (ts: seq<Token>)
    ensures forall t <- ts :: t.kind != Eof
    decreases |s|
  {
    var (t, n) := NextToken(s);
    if t.kind == Eof then [] else [t] + Tokens(s[n..])
  }

  lemma TokensEmpty()
    ensures Tokens("") == []
  {
  }

  // ---- register names ----

  /** The position of name in one bank of the register table. */
  function FindName(names: seq<string>, name: string): (r: Option<nat>)
    ensures r.Some? ==> r.value < |names|
  {
    if names == [] then None
    else if names[0] == name then Some(0)
    else
      var r := FindName(names[1..], name);
      if r.None? then None else Some(r.value + 1)
  }

  lemma {:induction false} FindNameAt(names: seq<string>, k: nat)
    requires k < |names| && forall j :: 0 <= j < k ==> names[j] != names[k]
    ensures FindName(names, names[k]) == Some(k)
  {
    if k > 0 {
      assert names[1..][k - 1] == names[k];
      assert forall j :: 0 <= j < k - 1 ==> names[1..][j] == names[j + 1];
      assert names[0] != names[k];
      FindNameAt(names[1..], k - 1);
    }
  }

  function Bank(names: seq<string>, name: string, offset: nat, size: RegSize): Option<(Reg, RegSize)>
    requires offset + |names| <= 32
  {
    var r :- FindName(names, name);
    Some((offset + r, size))
  }

  /** parse_register: the table is searched bank by bank, ignoring case. */
  function ParseRegister(name: string): Option<(Reg, RegSize)> {
    var n := Lower(name);
    var r64 := Bank(REG64, n, 0, R64);
    if r64.Some? then r64 else
    var r32 := Bank(REG32, n, 0, R32);
    if r32.Some? then r32 else
    var r16 := Bank(REG16, n, 0, R16);
    if r16.Some? then r16 else
    var r8 := Bank(REG8, n, 0, R8);
    if r8.Some? then r8 else
    var r8h := Bank(REG8H, n, 4, R8H);
    if r8h.Some? then r8h else
    if n == "rip" then Some((RIP, R64)) else Bank(XMM, n, 16, Xmm)
  }
}
