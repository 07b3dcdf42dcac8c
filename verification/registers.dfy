// The names of the registers by the rule they are made with, and the parser's reading of them: each name is read
// back, in any case of letters, and nothing else is.

module Registers {
  import opened Operands
  import opened Text
  import opened Lexing
  import opened PrintParse

  const PAIRS: seq<string> := ["ax", "cx", "dx", "bx", "sp", "bp", "si", "di"]

  function Dec(n: nat): string { Digits(n, 10) }

  /** The registers there are, size by size. */
  predicate Exists(r: Reg, size: RegSize) {
    match size
    case R64 => r < 16 || r == 32
    case R32 | R16 | R8 => r < 16
    case R8H => 4 <= r < 8
    case Xmm => 16 <= r < 32
  }

  /** The eight old registers have a name with a letter or two around it, the new ones a number. */
  function Spelling(r: Reg, size: RegSize): string
    requires Exists(r, size)
  {
    match size
    case R64 => if r == 32 then "rip" else if r < 8 then "r" + PAIRS[r] else "r" + Dec(r)
    case R32 => if r < 8 then "e" + PAIRS[r] else "r" + Dec(r) + "d"
    case R16 => if r < 8 then PAIRS[r] else "r" + Dec(r) + "w"
    case R8 => if r < 4 then [PAIRS[r][0]] + "l" else if r < 8 then PAIRS[r] + "l" else "r" + Dec(r) + "b"
    case R8H => [PAIRS[r - 4][0]] + "h"
    case Xmm => "xmm" + Dec(r - 16)
  }

  lemma DecSmall(n: nat)
    requires n < 16
    ensures Dec(n) == if n < 10 then [HEX_DIGITS[n]] else ['1', HEX_DIGITS[n - 10]]
  {
    if n >= 10 {
      assert Digits(1, 10) == [Digit(1)];
    }
  }

  /** The table agrees with the rule. */
  lemma Spelt(r: Reg, size: RegSize)
    requires Exists(r, size)
    ensures RegName(r, size) == Spelling(r, size)
  {
    match size
    case R64 => Spelt64(r);
    case R32 => Spelt32(r);
    case R16 => Spelt16(r);
    case R8 => Spelt8(r);
    case R8H =>
    case Xmm => SpeltXmm(r);
  }

  lemma Spelt64(r: Reg)
    requires Exists(r, R64)
    ensures RegName(r, R64) == Spelling(r, R64)
  {
    if 8 <= r < 16 { DecSmall(r); }
    hide Dec;
  }

  lemma Spelt32(r: Reg)
    requires r < 16
    ensures RegName(r, R32) == Spelling(r, R32)
  {
    if r >= 8 { DecSmall(r); }
    hide Dec;
  }

  lemma Spelt16(r: Reg)
    requires r < 16
    ensures RegName(r, R16) == Spelling(r, R16)
  {
    if r >= 8 { DecSmall(r); }
    hide Dec;
  }

  lemma Spelt8(r: Reg)
    requires r < 16
    ensures RegName(r, R8) == Spelling(r, R8)
  {
    if r >= 8 { DecSmall(r); }
    hide Dec;
  }

  lemma SpeltXmm(r: Reg)
    requires 16 <= r < 32
    ensures RegName(r, Xmm) == Spelling(r, Xmm)
  {
    DecSmall(r - 16);
    hide Dec;
  }

  // ---- reading a name ----

  /** The banks of the register table. */
  function BankOf(size: RegSize): seq<string> {
    match size
    case R64 => REG64 case R32 => REG32 case R16 => REG16 case R8 => REG8 case R8H => REG8H case Xmm => XMM
  }

  /** The size a name shows: by its last letter, and its first. */
  function Class(s: string): RegSize
    requires |s| >= 2
  {
    var last := s[|s| - 1];
    if s[0] == 'x' then Xmm
    else if last == 'l' || last == 'b' then R8
    else if last == 'h' then R8H
    else if last == 'd' then R32
    else if last == 'w' then R16
    else if s[0] == 'r' then R64
    else if s[0] == 'e' then R32
    else R16
  }

  /** What a name of a bank looks like. */
  predicate Shaped(s: string, size: RegSize) {
    |s| >= 2 && Class(s) == size && s != "rip" && forall j :: 0 <= j < |s| ==> !('A' <= s[j] <= 'Z')
  }

  lemma Shapes64(k: nat)
    requires k < 16
    ensures Shaped(REG64[k], R64) && Shaped(REG32[k], R32)
  {
  }

  lemma Shapes16(k: nat)
    requires k < 16
    ensures Shaped(REG16[k], R16) && Shaped(REG8[k], R8)
  {
  }

  lemma ShapesRest(k: nat)
    ensures k < 4 ==> Shaped(REG8H[k], R8H)
    ensures k < 16 ==> Shaped(XMM[k], Xmm)
  {
  }

  lemma Shapes(size: RegSize, k: nat)
    requires k < |BankOf(size)|
    ensures Shaped(BankOf(size)[k], size)
  {
    hide Shaped;
    if k < 16 {
      Shapes64(k);
      Shapes16(k);
    }
    ShapesRest(k);
  }

  lemma Distinct32(j: nat, k: nat)
    requires j < k < 16
    ensures REG32[j] != REG32[k]
  {
    assert |REG32[j]| != |REG32[k]| || REG32[j][1] != REG32[k][1] || REG32[j][2] != REG32[k][2];
  }

  lemma Distinct16(j: nat, k: nat)
    requires j < k < 16
    ensures REG16[j] != REG16[k]
  {
    assert |REG16[j]| != |REG16[k]| || REG16[j][0] != REG16[k][0] || REG16[j][1] != REG16[k][1]
      || REG16[j][2] != REG16[k][2];
  }

  lemma Distinct8(j: nat, k: nat)
    requires j < k < 16
    ensures REG8[j] != REG8[k]
  {
    assert |REG8[j]| != |REG8[k]| || REG8[j][0] != REG8[k][0] || REG8[j][1] != REG8[k][1] || REG8[j][2] != REG8[k][2];
  }

  lemma DistinctXmm(j: nat, k: nat)
    requires j < k < 16
    ensures XMM[j] != XMM[k]
  {
    assert |XMM[j]| != |XMM[k]| || XMM[j][3] != XMM[k][3] || XMM[j][4] != XMM[k][4];
  }

  lemma Distinct(size: RegSize, j: nat, k: nat)
    requires j < k < |BankOf(size)|
    ensures BankOf(size)[j] != BankOf(size)[k]
  {
    match size
    case R64 => Reg64Distinct(j, k);
    case R32 => Distinct32(j, k);
    case R16 => Distinct16(j, k);
    case R8 => Distinct8(j, k);
    case R8H => assert REG8H[j][0] != REG8H[k][0];
    case Xmm => DistinctXmm(j, k);
  }

  lemma {:induction false} FoundThere(names: seq<string>, name: string)
    ensures var r := FindName(names, name);
      if r.Some? then names[r.value] == name else forall k :: 0 <= k < |names| ==> names[k] != name
  {
    if names != [] && names[0] != name {
      FoundThere(names[1..], name);
      assert forall k :: 1 <= k < |names| ==> names[k] == names[1..][k - 1];
    }
  }

  /** A bank gives its own names their number and knows no others. */
  lemma BankReads(size: RegSize, n: string)
    ensures var r := FindName(BankOf(size), n);
      && (r.Some? ==> BankOf(size)[r.value] == n && Shaped(n, size))
      && (|n| >= 2 && Class(n) != size ==> r == None) && (n == "rip" ==> r == None)
    ensures forall k {:trigger BankOf(size)[k]} ::
      0 <= k < |BankOf(size)| && BankOf(size)[k] == n ==> FindName(BankOf(size), n) == Some(k)
  {
    hide BankOf, Class;
    FoundThere(BankOf(size), n);
    var r := FindName(BankOf(size), n);
    if r.Some? {
      Shapes(size, r.value);
    }
    forall k {:trigger BankOf(size)[k]} | 0 <= k < |BankOf(size)| && BankOf(size)[k] == n
      ensures r == Some(k)
    {
      if k < r.value { Distinct(size, k, r.value); }
      if r.value < k { Distinct(size, r.value, k); }
    }
  }

  /** The number of a bank's first register. */
  function First(size: RegSize): nat { if size == Xmm then 16 else if size == R8H then 4 else 0 }

  lemma TablePlace(r: Reg, size: RegSize)
    requires Exists(r, size) && r != 32
    ensures r >= First(size) && r - First(size) < |BankOf(size)|
    ensures RegName(r, size) == BankOf(size)[r - First(size)]
  {
  }

  lemma BankRegister(size: RegSize, k: nat)
    requires k < |BankOf(size)|
    ensures First(size) + k < 32 && Exists(First(size) + k, size)
  {
  }

  /** parse_register in terms of the banks. */
  lemma Searched(name: string)
    ensures var n := Lower(name);
      forall s: RegSize :: match FindName(BankOf(s), n)
        case Some(k) => |n| >= 2 && Class(n) == s && ParseRegister(name) == Some((First(s) + k, s))
        case None => true
    ensures var n := Lower(name);
      (forall s: RegSize :: FindName(BankOf(s), n) == None)
        ==> ParseRegister(name) == (if n == "rip" then Some((RIP, R64)) else None)
    ensures Lower(name) == "rip" ==> ParseRegister(name) == Some((RIP, R64))
  {
    hide FindName, Lower, Class;
    var n := Lower(name);
    forall s: RegSize
      ensures var r := FindName(BankOf(s), n);
        && (r.Some? ==> |n| >= 2 && Class(n) == s && n != "rip") && (n == "rip" ==> r == None)
    {
      BankReads(s, n);
    }
    assert BankOf(R64) == REG64 && BankOf(R32) == REG32 && BankOf(R16) == REG16 && BankOf(R8) == REG8
      && BankOf(R8H) == REG8H && BankOf(Xmm) == XMM;
    hide BankOf;
  }

  /** A word is the name of a register exactly when it is spelt by the rule, in any case of letters. */
  lemma RegisterNames(name: string, r: Reg, size: RegSize)
    ensures ParseRegister(name) == Some((r, size)) <==> Exists(r, size) && Lower(name) == Spelling(r, size)
  {
    hide ParseRegister, Spelling, BankOf, Lower, FindName, RegName;
    var n := Lower(name);
    Searched(name);
    if Exists(r, size) {
      Spelt(r, size);
      if r != 32 {
        TablePlace(r, size);
        if n == RegName(r, size) {
          BankReads(size, n);
        }
      } else {
        RipName();
      }
    }
    if s: RegSize :| FindName(BankOf(s), n).Some? {
      BankReads(s, n);
      var k := FindName(BankOf(s), n).value;
      BankRegister(s, k);
      TablePlace(First(s) + k, s);
      Spelt(First(s) + k, s);
    } else {
      RipName();
    }
  }

  lemma RipName()
    ensures Exists(RIP, R64) && Spelling(RIP, R64) == RegName(RIP, R64) == "rip"
  {
  }
}
