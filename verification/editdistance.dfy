// The did-you-mean distance: a two-row table computes the length of a shortest edit script between
// the case-folded names, and the suggestion is the first name at the least distance.

module EditDistance {
  import opened Operands
  import Lexing

  // ---- edit scripts ----

  // Replace keeps a character when both sides are equal.
  datatype Edit = Replace(from: char, to: char) | Delete(from: char) | Insert(to: char)

  type Script = seq<Edit>

  function Source(s: Script): string {
    if s == [] then []
    else Source(s[..|s| - 1]) + (var e := s[|s| - 1]; if e.Insert? then [] else [e.from])
  }

  function Target(s: Script): string {
    if s == [] then []
    else Target(s[..|s| - 1]) + (var e := s[|s| - 1]; if e.Delete? then [] else [e.to])
  }

  function EditCost(e: Edit): nat { if e.Replace? && e.from == e.to then 0 else 1 }

  function Cost(s: Script): nat {
    if s == [] then 0 else Cost(s[..|s| - 1]) + EditCost(s[|s| - 1])
  }

  predicate Turns(s: Script, a: string, b: string) { Source(s) == a && Target(s) == b }

  lemma ScriptAppend(s: Script, e: Edit)
    ensures Source(s + [e]) == Source(s) + (if e.Insert? then [] else [e.from])
    ensures Target(s + [e]) == Target(s) + (if e.Delete? then [] else [e.to])
    ensures Cost(s + [e]) == Cost(s) + EditCost(e)
  {
    assert (s + [e])[..|s|] == s;
  }

  // ---- the recurrence of the table ----

  function Min3(a: int, b: int, c: int): (m: int)
    ensures m <= a && m <= b && m <= c && (m == a || m == b || m == c)
  {
    var m := if a < b then a else b;
    if m < c then m else c
  }

  /** The table entry for the prefixes a and b. */
  function Table(a: string, b: string): (d: nat)
    decreases |a| + |b|
  {
    if a == [] then |b|
    else if b == [] then |a|
    else
      var a', b' := a[..|a| - 1], b[..|b| - 1];
      Min3(Table(a', b) + 1, Table(a, b') + 1, Table(a', b') + (if a[|a| - 1] == b[|b| - 1] then 0 else 1))
  }

  /** No script is cheaper than the table entry. */
  lemma {:induction false} TableLeast(s: Script)
    ensures Table(Source(s), Target(s)) <= Cost(s)
    decreases |s|
  {
    if s != [] {
      var s', e := s[..|s| - 1], s[|s| - 1];
      TableLeast(s');
      TableStep(Source(s'), Target(s'), e);
    }
  }

  lemma TableStep(a: string, b: string, e: Edit)
    ensures var a', b' := a + (if e.Insert? then [] else [e.from]), b + (if e.Delete? then [] else [e.to]);
      Table(a', b') <= Table(a, b) + EditCost(e)
  {
    match e
    case Replace(x, y) =>
      assert (a + [x])[..|a|] == a && (b + [y])[..|b|] == b;
    case Delete(x) =>
      assert (a + [x])[..|a|] == a && b + [] == b;
    case Insert(y) =>
      assert (b + [y])[..|b|] == b && a + [] == a;
  }

  /** The last edit of a cheapest script. */
  lemma LastEdit(a: string, b: string) returns (a': string, b': string, e: Edit)
    requires a != [] || b != []
    ensures a == a' + (if e.Insert? then [] else [e.from])
    ensures b == b' + (if e.Delete? then [] else [e.to])
    ensures Table(a, b) == Table(a', b') + EditCost(e)
  {
    var c, d := if a == [] then a else a[..|a| - 1], if b == [] then b else b[..|b| - 1];
    assert a != [] ==> a == c + [a[|a| - 1]];
    assert b != [] ==> b == d + [b[|b| - 1]];
    if b == [] || (a != [] && Table(a, b) == Table(c, b) + 1) {
      a', b', e := c, b, Delete(a[|a| - 1]);
    } else if a == [] || Table(a, b) == Table(a, d) + 1 {
      a', b', e := a, d, Insert(b[|b| - 1]);
    } else {
      a', b', e := c, d, Replace(a[|a| - 1], b[|b| - 1]);
    }
  }

  /** Some script costs exactly the table entry. */
  lemma {:induction false} TableReached(a: string, b: string) returns (s: Script)
    ensures Turns(s, a, b) && Cost(s) == Table(a, b)
    decreases |a| + |b|
  {
    hide Table, EditCost;
    if a == [] && b == [] {
      s := [];
      TableEmpty();
    } else {
      var a', b', e := LastEdit(a, b);
      var s' := TableReached(a', b');
      s := s' + [e];
      ScriptAppend(s', e);
    }
  }

  lemma TableEmpty()
    ensures Table([], []) == 0
  {
  }

  // ---- a metric ----

  function Inverse(e: Edit): Edit {
    match e
    case Replace(x, y) => Replace(y, x)
    case Delete(x) => Insert(x)
    case Insert(y) => Delete(y)
  }

  /** Every script can be undone at the same cost. */
  lemma {:induction false} Undo(s: Script) returns (t: Script)
    ensures Turns(t, Target(s), Source(s)) && Cost(t) == Cost(s)
    decreases |s|
  {
    if s == [] {
      t := [];
    } else {
      var t' := Undo(s[..|s| - 1]);
      t := t' + [Inverse(s[|s| - 1])];
      ScriptAppend(t', Inverse(s[|s| - 1]));
    }
  }

  /** Scripts compose without added cost. */
  lemma {:induction false} Compose(s: Script, t: Script) returns (u: Script)
    requires Target(s) == Source(t)
    ensures Turns(u, Source(s), Target(t)) && Cost(u) <= Cost(s) + Cost(t)
    decreases |s| + |t|
  {
    if t != [] && t[|t| - 1].Insert? {
      var u' := Compose(s, t[..|t| - 1]);
      u := u' + [t[|t| - 1]];
      ScriptAppend(u', t[|t| - 1]);
    } else if s != [] && s[|s| - 1].Delete? {
      var u' := Compose(s[..|s| - 1], t);
      u := u' + [s[|s| - 1]];
      ScriptAppend(u', s[|s| - 1]);
    } else if s == [] || t == [] {
      u := [];
    } else {
      var d, e := s[|s| - 1], t[|t| - 1];
      assert Target(s)[..|Target(s)| - 1] == Target(s[..|s| - 1]);
      assert Source(t)[..|Source(t)| - 1] == Source(t[..|t| - 1]);
      assert d.to == Target(s)[|Target(s)| - 1] == Source(t)[|Source(t)| - 1] == e.from;
      var u' := Compose(s[..|s| - 1], t[..|t| - 1]);
      if d.Insert? && e.Delete? {
        u := u';
      } else {
        var f := if d.Replace? && e.Replace? then Replace(d.from, e.to)
                 else if d.Replace? then Delete(d.from)
                 else Insert(e.to);
        u := u' + [f];
        ScriptAppend(u', f);
      }
    }
  }

  lemma Symmetric(a: string, b: string)
    ensures Table(a, b) == Table(b, a)
  {
    var s := TableReached(a, b);
    var t := TableReached(b, a);
    var s' := Undo(s);
    var t' := Undo(t);
    TableLeast(s');
    TableLeast(t');
  }

  lemma Triangle(a: string, b: string, c: string)
    ensures Table(a, c) <= Table(a, b) + Table(b, c)
  {
    var s := TableReached(a, b);
    var t := TableReached(b, c);
    var u := Compose(s, t);
    TableLeast(u);
  }

  lemma {:induction false} ZeroScript(s: Script)
    requires Cost(s) == 0
    ensures Source(s) == Target(s)
    decreases |s|
  {
    if s != [] {
      ZeroScript(s[..|s| - 1]);
    }
  }

  lemma Identity(a: string, b: string)
    ensures Table(a, b) == 0 <==> a == b
    decreases |a|
  {
    if Table(a, b) == 0 {
      var s := TableReached(a, b);
      ZeroScript(s);
    }
    if a == b && a != [] {
      Identity(a[..|a| - 1], a[..|a| - 1]);
    }
  }

  // ---- the two-row programme ----

  const FAR: int := 999
  const LONGEST: nat := 63

  /** symbol_name_distance and instruction_name_distance: 999 for a name longer than 63 characters. */
  function Distance(lhs: string, rhs: string): int {
    if |lhs| > LONGEST || |rhs| > LONGEST then FAR else Table(Lexing.Lower(lhs), Lexing.Lower(rhs))
  }

  lemma TableBound(a: string, b: string)
    ensures Table(a, b) <= |a| + |b|
    decreases |a| + |b|
  {
  }

  /** The first j+1 entries of a row hold the distances from a to the prefixes of b. */
  ghost predicate RowOf(row: array<int>, a: string, b: string, j: nat)
    reads row
  {
    j <= |b| < row.Length && forall k :: 0 <= k <= j ==> row[k] == Table(a, b[..k])
  }

  lemma EmptyRow(b: string, k: nat)
    requires k <= |b|
    ensures Table([], b[..k]) == k
  {
  }

  /** One table entry from its three neighbours. */
  lemma Entry(a: string, b: string, i: nat, j: nat)
    requires i < |a| && j < |b|
    ensures Table(a[..i + 1], b[..j + 1])
         == Min3(Table(a[..i], b[..j + 1]) + 1, Table(a[..i + 1], b[..j]) + 1,
                 Table(a[..i], b[..j]) + (if a[i] == b[j] then 0 else 1))
  {
    assert a[..i + 1][..i] == a[..i] && b[..j + 1][..j] == b[..j];
  }

  /** One row of the table from the one above it. */
  method FillRow(prev: array<int>, curr: array<int>, i: nat, lhs: string, rhs: string, ghost a: string, ghost b: string)
    requires a == Lexing.Lower(lhs) && b == Lexing.Lower(rhs) && i < |lhs| && |rhs| <= LONGEST
    requires prev.Length == curr.Length == 64 && prev != curr && RowOf(prev, a[..i], b, |b|)
    modifies curr
    ensures RowOf(curr, a[..i + 1], b, |b|)
  {
    hide Table, Lexing.ToLower;
    curr[0] := i + 1;
    FirstColumn(a, i + 1);
    assert b[..0] == [];
    var lc := Lexing.ToLower(lhs[i]);
    for j := 0 to |rhs|
      invariant RowOf(prev, a[..i], b, |b|) && RowOf(curr, a[..i + 1], b, j)
    {
      var rc := Lexing.ToLower(rhs[j]);
      var cost := if lc == rc then 0 else 1;
      Entry(a, b, i, j);
      curr[j + 1] := Min3(prev[j + 1] + 1, curr[j] + 1, prev[j] + cost);
    }
  }

  /** Both distance functions: two rows of 64 entries, the lower one copied up after each character. */
  method NameDistance(lhs: string, rhs: string) returns (d: int)
    ensures d == Distance(lhs, rhs)
  {
    hide Table, Lexing.ToLower;
    if |lhs| > LONGEST || |rhs| > LONGEST {
      return FAR;
    }
    ghost var a, b := Lexing.Lower(lhs), Lexing.Lower(rhs);
    var prev, curr := new int[64], new int[64];
    for j := 0 to |rhs| + 1
      invariant j > 0 ==> RowOf(prev, [], b, j - 1)
    {
      prev[j] := j;
      EmptyRow(b, j);
    }
    assert a[..0] == [];
    for i := 0 to |lhs|
      invariant RowOf(prev, a[..i], b, |b|)
    {
      FillRow(prev, curr, i, lhs, rhs, a, b);
      for j := 0 to |rhs| + 1
        invariant RowOf(curr, a[..i + 1], b, |b|)
        invariant j > 0 ==> RowOf(prev, a[..i + 1], b, j - 1)
      {
        prev[j] := curr[j];
      }
    }
    assert a[..|a|] == a && b[..|b|] == b;
    return prev[|rhs|];
  }

  lemma FirstColumn(a: string, i: nat)
    requires i <= |a|
    ensures Table(a[..i], []) == i
  {
  }

  /** Short names: the distance is the cost of a cheapest script between the case-folded names. */
  lemma DistanceIsShortest(lhs: string, rhs: string)
    requires |lhs| <= LONGEST && |rhs| <= LONGEST
    ensures exists s :: Turns(s, Lexing.Lower(lhs), Lexing.Lower(rhs)) && Cost(s) == Distance(lhs, rhs)
    ensures forall s :: Turns(s, Lexing.Lower(lhs), Lexing.Lower(rhs)) ==> Distance(lhs, rhs) <= Cost(s)
  {
    var s := TableReached(Lexing.Lower(lhs), Lexing.Lower(rhs));
    forall s | Turns(s, Lexing.Lower(lhs), Lexing.Lower(rhs))
      ensures Distance(lhs, rhs) <= Cost(s)
    {
      TableLeast(s);
    }
  }

  /**
   * For all names, the long ones at distance 999 included, the distance is symmetric and obeys the triangle
   * inequality.
   */
  lemma DistanceMetric(a: string, b: string, c: string)
    ensures Distance(a, b) == Distance(b, a)
    ensures Distance(a, c) <= Distance(a, b) + Distance(b, c)
  {
    hide Table;
    Symmetric(Lexing.Lower(a), Lexing.Lower(b));
    Triangle(Lexing.Lower(a), Lexing.Lower(b), Lexing.Lower(c));
    TableBound(Lexing.Lower(a), Lexing.Lower(c));
  }

  // ---- the closest name ----

  /** The names a suggestion may come from: canonical names of local labels stay hidden. */
  predicate Suggestible(name: string) { name != "" && !("__" <= name) }

  /** name k of the table may be suggested and is close enough to be compared at all. */
  predicate Candidate(names: seq<string>, k: int, name: string)
    requires 0 <= k < |names|
  {
    Suggestible(names[k]) && Distance(name, names[k]) < FAR
  }

  /**
   * find_closest_symbol_name: the first name at the least distance, and that distance; none, at 999, when there
   * is no candidate.
   */
  method FindClosest(names: seq<string>, name: string) returns (best: Option<nat>, distance: int)
    ensures best.None? <==> name == "" || forall k :: 0 <= k < |names| ==> !Candidate(names, k, name)
    ensures best.None? ==> distance == FAR
    ensures best.Some? ==>
      && best.value < |names| && Candidate(names, best.value, name) && distance == Distance(name, names[best.value])
      && (forall k :: 0 <= k < |names| && Candidate(names, k, name) ==> distance <= Distance(name, names[k]))
      && (forall k :: 0 <= k < best.value && Candidate(names, k, name) ==> distance < Distance(name, names[k]))
  {
    hide Distance;
    best, distance := None, FAR;
    if name == "" {
      return;
    }
    for i := 0 to |names|
      invariant best.None? ==> distance == FAR && forall k :: 0 <= k < i ==> !Candidate(names, k, name)
      invariant best.Some? ==>
        best.value < i && Candidate(names, best.value, name) && distance == Distance(name, names[best.value])
      invariant best.Some? ==>
        forall k :: 0 <= k < i && Candidate(names, k, name) ==> distance <= Distance(name, names[k])
      invariant best.Some? ==>
        forall k :: 0 <= k < best.value && Candidate(names, k, name) ==> distance < Distance(name, names[k])
    {
      if Suggestible(names[i]) {
        var d := NameDistance(name, names[i]);
        if d < distance {
          best, distance := Some(i), d;
        }
      }
    }
  }
}
