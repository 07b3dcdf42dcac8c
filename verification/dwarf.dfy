// The DWARF line program: what the emitter appends, and the line-number state machine of section 6.2
// of DWARF 4 that reads it back; variable-length numbers as in section 7.6.

module Dwarf {
  import opened Bytes
  import opened Operands
  import L = Layout

  // ---- LEB128 ----

  /** The bytes append_uleb128_checked appends. */
  function Uleb(v: nat): (s: seq<byte>)
    ensures s != []
  {
    if v < 128 then [v] else [v % 128 + 128] + Uleb(v / 128)
  }

  /** The bytes append_sleb128_checked appends; >> is the arithmetic shift. */
  function Sleb(v: int): (s: seq<byte>)
    ensures s != []
    decreases if v >= 0 then v else -v - 1
  {
    if -64 <= v < 64 then [v % 128] else [v % 128 + 128] + Sleb(v / 128)
  }

  datatype Read<T> = Read(value: T, rest: seq<byte>)

  /** Seven bits a byte, least significant group first, until a byte without its top bit. */
  function ReadUleb(s: seq<byte>): (r: Option<Read<nat>>)
    ensures r.Some? ==> |r.value.rest| < |s|
  {
    if s == [] then None
    else if s[0] < 128 then Some(Read(s[0], s[1..]))
    else
      var r :- ReadUleb(s[1..]);
      Some(Read(s[0] - 128 + 128 * r.value, r.rest))
  }

  /** The same, with bit 6 of the last byte as the sign. */
  function ReadSleb(s: seq<byte>): (r: Option<Read<int>>)
    ensures r.Some? ==> |r.value.rest| < |s|
  {
    if s == [] then None
    else if s[0] < 64 then Some(Read(s[0], s[1..]))
    else if s[0] < 128 then Some(Read(s[0] as int - 128, s[1..]))
    else
      var r :- ReadSleb(s[1..]);
      Some(Read(s[0] as int - 128 + 128 * r.value, r.rest))
  }

  lemma {:induction false} UlebRoundTrip(v: nat, rest: seq<byte>)
    ensures ReadUleb(Uleb(v) + rest) == Some(Read(v, rest))
    decreases v
  {
    var s := Uleb(v) + rest;
    if v < 128 {
      assert s[1..] == rest;
    } else {
      UlebRoundTrip(v / 128, rest);
      assert s[1..] == Uleb(v / 128) + rest;
    }
  }

  lemma {:induction false} SlebRoundTrip(v: int, rest: seq<byte>)
    ensures ReadSleb(Sleb(v) + rest) == Some(Read(v, rest))
    decreases if v >= 0 then v else -v - 1
  {
    var s := Sleb(v) + rest;
    if -64 <= v < 64 {
      assert s[1..] == rest;
    } else {
      SlebRoundTrip(v / 128, rest);
      assert s[1..] == Sleb(v / 128) + rest;
    }
  }

  // ---- the program ----

  // A row of the line map, and of the table the state machine produces.
  type Row = (int, int)

  function LineOf(r: Row): int { if r.1 > 0 then r.1 else 1 }

  function Max(a: int, b: int): int { if a >= b then a else b }

  function AdvancePc(d: int): seq<byte> { [2] + Uleb(d % TWO32) }

  /** One round of the emission loop. */
  function RowBytes(r: Row, address: int, line: int): seq<byte> {
    (if r.0 > address then AdvancePc(r.0 - address) else [])
    + (if LineOf(r) != line then [3] + Sleb(LineOf(r) - line) else [])
    + [1]
  }

  /** What follows the rows: the closing row, when code stands behind the last one, and end_sequence. */
  function Closing(address: int, end: int): seq<byte> {
    (if address < end then AdvancePc(end - address) + [1] else []) + [0, 1, 1]
  }

  function RowsFrom(rows: seq<Row>, address: int, line: int, end: int): seq<byte> {
    if rows == [] then Closing(address, end)
    else RowBytes(rows[0], address, line) + RowsFrom(rows[1..], Max(address, rows[0].0), LineOf(rows[0]), end)
  }

  function LineProgram(rows: seq<Row>, base: int, end: int): seq<byte> {
    [0, 9, 2] + Le(base, 8) + RowsFrom(rows, base, 1, end)
  }

  // ---- the line-number state machine ----

  // table holds the rows of DW_LNS_copy; sequence is the row of DW_LNE_end_sequence.
  datatype Machine = Machine(address: int, line: int, table: seq<Row>, sequence: Option<Row>)

  const START: Machine := Machine(0, 1, [], None)

  /** One opcode: the new state and what is left of the program. */
  function Opcode(s: seq<byte>, m: Machine): (r: Option<(Machine, seq<byte>)>)
    requires s != []
    ensures r.Some? ==> |r.value.1| < |s|
  {
    if s[0] == 1 then Some((m.(table := m.table + [(m.address, m.line)]), s[1..]))
    else if s[0] == 2 then
      var r :- ReadUleb(s[1..]);
      Some((m.(address := (m.address + r.value) % TWO64), r.rest))
    else if s[0] == 3 then
      var r :- ReadSleb(s[1..]);
      Some((m.(line := m.line + r.value), r.rest))
    else if s[0] == 0 && |s| >= 3 && s[1] == 1 && s[2] == 1 then
      Some((m.(sequence := Some((m.address, m.line))), s[3..]))
    else if s[0] == 0 && |s| >= 11 && s[1] == 9 && s[2] == 2 then
      Some((m.(address := Unsigned(s[3..11])), s[11..]))
    else None
  }

  function Execute(s: seq<byte>, m: Machine): Option<Machine>
    decreases |s|
  {
    if s == [] then Some(m)
    else
      var r :- Opcode(s, m);
      Execute(r.1, r.0)
  }

  // ---- single opcodes ----

  lemma Copy(m: Machine, rest: seq<byte>)
    ensures Execute([1] + rest, m) == Execute(rest, m.(table := m.table + [(m.address, m.line)]))
  {
    var s := [1] + rest;
    assert s[1..] == rest;
    assert Opcode(s, m) == Some((m.(table := m.table + [(m.address, m.line)]), rest));
    hide Opcode;
  }

  lemma Advance(d: int, m: Machine, rest: seq<byte>)
    ensures Execute(AdvancePc(d) + rest, m) == Execute(rest, m.(address := (m.address + d % TWO32) % TWO64))
  {
    hide ReadUleb, Uleb;
    UlebRoundTrip(d % TWO32, rest);
    var s := AdvancePc(d) + rest;
    assert s[1..] == Uleb(d % TWO32) + rest;
    assert Opcode(s, m) == Some((m.(address := (m.address + d % TWO32) % TWO64), rest));
    hide Opcode;
  }

  lemma AdvanceLine(d: int, m: Machine, rest: seq<byte>)
    ensures Execute([3] + Sleb(d) + rest, m) == Execute(rest, m.(line := m.line + d))
  {
    hide ReadSleb, Sleb;
    SlebRoundTrip(d, rest);
    var s := [3] + Sleb(d) + rest;
    assert s[1..] == Sleb(d) + rest;
    assert Opcode(s, m) == Some((m.(line := m.line + d), rest));
    hide Opcode;
  }

  lemma EndSequence(m: Machine)
    ensures Execute([0, 1, 1], m) == Some(m.(sequence := Some((m.address, m.line))))
  {
    var s: seq<byte> := [0, 1, 1];
    assert s[3..] == [];
    var m' := m.(sequence := Some((m.address, m.line)));
    assert Opcode(s, m) == Some((m', []));
    assert Execute([], m') == Some(m');
    hide Opcode;
  }

  lemma SetAddress(v: int, m: Machine, rest: seq<byte>)
    requires 0 <= v < TWO64
    ensures Execute([0, 9, 2] + Le(v, 8) + rest, m) == Execute(rest, m.(address := v))
  {
    Pow256Values();
    UnsignedLe(v, 8);
    hide Le, Unsigned;
    var s := [0, 9, 2] + Le(v, 8) + rest;
    assert s[3..11] == Le(v, 8) && s[11..] == rest;
    assert Opcode(s, m) == Some((m.(address := v), rest));
    hide Opcode;
  }

  // ---- round trip ----

  /** The addresses of the rows, each raised to the highest one before it. */
  function Raised(rows: seq<Row>, address: int): seq<Row> {
    if rows == [] then []
    else [(Max(address, rows[0].0), LineOf(rows[0]))] + Raised(rows[1..], Max(address, rows[0].0))
  }

  function LastAddress(rows: seq<Row>, address: int): int {
    if rows == [] then address else LastAddress(rows[1..], Max(address, rows[0].0))
  }

  function LastLine(rows: seq<Row>, line: int): int {
    if rows == [] then line else LastLine(rows[1..], LineOf(rows[0]))
  }

  /** The table the machine ends with: the rows, at most one closing row, and the end of the sequence. */
  function Final(rows: seq<Row>, address: int, line: int, end: int): Machine {
    var last, lastLine := LastAddress(rows, address), LastLine(rows, line);
    var table := Raised(rows, address) + (if last < end then [(end, lastLine)] else []);
    Machine(Max(last, end), lastLine, table, Some((Max(last, end), lastLine)))
  }

  /** Every address lies within 2^32 of the base, and nothing wraps at 2^64. */
  ghost predicate Near(rows: seq<Row>, base: int, end: int) {
    && 0 <= base <= end < base + TWO32 && base + TWO32 <= TWO64
    && forall r <- rows :: r.0 < base + TWO32
  }

  lemma RowExecutes(r: Row, m: Machine, base: int, rest: seq<byte>)
    requires 0 <= base <= m.address < base + TWO32 <= TWO64 && r.0 < base + TWO32
    ensures Execute(RowBytes(r, m.address, m.line) + rest, m)
         == Execute(rest, Machine(Max(m.address, r.0), LineOf(r), m.table + [(Max(m.address, r.0), LineOf(r))],
                                  m.sequence))
  {
    hide Execute, Sleb, AdvancePc;
    var pc := if r.0 > m.address then AdvancePc(r.0 - m.address) else [];
    var ln := if LineOf(r) != m.line then [3] + Sleb(LineOf(r) - m.line) else [];
    var m1 := m.(address := Max(m.address, r.0));
    var m2 := m1.(line := LineOf(r));
    assert RowBytes(r, m.address, m.line) + rest == pc + (ln + ([1] + rest));
    assert Execute(pc + (ln + ([1] + rest)), m) == Execute(ln + ([1] + rest), m1) by {
      if r.0 > m.address {
        AdvanceTo(r.0, m, base, ln + ([1] + rest));
      } else {
        assert pc + (ln + ([1] + rest)) == ln + ([1] + rest);
      }
    }
    assert Execute(ln + ([1] + rest), m1) == Execute([1] + rest, m2) by {
      if LineOf(r) != m.line {
        AdvanceLine(LineOf(r) - m.line, m1, [1] + rest);
      } else {
        assert ln + ([1] + rest) == [1] + rest;
      }
    }
    Copy(m2, rest);
  }

  lemma AdvanceTo(to: int, m: Machine, base: int, rest: seq<byte>)
    requires 0 <= base <= m.address < to < base + TWO32 <= TWO64
    ensures Execute(AdvancePc(to - m.address) + rest, m) == Execute(rest, m.(address := to))
  {
    hide Execute, AdvancePc;
    Advance(to - m.address, m, rest);
  }

  lemma ClosingExecutes(m: Machine, base: int, end: int)
    requires 0 <= base <= m.address < base + TWO32 <= TWO64 && end < base + TWO32
    ensures Execute(Closing(m.address, end), m)
         == Some(Machine(Max(m.address, end), m.line,
                         m.table + (if m.address < end then [(end, m.line)] else []),
                         Some((Max(m.address, end), m.line))))
  {
    hide Execute, AdvancePc;
    if m.address < end {
      var d, tail := end - m.address, [0, 1, 1];
      assert Closing(m.address, end) == AdvancePc(d) + ([1] + tail);
      AdvanceTo(end, m, base, [1] + tail);
      var m1 := m.(address := end);
      Copy(m1, tail);
      EndSequence(m1.(table := m.table + [(end, m.line)]));
    } else {
      assert Closing(m.address, end) == [0, 1, 1];
      EndSequence(m);
      assert m.table + [] == m.table;
    }
  }

  lemma {:induction false} RowsExecute(rows: seq<Row>, m: Machine, base: int, end: int)
    requires Near(rows, base, end) && base <= m.address < base + TWO32
    ensures var f := Final(rows, m.address, m.line, end);
      Execute(RowsFrom(rows, m.address, m.line, end), m) == Some(f.(table := m.table + f.table))
    decreases |rows|
  {
    hide Execute, RowBytes, Closing, LineOf;
    if rows == [] {
      ClosingExecutes(m, base, end);
      var tail := if m.address < end then [(end, m.line)] else [];
      assert [] + tail == tail;
    } else {
      var r := rows[0];
      var rest := RowsFrom(rows[1..], Max(m.address, r.0), LineOf(r), end);
      RowExecutes(r, m, base, rest);
      var next := Machine(Max(m.address, r.0), LineOf(r), m.table + [(Max(m.address, r.0), LineOf(r))], m.sequence);
      RowsExecute(rows[1..], next, base, end);
      FinalStep(rows, m.address, m.line, end);
      var g := Final(rows[1..], next.address, next.line, end);
      assert m.table + ([(Max(m.address, r.0), LineOf(r))] + g.table) == next.table + g.table;
    }
  }

  lemma FinalStep(rows: seq<Row>, address: int, line: int, end: int)
    requires rows != []
    ensures var r := rows[0]; var g := Final(rows[1..], Max(address, r.0), LineOf(r), end);
      Final(rows, address, line, end) == g.(table := [(Max(address, r.0), LineOf(r))] + g.table)
  {
    hide LineOf, Max;
  }

  /**
   * Running the emitted program yields the rows, each raised to the highest address before it, and at most one
   * closing row.
   */
  lemma ProgramExecutes(rows: seq<Row>, base: int, end: int)
    requires Near(rows, base, end)
    ensures Execute(LineProgram(rows, base, end), START) == Some(Final(rows, base, 1, end))
  {
    hide Execute, RowsFrom;
    SetAddress(base, START, RowsFrom(rows, base, 1, end));
    RowsExecute(rows, START.(address := base), base, end);
    var f := Final(rows, base, 1, end);
    assert START.table + f.table == f.table;
  }

  ghost predicate Ascending(rows: seq<Row>, address: int) {
    if rows == [] then true else address <= rows[0].0 && Ascending(rows[1..], rows[0].0)
  }

  /**
   * The rows come back unchanged exactly when their addresses never decrease, from the base on, and their lines
   * are positive.
   */
  lemma {:induction false} RaisedSame(rows: seq<Row>, address: int)
    ensures Raised(rows, address) == rows <==> Ascending(rows, address) && forall r <- rows :: r.1 > 0
    decreases |rows|
  {
    if rows != [] {
      RaisedSame(rows[1..], Max(address, rows[0].0));
      assert Raised(rows, address)[1..] == Raised(rows[1..], Max(address, rows[0].0));
      assert rows == [rows[0]] + rows[1..];
    }
  }

  // ---- the line map of a pass ----

  lemma {:induction false} AscendingAppend(rows: seq<Row>, address: int, r: Row)
    requires Ascending(rows, address) && r.0 >= LastAddress(rows, address)
    ensures Ascending(rows + [r], address) && LastAddress(rows + [r], address) == r.0
    decreases |rows|
  {
    if rows == [] {
      assert (rows + [r])[1..] == [];
    } else {
      assert (rows + [r])[1..] == rows[1..] + [r];
      AscendingAppend(rows[1..], rows[0].0, r);
    }
  }

  /** Text-pass addresses never decrease, so neither do those of the line map. */
  lemma {:induction false} LineMapAscending(cs: seq<L.Chunk>)
    requires L.Placed(cs)
    ensures var rows := L.LineMap(cs);
      && Ascending(rows, L.BASE) && L.BASE <= LastAddress(rows, L.BASE) <= L.BASE + |L.Text(cs)|
      && forall r <- rows :: r.1 > 0 && r.0 <= L.BASE + |L.Text(cs)|
    decreases |cs|
  {
    hide L.FieldInside;
    if cs != [] {
      var rest, c := cs[..|cs| - 1], cs[|cs| - 1];
      assert forall k :: 0 <= k < |rest| ==> rest[..k] == cs[..k];
      assert L.Placed(rest);
      LineMapAscending(rest);
      var rows := L.LineMap(rest);
      if L.LineMap(cs) != rows {
        AscendingAppend(rows, L.BASE, L.LineMap(cs)[|rows|]);
      }
    }
  }

  /**
   * The line program of any text pass makes a debugger see the pass's line map, row by row, and at most one
   * closing row.
   */
  lemma LineMapRoundTrip(cs: seq<L.Chunk>)
    requires L.Placed(cs)
    ensures var rows, end := L.LineMap(cs), L.BASE + |L.Text(cs)|;
      var last, lastLine := LastAddress(rows, L.BASE), LastLine(rows, 1);
      Execute(LineProgram(rows, L.BASE, end), START)
      == Some(Machine(end, lastLine, rows + (if last < end then [(end, lastLine)] else []), Some((end, lastLine))))
  {
    hide Execute, LineProgram, L.LineMap;
    LineMapAscending(cs);
    ProgramExecutes(L.LineMap(cs), L.BASE, L.BASE + |L.Text(cs)|);
    RaisedSame(L.LineMap(cs), L.BASE);
  }

  // ---- the buffer ----

  datatype Status = Pass | Fail

  /** All of s was appended when it fits; otherwise the append failed, having written at most a part of s. */
  ghost predicate Appended(before: seq<byte>, after: seq<byte>, s: seq<byte>, capacity: nat, status: Status) {
    if |before| + |s| <= capacity then status.Pass? && after == before + s
    else status.Fail? && before <= after && after <= before + s
  }

  lemma AppendBoth(a: seq<byte>, b: seq<byte>, c: seq<byte>, s: seq<byte>, t: seq<byte>, capacity: nat, status: Status)
    requires Appended(a, b, s, capacity, Pass) && Appended(b, c, t, capacity, status)
    ensures Appended(a, c, s + t, capacity, status)
  {
    assert (a + s) + t == a + (s + t);
  }

  lemma AppendFailed(a: seq<byte>, b: seq<byte>, s: seq<byte>, t: seq<byte>, capacity: nat)
    requires Appended(a, b, s, capacity, Fail)
    ensures Appended(a, b, s + t, capacity, Fail)
  {
    assert (a + s) + t == a + (s + t);
  }

  lemma AppendNone(a: seq<byte>, capacity: nat)
    requires |a| <= capacity
    ensures Appended(a, a, [], capacity, Pass)
  {
    assert a + [] == a;
  }

  lemma LeStep(v: int, n: nat)
    requires n > 0
    ensures Le(v, n) == [v % 256] + Le(v / 256, n - 1)
  {
  }

  lemma LeNone(v: int)
    ensures Le(v, 0) == []
  {
  }

  /** One round of the unsigned loop: the byte to append, what is left of the value, and whether to go on. */
  method UnsignedGroup(v: nat) returns (b: byte, rest: nat, more: bool)
    ensures Uleb(v) == [b] + (if more then Uleb(rest) else [])
    ensures more ==> rest < v
  {
    b, rest := v % 128, v / 128;
    more := rest != 0;
    if more {
      b := b + 128;
    }
  }

  /** One round of the signed loop: it stops when the rest is only the sign of the group just taken. */
  method SignedGroup(v: int) returns (b: byte, rest: int, more: bool)
    ensures Sleb(v) == [b] + (if more then Sleb(rest) else [])
    ensures more ==> (if v >= 0 then 0 <= rest < v else v < rest < 0)
  {
    b := v % 128;
    var sign := b >= 64;
    rest := v / 128;
    more := !((rest == 0 && !sign) || (rest == -1 && sign));
    if more {
      b := b + 128;
    }
  }

  // A fixed-size section buffer and its length, as the append_*_checked functions use it.
  class Buffer {
    const data: array<byte>
    var len: nat

    ghost predicate Valid()
      reads this
    {
      len <= data.Length
    }

    ghost function Contents(): seq<byte>
      requires Valid()
      reads this, data
    {
      data[..len]
    }

    constructor (capacity: nat)
      ensures Valid() && Contents() == [] && data.Length == capacity && fresh(data)
    {
      data := new byte[capacity];
      len := 0;
    }

    /** append_u8_checked */
    method AppendU8(b: byte) returns (status: Status)
      requires Valid()
      modifies this, data
      ensures Valid() && Appended(old(Contents()), Contents(), [b], data.Length, status)
    {
      if len + 1 > data.Length {
        return Fail;
      }
      data[len] := b;
      len := len + 1;
      return Pass;
    }

    /** append_le64_buf_checked */
    method AppendLe64(v: int) returns (status: Status)
      requires Valid()
      modifies this, data
      ensures Valid() && Appended(old(Contents()), Contents(), Le(v, 8), data.Length, status)
    {
      hide Le;
      if len + 8 > data.Length {
        return Fail;
      }
      ghost var before := Contents();
      var rest := v;
      ghost var done: seq<byte> := [];
      for i := 0 to 8
        invariant Valid() && len == |before| + i && len + (8 - i) <= data.Length
        invariant Contents() == before + done && |done| == i
        invariant Le(v, 8) == done + Le(rest, 8 - i)
      {
        LeStep(rest, 8 - i);
        data[len] := rest % 256;
        len := len + 1;
        assert Contents() == (before + done) + [rest % 256];
        done := done + [rest % 256];
        rest := rest / 256;
      }
      LeNone(rest);
      return Pass;
    }

    /** append_uleb128_checked */
    method AppendUleb(v: nat) returns (status: Status)
      requires Valid()
      modifies this, data
      ensures Valid() && Appended(old(Contents()), Contents(), Uleb(v), data.Length, status)
    {
      hide Uleb, Appended;
      var value: nat, more := v, true;
      ghost var done: seq<byte> := [];
      ghost var before := Contents();
      AppendNone(before, data.Length);
      while more
        invariant Valid() && Appended(before, Contents(), done, data.Length, Pass)
        invariant Uleb(v) == (if more then done + Uleb(value) else done)
        decreases more, value
      {
        ghost var now := Contents();
        var b;
        b, value, more := UnsignedGroup(value);
        ghost var rest := if more then Uleb(value) else [];
        var added := AppendU8(b);
        AppendBoth(before, now, Contents(), done, [b], data.Length, added);
        assert Uleb(v) == (done + [b]) + rest;
        if added.Fail? {
          AppendFailed(before, Contents(), done + [b], rest, data.Length);
          return Fail;
        }
        done := done + [b];
      }
      return Pass;
    }

    /** append_sleb128_checked */
    method AppendSleb(v: int) returns (status: Status)
      requires Valid()
      modifies this, data
      ensures Valid() && Appended(old(Contents()), Contents(), Sleb(v), data.Length, status)
    {
      hide Sleb, Appended;
      var value, more := v, true;
      ghost var done: seq<byte> := [];
      ghost var before := Contents();
      AppendNone(before, data.Length);
      while more
        invariant Valid() && Appended(before, Contents(), done, data.Length, Pass)
        invariant Sleb(v) == (if more then done + Sleb(value) else done)
        decreases more, if value >= 0 then value else -value - 1
      {
        ghost var now := Contents();
        var b;
        b, value, more := SignedGroup(value);
        ghost var rest := if more then Sleb(value) else [];
        var added := AppendU8(b);
        AppendBoth(before, now, Contents(), done, [b], data.Length, added);
        assert Sleb(v) == (done + [b]) + rest;
        if added.Fail? {
          AppendFailed(before, Contents(), done + [b], rest, data.Length);
          return Fail;
        }
        done := done + [b];
      }
      return Pass;
    }

    /** DW_LNS_advance_pc */
    method AppendAdvancePc(d: int) returns (status: Status)
      requires Valid()
      modifies this, data
      ensures Valid() && Appended(old(Contents()), Contents(), AdvancePc(d), data.Length, status)
    {
      hide Uleb, Appended;
      ghost var before, operand := Contents(), Uleb(d % TWO32);
      status := AppendU8(2);
      ghost var now := Contents();
      if status.Fail? {
        AppendFailed(before, now, [2], operand, data.Length);
        return;
      }
      status := AppendUleb(d % TWO32);
      AppendBoth(before, now, Contents(), [2], operand, data.Length, status);
    }

    /** DW_LNS_advance_line */
    method AppendAdvanceLine(d: int) returns (status: Status)
      requires Valid()
      modifies this, data
      ensures Valid() && Appended(old(Contents()), Contents(), [3] + Sleb(d), data.Length, status)
    {
      hide Sleb, Appended;
      ghost var before := Contents();
      status := AppendU8(3);
      ghost var now := Contents();
      if status.Fail? {
        AppendFailed(before, now, [3], Sleb(d), data.Length);
        return;
      }
      status := AppendSleb(d);
      AppendBoth(before, now, Contents(), [3], Sleb(d), data.Length, status);
    }

    /** The opcodes of one line-map row. */
    method AppendRow(r: Row, address: int, line: int) returns (status: Status)
      requires Valid()
      modifies this, data
      ensures Valid() && Appended(old(Contents()), Contents(), RowBytes(r, address, line), data.Length, status)
    {
      hide Sleb, Uleb, AdvancePc, Appended;
      ghost var before := Contents();
      ghost var pc := if r.0 > address then AdvancePc(r.0 - address) else [];
      ghost var ln := if LineOf(r) != line then [3] + Sleb(LineOf(r) - line) else [];
      assert RowBytes(r, address, line) == (pc + ln) + [1];
      AppendNone(before, data.Length);
      status := Pass;
      if r.0 > address {
        status := AppendAdvancePc(r.0 - address);
      }
      ghost var now := Contents();
      if status.Fail? {
        AppendFailed(before, now, pc, ln + [1], data.Length);
        assert pc + (ln + [1]) == (pc + ln) + [1];
        return;
      }
      AppendNone(now, data.Length);
      if LineOf(r) != line {
        status := AppendAdvanceLine(LineOf(r) - line);
      }
      AppendBoth(before, now, Contents(), pc, ln, data.Length, status);
      now := Contents();
      if status.Fail? {
        AppendFailed(before, now, pc + ln, [1], data.Length);
        return;
      }
      status := AppendU8(1);
      AppendBoth(before, now, Contents(), pc + ln, [1], data.Length, status);
    }

    /** The extended opcode header and DW_LNE_end_sequence, or DW_LNE_set_address: three fixed bytes. */
    method AppendThree(a: byte, b: byte, c: byte) returns (status: Status)
      requires Valid()
      modifies this, data
      ensures Valid() && Appended(old(Contents()), Contents(), [a, b, c], data.Length, status)
    {
      hide Appended;
      ghost var before := Contents();
      status := AppendU8(a);
      ghost var now := Contents();
      if status.Fail? {
        AppendFailed(before, now, [a], [b, c], data.Length);
        assert [a] + [b, c] == [a, b, c];
        return;
      }
      status := AppendU8(b);
      AppendBoth(before, now, Contents(), [a], [b], data.Length, status);
      assert [a] + [b] == [a, b];
      now := Contents();
      if status.Fail? {
        AppendFailed(before, now, [a, b], [c], data.Length);
        assert [a, b] + [c] == [a, b, c];
        return;
      }
      status := AppendU8(c);
      AppendBoth(before, now, Contents(), [a, b], [c], data.Length, status);
      assert [a, b] + [c] == [a, b, c];
    }

    /** The closing row, when code stands behind the last row, and the end of the sequence. */
    method AppendClosing(address: int, end: int) returns (status: Status)
      requires Valid()
      modifies this, data
      ensures Valid() && Appended(old(Contents()), Contents(), Closing(address, end), data.Length, status)
    {
      hide Uleb, AdvancePc, Appended;
      ghost var before := Contents();
      ghost var row := if address < end then AdvancePc(end - address) + [1] else [];
      AppendNone(before, data.Length);
      status := Pass;
      if address < end {
        status := AppendAdvancePc(end - address);
        ghost var now := Contents();
        if status.Fail? {
          AppendFailed(before, now, AdvancePc(end - address), [1] + [0, 1, 1], data.Length);
          assert AdvancePc(end - address) + ([1] + [0, 1, 1]) == Closing(address, end);
          return;
        }
        status := AppendU8(1);
        AppendBoth(before, now, Contents(), AdvancePc(end - address), [1], data.Length, status);
      }
      ghost var now := Contents();
      if status.Fail? {
        AppendFailed(before, now, row, [0, 1, 1], data.Length);
        return;
      }
      status := AppendThree(0, 1, 1);
      AppendBoth(before, now, Contents(), row, [0, 1, 1], data.Length, status);
    }

    /**
     * The emission loop: the whole line program is appended when it fits the buffer, and emission fails
     * exactly when it does not.
     */
    method AppendLineProgram(rows: seq<Row>, base: int, end: int) returns (status: Status)
      requires Valid()
      modifies this, data
      ensures Valid() && Appended(old(Contents()), Contents(), LineProgram(rows, base, end), data.Length, status)
    {
      hide RowBytes, Closing, Le, Appended;
      ghost var before := Contents();
      ghost var body := RowsFrom(rows, base, 1, end);
      status := AppendThree(0, 9, 2);
      ghost var now := Contents();
      if status.Fail? {
        AppendFailed(before, now, [0, 9, 2], Le(base, 8) + body, data.Length);
        assert [0, 9, 2] + (Le(base, 8) + body) == LineProgram(rows, base, end);
        return;
      }
      status := AppendLe64(base);
      ghost var done: seq<byte> := [0, 9, 2] + Le(base, 8);
      AppendBoth(before, now, Contents(), [0, 9, 2], Le(base, 8), data.Length, status);
      if status.Fail? {
        AppendFailed(before, Contents(), done, body, data.Length);
        return;
      }
      var lastAddress, lastLine := base, 1;
      for i := 0 to |rows|
        invariant Valid() && Appended(before, Contents(), done, data.Length, Pass)
        invariant done + RowsFrom(rows[i..], lastAddress, lastLine, end) == LineProgram(rows, base, end)
      {
        now := Contents();
        var r := rows[i];
        ghost var row, rest := RowBytes(r, lastAddress, lastLine),
          RowsFrom(rows[i + 1..], Max(lastAddress, r.0), LineOf(r), end);
        assert rows[i..][1..] == rows[i + 1..];
        assert (done + row) + rest == LineProgram(rows, base, end);
        status := AppendRow(r, lastAddress, lastLine);
        AppendBoth(before, now, Contents(), done, row, data.Length, status);
        if status.Fail? {
          AppendFailed(before, Contents(), done + row, rest, data.Length);
          return;
        }
        done := done + row;
        if r.0 > lastAddress {
          lastAddress := r.0;
        }
        lastLine := LineOf(r);
      }
      now := Contents();
      status := AppendClosing(lastAddress, end);
      AppendBoth(before, now, Contents(), done, Closing(lastAddress, end), data.Length, status);
    }
  }
}
