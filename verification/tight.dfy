// The bounds on forward branches are tight: a program with five that does not settle, and one with six whose
// kept text goes astray.

module Tight {
  import opened Bytes
  import opened Operands
  import opened Symbols
  import opened Assembly
  import opened Sizing
  import L = Layout
  import R = Relaxation

  // ---- the programs ----

  /**
   * resb, s: jmp s, m links, each a jmp to the next line, align 256, resb 2, jmp t, resb 122, je x, t: align
   * 128, x:. The padding takes up the growth of the links until all of them are near, and then jumps ahead.
   */
  function Lines(m: nat): (items: seq<Item>)
    requires m <= 50
    ensures |items| == m + 9 && items[0] == Pad(253 - 5 * m) && items[1] == Go(Jmp, 1)
    ensures forall k: nat :: 2 <= k < m + 2 ==> items[k] == Go(Jmp, k + 1)
    ensures items[m + 2] == AlignTo(256) && items[m + 3] == Pad(2) && items[m + 4] == Go(Jmp, m + 7)
    ensures items[m + 5] == Pad(122) && items[m + 6] == Go(Jcc(E), m + 8)
    ensures items[m + 7] == AlignTo(128) && items[m + 8] == Mark
  {
    [Pad(253 - 5 * m), Go(Jmp, 1)] + seq(m, i requires 0 <= i < m => Go(Jmp, i + 3))
    + [AlignTo(256), Pad(2), Go(Jmp, m + 7), Pad(122), Go(Jcc(E), m + 8), AlignTo(128), Mark]
  }

  function Program(m: nat): seq<Statement>
    requires m <= 50
  {
    Written(Lines(m))
  }

  lemma LinesMade(m: nat)
    requires m <= 50
    ensures WellMade(Lines(m))
  {
    var items := Lines(m);
    hide Lines;
    forall k | 0 <= k < |items|
      ensures Made(items[k], |items|)
    {
      if k < 2 || k == m + 2 || k == m + 3 || k == m + 4 || k == m + 5 || k == m + 6 || k == m + 7 || k == m + 8 {
      } else {
        assert items[k] == Go(Jmp, k + 1);
      }
    }
  }

  // ---- one pass ----

  const P: int := L.BASE + 256

  /** The places up to the first link. */
  lemma Front(m: nat, prior: seq<int>, forward: bool)
    requires m <= 50 && |prior| == m + 9 && WellMade(Lines(m))
    ensures Place(Lines(m), 2, prior, forward) == L.BASE + 253 - 5 * m + (if forward then 2 else 5)
  {
    assert Place(Lines(m), 0, prior, forward) == L.BASE;
    hide Lines, WellMade, Place;
    NextPlace(Lines(m), 0, prior, forward);
    NextPlace(Lines(m), 1, prior, forward);
  }

  lemma LinkPlace(m: nat, k: nat, prior: seq<int>, forward: bool)
    requires m <= 50 && |prior| == m + 9 && WellMade(Lines(m)) && 2 <= k < m + 2
    ensures var at := Place(Lines(m), k, prior, forward);
      Place(Lines(m), k + 1, prior, forward) == at + (if Short(at, prior[k + 1], forward) then 2 else 5)
  {
    hide Lines, Short, WellMade, Place;
    assert Lines(m)[k] == Go(Jmp, k + 1);
    NextPlace(Lines(m), k, prior, forward);
  }

  /** The size of jmp t in a pass that meets it at address at, and then that of je x. */
  function JmpSize(m: nat, at: int, prior: seq<int>, forward: bool): nat
    requires m + 8 < |prior|
  {
    if Short(at, prior[m + 7], forward) then 2 else 5
  }

  function JeSize(m: nat, at: int, prior: seq<int>, forward: bool): nat
    requires m + 8 < |prior|
  {
    if Short(at, prior[m + 8], forward) then 2 else 6
  }

  /** The places behind the links. */
  lemma Tail(m: nat, prior: seq<int>, forward: bool)
    requires m <= 50 && |prior| == m + 9 && WellMade(Lines(m))
    ensures var at := L.AlignUp(Place(Lines(m), m + 2, prior, forward), 256) + 2;
      var j := JmpSize(m, at, prior, forward); var e := JeSize(m, at + j + 122, prior, forward);
      && Place(Lines(m), m + 4, prior, forward) == at && Place(Lines(m), m + 6, prior, forward) == at + j + 122
      && Place(Lines(m), m + 7, prior, forward) == at + j + 122 + e
      && Place(Lines(m), m + 8, prior, forward) == L.AlignUp(at + j + 122 + e, 128)
  {
    hide Lines, Short, WellMade, L.AlignUp, Place;
    NextPlace(Lines(m), m + 2, prior, forward);
    NextPlace(Lines(m), m + 3, prior, forward);
    NextPlace(Lines(m), m + 4, prior, forward);
    NextPlace(Lines(m), m + 5, prior, forward);
    NextPlace(Lines(m), m + 6, prior, forward);
    NextPlace(Lines(m), m + 7, prior, forward);
  }

  // ---- the passes with forward short branches ----

  /** The first estimate of t is out of reach of a byte from jmp t. */
  predicate OutOfReach(m: nat, prior: seq<int>) { m + 7 < |prior| && !FitsInt8(prior[m + 7] - (P + 4)) }

  /** After any pass in which jmp t and je x are not both short. */
  ghost predicate Swinging(m: nat, prior: seq<int>) {
    && |prior| == m + 9 && (prior[m + 7] == P + 131 || prior[m + 7] == P + 132 || prior[m + 7] == P + 135)
    && prior[m + 8] == P + 256
    && forall k :: 2 <= k < m + 3 ==> 2 * (k - 2) <= prior[k] - (L.BASE + 255 - 5 * m) <= 5 * (k - 2)
  }

  /** In addition every link is short. */
  ghost predicate Flat(m: nat, prior: seq<int>) {
    Swinging(m, prior) && forall k :: 2 <= k < m + 3 ==> prior[k] == L.BASE + 255 - 5 * m + 2 * (k - 2)
  }

  lemma {:induction false} AnyPlace(m: nat, k: nat, prior: seq<int>)
    requires m <= 50 && |prior| == m + 9 && WellMade(Lines(m)) && 2 <= k < m + 3
    ensures 2 * (k - 2) <= Place(Lines(m), k, prior, true) - (L.BASE + 255 - 5 * m) <= 5 * (k - 2)
  {
    hide Short, Place, Lines;
    if k == 2 {
      Front(m, prior, true);
    } else {
      AnyPlace(m, k - 1, prior);
      LinkPlace(m, k - 1, prior, true);
    }
  }

  lemma {:induction false} FlatPlace(m: nat, k: nat, prior: seq<int>)
    requires m <= 4 && WellMade(Lines(m)) && Swinging(m, prior) && 2 <= k < m + 3
    ensures Place(Lines(m), k, prior, true) == L.BASE + 255 - 5 * m + 2 * (k - 2)
  {
    hide Place, Lines;
    if k == 2 {
      Front(m, prior, true);
    } else {
      FlatPlace(m, k - 1, prior);
      LinkPlace(m, k - 1, prior, true);
    }
  }

  lemma RoundUp(a: int)
    ensures P - 256 < a <= P ==> L.AlignUp(a, 256) == P
    ensures P < a <= P + 256 ==> L.AlignUp(a, 256) == P + 256
    ensures P + 128 < a <= P + 256 ==> L.AlignUp(a, 128) == P + 256
    ensures P + 256 < a <= P + 384 ==> L.AlignUp(a, 128) == P + 384
    ensures P + 384 < a <= P + 512 ==> L.AlignUp(a, 128) == P + 512
  {
  }

  /** jmp t and je x swing against each other: no two passes in a row agree. */
  lemma SwingPass(m: nat, prior: seq<int>)
    requires m <= 4 && |prior| == m + 9 && WellMade(Lines(m))
    requires OutOfReach(m, prior) || Swinging(m, prior)
    ensures var next := Next(Lines(m), prior, true);
      Swinging(m, next) && next != prior && (Swinging(m, prior) ==> Flat(m, next))
  {
    hide Lines, Place, L.AlignUp;
    var next := Next(Lines(m), prior, true);
    AnyPlace(m, m + 2, prior);
    RoundUp(Place(Lines(m), m + 2, prior, true));
    Tail(m, prior, true);
    RoundUp(Place(Lines(m), m + 7, prior, true));
    assert next[m + 7] == Place(Lines(m), m + 7, prior, true) && next[m + 8] == Place(Lines(m), m + 8, prior, true);
    forall k | 2 <= k < m + 3
      ensures 2 * (k - 2) <= next[k] - (L.BASE + 255 - 5 * m) <= 5 * (k - 2)
      ensures Swinging(m, prior) ==> next[k] == L.BASE + 255 - 5 * m + 2 * (k - 2)
    {
      AnyPlace(m, k, prior);
      if Swinging(m, prior) {
        FlatPlace(m, k, prior);
      }
    }
  }

  // ---- the conservative passes ----

  /** Where the links, t and x are after conservative pass p. */
  function Lay(i: nat, p: nat): int
    requires p > 0
  {
    if i <= p - 1 then 5 * i else 3 * (p - 1) + 2 * i
  }

  function TPlace(m: nat, p: nat): int {
    if p <= m then P + 135 else if p == m + 1 then P + 384 else if p == m + 2 then P + 387 else P + 391
  }

  function XPlace(m: nat, p: nat): int {
    if p <= m then P + 256 else if p == m + 1 then P + 384 else P + 512
  }

  ghost predicate Stage(m: nat, p: nat, prior: seq<int>)
    requires p > 0
  {
    && |prior| == m + 9 && prior[m + 7] == TPlace(m, p) && prior[m + 8] == XPlace(m, p)
    && forall k :: 2 <= k < m + 3 ==> prior[k] == L.BASE + 258 - 5 * m + Lay(k - 2, p)
  }

  /** What the labels are before conservative pass p. */
  ghost predicate Before(m: nat, p: nat, prior: seq<int>)
    requires p > 0
  {
    if p == 1 then Flat(m, prior) else Stage(m, p - 1, prior)
  }

  lemma {:induction false} LinkStage(m: nat, k: nat, p: nat, prior: seq<int>)
    requires m <= 4 && p > 0 && WellMade(Lines(m)) && Before(m, p, prior) && 2 <= k < m + 3
    ensures Place(Lines(m), k, prior, false) == L.BASE + 258 - 5 * m + Lay(k - 2, p)
  {
    hide Place, Lines;
    if k == 2 {
      Front(m, prior, false);
    } else {
      LinkStage(m, k - 1, p, prior);
      LinkPlace(m, k - 1, prior, false);
    }
  }

  /** Pass p puts everything where Stage says, and moves a label, up to pass m + 3. */
  lemma StagePass(m: nat, p: nat, prior: seq<int>)
    requires 0 < m <= 4 && 0 < p <= m + 3 && WellMade(Lines(m)) && Before(m, p, prior)
    ensures Stage(m, p, Next(Lines(m), prior, false)) && Next(Lines(m), prior, false) != prior
  {
    hide Lines, Place, L.AlignUp;
    var next := Next(Lines(m), prior, false);
    LinkStage(m, m + 2, p, prior);
    RoundUp(Place(Lines(m), m + 2, prior, false));
    Tail(m, prior, false);
    RoundUp(Place(Lines(m), m + 7, prior, false));
    assert next[m + 7] == Place(Lines(m), m + 7, prior, false) && next[m + 8] == Place(Lines(m), m + 8, prior, false);
    forall k | 2 <= k < m + 3
      ensures next[k] == L.BASE + 258 - 5 * m + Lay(k - 2, p)
    {
      LinkStage(m, k, p, prior);
    }
    if 2 <= p <= m {
      assert next[p + 1] != prior[p + 1];
    }
  }

  // ---- the pass loops ----

  lemma SwingOnce(m: nat, symbols: map<string, Sym>)
    requires m <= 4 && Labelled(Lines(m), symbols)
    requires var prior := Snapshot(Lines(m), symbols); OutOfReach(m, prior) || Swinging(m, prior)
    ensures var r := L.Pass(Program(m), true, symbols);
      && r.Some? && r.value.changed && Labelled(Lines(m), r.value.symbols)
      && Swinging(m, Snapshot(Lines(m), r.value.symbols))
      && (Swinging(m, Snapshot(Lines(m), symbols)) ==> Flat(m, Snapshot(Lines(m), r.value.symbols)))
  {
    hide L.Pass, Lines, Written, Labelled, Snapshot, Flat, Swinging, OutOfReach, Next;
    LinesMade(m);
    PassPlaces(Lines(m), symbols, true);
    SwingPass(m, Snapshot(Lines(m), symbols));
  }

  lemma StageOnce(m: nat, p: nat, symbols: map<string, Sym>)
    requires 0 < m <= 4 && 0 < p <= m + 3
    requires Labelled(Lines(m), symbols) && Before(m, p, Snapshot(Lines(m), symbols))
    ensures var r := L.Pass(Program(m), false, symbols);
      && r.Some? && r.value.changed && Labelled(Lines(m), r.value.symbols)
      && Stage(m, p, Snapshot(Lines(m), r.value.symbols)) && Before(m, p + 1, Snapshot(Lines(m), r.value.symbols))
  {
    hide L.Pass, Lines, Written, Labelled, Snapshot, Flat, Stage, Next;
    LinesMade(m);
    PassPlaces(Lines(m), symbols, false);
    StagePass(m, p, Snapshot(Lines(m), symbols));
  }

  lemma {:induction false} SwingLoop(m: nat, symbols: map<string, Sym>, n: nat)
    requires n > 0 && m <= 4 && Labelled(Lines(m), symbols)
    requires Swinging(m, Snapshot(Lines(m), symbols)) || (n > 1 && OutOfReach(m, Snapshot(Lines(m), symbols)))
    ensures var r := PassLoop(Program(m), true, symbols, n);
      && r.Some? && r.value.changed && Labelled(Lines(m), r.value.symbols)
      && Flat(m, Snapshot(Lines(m), r.value.symbols))
    decreases n
  {
    hide L.Pass, Lines, Program, Labelled, Snapshot, Flat, Swinging, OutOfReach;
    SwingOnce(m, symbols);
    if n > 1 {
      SwingLoop(m, L.Pass(Program(m), true, symbols).value.symbols, n - 1);
    }
  }

  lemma {:induction false} StageLoop(m: nat, p: nat, symbols: map<string, Sym>, n: nat)
    requires n > 0 && p > 0 && 0 < m <= 4 && p + n - 1 <= m + 3
    requires Labelled(Lines(m), symbols) && Before(m, p, Snapshot(Lines(m), symbols))
    ensures PassLoop(Program(m), false, symbols, n).Some?
    ensures var r, from := PassLoop(Program(m), false, symbols, n).value, LoopStart(Program(m), false, symbols, n);
      && r.changed && Labelled(Lines(m), r.symbols) && Labelled(Lines(m), from)
      && Stage(m, p + n - 1, Snapshot(Lines(m), r.symbols)) && Before(m, p + n - 1, Snapshot(Lines(m), from))
    decreases n
  {
    hide L.Pass, Lines, Program, Labelled, Snapshot, Stage, Before;
    StageOnce(m, p, symbols);
    if n > 1 {
      StageLoop(m, p + 1, L.Pass(Program(m), false, symbols).value.symbols, n - 1);
    }
  }

  lemma Kept(m: nat, symbols: map<string, Sym>)
    requires 3 <= m <= 4 && Labelled(Lines(m), symbols) && OutOfReach(m, Snapshot(Lines(m), symbols))
    ensures TextPasses(Program(m), symbols).Some?
    ensures var t, from := TextPasses(Program(m), symbols).value, KeptFrom(Program(m), symbols);
      && !t.forward && t.st.changed
      && Labelled(Lines(m), t.st.symbols) && Stage(m, 6, Snapshot(Lines(m), t.st.symbols))
      && Labelled(Lines(m), from) && Stage(m, 5, Snapshot(Lines(m), from))
  {
    hide PassLoop, LoopStart, Program, Lines, Labelled, Snapshot, Stage, Flat, OutOfReach;
    SwingLoop(m, symbols, MAX_PASSES);
    StageLoop(m, 1, PassLoop(Program(m), true, symbols, MAX_PASSES).value.symbols, MAX_PASSES);
  }

  // ---- the kept text ----

  predicate IsBranch(m: nat, n: nat) { 1 <= n < m + 2 || n == m + 4 || n == m + 6 }

  function Goal(m: nat, n: nat): nat
    requires IsBranch(m, n)
  {
    if n == 1 then 1 else if n < m + 2 then n + 1 else if n == m + 4 then m + 7 else m + 8
  }

  lemma Branches(m: nat, n: nat)
    requires m <= 50
    ensures n < m + 9 && Lines(m)[n].Go? <==> IsBranch(m, n)
    ensures IsBranch(m, n) ==> Lines(m)[n].to == Goal(m, n)
    ensures TextBranch(Program(m), n) ==> IsBranch(m, n)
  {
    var items := Lines(m);
    hide Lines;
    assert 2 <= n < m + 2 ==> items[n] == Go(Jmp, n + 1);
  }

  /** In the kept text only je x of the longer program is short for a label ahead. */
  lemma KeptShort(m: nat, n: nat, from: seq<int>)
    requires 3 <= m <= 4 && WellMade(Lines(m)) && IsBranch(m, n) && n < Goal(m, n) && Stage(m, 5, from)
    ensures Short(Place(Lines(m), n, from, false), from[Goal(m, n)], false) <==> m == 4 && n == 10
  {
    hide Place, Lines, L.AlignUp;
    if n < m + 2 {
      LinkStage(m, n, 6, from);
    } else {
      LinkStage(m, m + 2, 6, from);
      RoundUp(Place(Lines(m), m + 2, from, false));
      Tail(m, from, false);
    }
  }

  lemma LineReaches(m: nat, symbols: map<string, Sym>, n: nat)
    requires 3 <= m <= 4 && IsBranch(m, n)
    requires Labelled(Lines(m), symbols) && OutOfReach(m, Snapshot(Lines(m), symbols))
    ensures Assemble(Program(m), symbols).Some? && TextBranch(Program(m), n)
    ensures Reaches(Program(m), symbols, n) <==> !(m == 4 && n == 10)
  {
    hide Assemble, TextPasses, KeptFrom, Written, Place, Reaches, TextBranch, Lines, Labelled, Snapshot, Short;
    LinesMade(m);
    Kept(m, symbols);
    Assembles(Lines(m), symbols);
    Branches(m, n);
    GoReaches(Lines(m), symbols, n);
    if n < Goal(m, n) {
      KeptShort(m, n, Snapshot(Lines(m), KeptFrom(Program(m), symbols)));
    }
  }

  lemma {:induction false} CountLinks(m: nat, n: nat)
    requires m <= 50 && 2 <= n <= m + 2
    ensures AheadCount(Lines(m), n) == n - 2
  {
    var items := Lines(m);
    hide Lines;
    if n == 2 {
      assert AheadCount(items, 0) == 0 && AheadCount(items, 1) == 0;
    } else {
      CountLinks(m, n - 1);
      assert items[n - 1] == Go(Jmp, n);
    }
  }

  lemma CountAhead(m: nat)
    requires m <= 50
    ensures R.ForwardBranches(Program(m), |Program(m)|) == m + 2
  {
    LinesMade(m);
    var items := Lines(m);
    ForwardCount(items, m + 9);
    CountLinks(m, m + 2);
    hide Lines;
    assert AheadCount(items, m + 4) == AheadCount(items, m + 3) == m;
    assert AheadCount(items, m + 6) == AheadCount(items, m + 5) == m + 1;
    assert AheadCount(items, m + 8) == AheadCount(items, m + 7) == m + 2;
  }

  /**
   * Both bounds are tight. With three links there are five forward branches and the passes do not settle,
   * though all branches of the kept text are right; with four links there are six, and not all are right.
   */
  lemma BoundsTight(m: nat, symbols: map<string, Sym>)
    requires 3 <= m <= 4 && Labelled(Lines(m), symbols) && OutOfReach(m, Snapshot(Lines(m), symbols))
    ensures R.ForwardBranches(Program(m), |Program(m)|) == m + 2
    ensures Assemble(Program(m), symbols).Some? && TextPasses(Program(m), symbols).value.st.changed
    ensures (forall n: nat :: TextBranch(Program(m), n) ==> Reaches(Program(m), symbols, n)) <==> m == 3
  {
    hide Assemble, TextPasses, Written, Lines, Labelled, Snapshot, Reaches, TextBranch, OutOfReach;
    CountAhead(m);
    Kept(m, symbols);
    LineReaches(m, symbols, m + 6);
    forall n: nat | TextBranch(Program(m), n)
      ensures Reaches(Program(m), symbols, n) <==> !(m == 4 && n == 10)
    {
      Branches(m, n);
      LineReaches(m, symbols, n);
    }
  }

  /** Such estimates exist: all labels far away, say. */
  function Estimates(m: nat): map<string, Sym> {
    map k: nat | k < m + 9 :: Name(k) := Sym(L.BASE + 9_000, 0, false)
  }

  lemma EstimatesFar(m: nat)
    requires m <= 4
    ensures Labelled(Lines(m), Estimates(m)) && OutOfReach(m, Snapshot(Lines(m), Estimates(m)))
  {
    hide Name, Lines;
    forall k: nat | k < m + 9
      ensures Name(k) in Estimates(m) && Estimates(m)[Name(k)].address == L.BASE + 9_000
    {
    }
  }
}
