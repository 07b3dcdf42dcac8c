// A family of programs whose text passes never settle. Assembly keeps the text of the last pass: with six
// links every branch of that text is right, with more of them one goes astray.

module Unsettled {
  import opened Bytes
  import opened Operands
  import opened Symbols
  import opened Assembly
  import opened Sizing
  import L = Layout

  /**
   * resb 10, jmp t, je c0, resb 122, t: align 16, and m links, each a jmp to the next line: c0: jmp c1 and so
   * on up to a line with the last label alone. The label of line 4 is t, that of line 5 is c0.
   */
  function Lines(m: nat): (items: seq<Item>)
    ensures |items| == m + 6 && items[..5] == [Pad(10), Go(Jmp, 4), Go(Jcc(E), 5), Pad(122), AlignTo(16)]
    ensures forall k: nat :: 5 <= k < m + 5 ==> items[k] == Go(Jmp, k + 1)
    ensures items[m + 5] == Mark
  {
    [Pad(10), Go(Jmp, 4), Go(Jcc(E), 5), Pad(122), AlignTo(16)] + seq(m, i requires 0 <= i < m => Go(Jmp, i + 6))
    + [Mark]
  }

  function Program(m: nat): seq<Statement> { Written(Lines(m)) }

  lemma LinesMade(m: nat)
    requires m <= 40
    ensures WellMade(Lines(m))
    ensures Lines(m)[0] == Pad(10) && Lines(m)[1] == Go(Jmp, 4) && Lines(m)[2] == Go(Jcc(E), 5)
    ensures Lines(m)[3] == Pad(122) && Lines(m)[4] == AlignTo(16)
  {
    var items := Lines(m);
    forall k | 0 <= k < |items|
      ensures Made(items[k], |items|)
    {
      assert k < 5 ==> items[k] == items[..5][k];
    }
    assert forall k :: 0 <= k < 5 ==> items[k] == items[..5][k];
  }

  // ---- where the labels are after each pass ----

  /** The first link, behind the padding: the padding takes up what the two branches before it gain and lose. */
  const FIRST: int := L.BASE + 144

  lemma Front(m: nat, prior: seq<int>, forward: bool)
    requires m <= 40 && |prior| == m + 6 && WellMade(Lines(m))
    ensures Place(Lines(m), 1, prior, forward) == L.BASE + 10
    ensures Place(Lines(m), 2, prior, forward)
         == L.BASE + 10 + (if Short(L.BASE + 10, prior[4], forward) then 2 else 5)
    ensures Place(Lines(m), 4, prior, forward)
         == Place(Lines(m), 2, prior, forward) + 122
            + (if Short(Place(Lines(m), 2, prior, forward), prior[5], forward) then 2 else 6)
    ensures Place(Lines(m), 5, prior, forward) == FIRST
  {
    hide Lines, Short, WellMade;
    LinesMade(m);
    assert Place(Lines(m), 0, prior, forward) == L.BASE;
    assert Place(Lines(m), 3, prior, forward)
        == Place(Lines(m), 2, prior, forward)
           + (if Short(Place(Lines(m), 2, prior, forward), prior[5], forward) then 2 else 6);
  }

  /** One link further on. */
  lemma LinkPlace(m: nat, k: nat, prior: seq<int>, forward: bool)
    requires m <= 40 && |prior| == m + 6 && WellMade(Lines(m)) && 5 <= k < m + 5
    ensures var at := Place(Lines(m), k, prior, forward);
      Place(Lines(m), k + 1, prior, forward) == at + (if Short(at, prior[k + 1], forward) then 2 else 5)
  {
    hide Lines, Short, WellMade;
    assert Lines(m)[k] == Go(Jmp, k + 1);
    assert Aim(Lines(m), k, prior, forward) == prior[k + 1];
  }

  /** What holds of the labels after any pass. */
  ghost predicate After(m: nat, prior: seq<int>) {
    && |prior| == m + 6 && L.BASE + 136 <= prior[4] < FIRST
    && forall k :: 5 <= k < m + 6 ==> FIRST + 2 * (k - 5) <= prior[k] <= FIRST + 5 * (k - 5)
  }

  /** The labels when the first q links are near and the others short. */
  ghost predicate Level(m: nat, q: nat, prior: seq<int>) {
    && |prior| == m + 6 && L.BASE + 136 <= prior[4] < FIRST
    && forall k :: 5 <= k < m + 6 ==> prior[k] == Lay(k - 5, q)
  }

  function Lay(i: nat, q: nat): int { FIRST + (if i <= q then 5 * i else 3 * q + 2 * i) }

  lemma {:induction false} AnyPlace(m: nat, k: nat, prior: seq<int>, forward: bool)
    requires m <= 40 && |prior| == m + 6 && WellMade(Lines(m)) && 5 <= k < m + 6
    ensures FIRST + 2 * (k - 5) <= Place(Lines(m), k, prior, forward) <= FIRST + 5 * (k - 5)
  {
    hide Short, Place, Lines;
    if k == 5 {
      Front(m, prior, forward);
    } else {
      AnyPlace(m, k - 1, prior, forward);
      LinkPlace(m, k - 1, prior, forward);
    }
  }

  /** With forward short branches every link becomes short. */
  lemma {:induction false} FlatPlace(m: nat, k: nat, prior: seq<int>)
    requires m <= 40 && WellMade(Lines(m)) && After(m, prior) && 5 <= k < m + 6
    ensures Place(Lines(m), k, prior, true) == Lay(k - 5, 0)
  {
    hide Place, Lines;
    if k == 5 {
      Front(m, prior, true);
    } else {
      FlatPlace(m, k - 1, prior);
      LinkPlace(m, k - 1, prior, true);
    }
  }

  /** A conservative pass makes one more link near: behind it every label looks as if it lay behind its branch. */
  lemma {:induction false} ClimbPlace(m: nat, k: nat, q: nat, prior: seq<int>)
    requires m <= 40 && WellMade(Lines(m)) && Level(m, q, prior) && 5 <= k < m + 6
    ensures Place(Lines(m), k, prior, false) == Lay(k - 5, q + 1)
  {
    hide Place, Lines;
    if k == 5 {
      Front(m, prior, false);
    } else {
      ClimbPlace(m, k - 1, q, prior);
      LinkPlace(m, k - 1, prior, false);
    }
  }

  lemma AfterPass(m: nat, prior: seq<int>, forward: bool)
    requires m <= 40 && |prior| == m + 6 && WellMade(Lines(m))
    ensures After(m, Next(Lines(m), prior, forward))
  {
    hide Lines, Place;
    Front(m, prior, forward);
    forall k | 5 <= k < m + 6
      ensures FIRST + 2 * (k - 5) <= Next(Lines(m), prior, forward)[k] <= FIRST + 5 * (k - 5)
    {
      AnyPlace(m, k, prior, forward);
    }
    assert Next(Lines(m), prior, forward)[4] == Place(Lines(m), 4, prior, forward);
  }

  /**
   * No addresses are a fixed point of the passes with forward short branches: a near jmp t makes je short,
   * which makes jmp short, which makes je near, which makes jmp near.
   */
  lemma NoFixedPoint(m: nat, prior: seq<int>)
    requires m <= 40 && |prior| == m + 6 && WellMade(Lines(m))
    ensures Next(Lines(m), prior, true) != prior
  {
    hide Lines, Place;
    Front(m, prior, true);
    var next := Next(Lines(m), prior, true);
    assert next[4] == Place(Lines(m), 4, prior, true) && next[5] == Place(Lines(m), 5, prior, true);
  }

  /** So such a pass always moves a label. */
  lemma ForwardNeverSettles(m: nat, symbols: map<string, Sym>)
    requires m <= 40 && Labelled(Lines(m), symbols)
    ensures L.Pass(Program(m), true, symbols).Some? && L.Pass(Program(m), true, symbols).value.changed
  {
    hide L.Pass, Lines, Written, Labelled;
    LinesMade(m);
    PassPlaces(Lines(m), symbols, true);
    NoFixedPoint(m, Snapshot(Lines(m), symbols));
  }

  lemma FlatPass(m: nat, prior: seq<int>)
    requires m <= 40 && WellMade(Lines(m)) && After(m, prior)
    ensures Level(m, 0, Next(Lines(m), prior, true))
  {
    hide Lines, Place;
    AfterPass(m, prior, true);
    forall k | 5 <= k < m + 6
      ensures Next(Lines(m), prior, true)[k] == Lay(k - 5, 0)
    {
      FlatPlace(m, k, prior);
    }
  }

  lemma ClimbPass(m: nat, q: nat, prior: seq<int>)
    requires m <= 40 && WellMade(Lines(m)) && Level(m, q, prior)
    ensures Level(m, q + 1, Next(Lines(m), prior, false))
    ensures q < m ==> Next(Lines(m), prior, false) != prior
  {
    hide Lines, Place;
    AfterPass(m, prior, false);
    var next := Next(Lines(m), prior, false);
    forall k | 5 <= k < m + 6
      ensures next[k] == Lay(k - 5, q + 1)
    {
      ClimbPlace(m, k, q, prior);
    }
    if q < m {
      assert next[q + 6] == Lay(q + 1, q + 1) && prior[q + 6] == Lay(q + 1, q);
    }
  }

  /** Each conservative pass climbs one level, and moves labels as long as there are links above. */
  lemma Climb(m: nat, q: nat, symbols: map<string, Sym>)
    requires m <= 40 && Labelled(Lines(m), symbols) && Level(m, q, Snapshot(Lines(m), symbols))
    ensures var r := L.Pass(Program(m), false, symbols);
      && r.Some? && Labelled(Lines(m), r.value.symbols)
      && Level(m, q + 1, Snapshot(Lines(m), r.value.symbols)) && (q < m ==> r.value.changed)
  {
    hide L.Pass, Lines, Written, Labelled, Level;
    LinesMade(m);
    PassPlaces(Lines(m), symbols, false);
    ClimbPass(m, q, Snapshot(Lines(m), symbols));
  }

  // ---- the pass loops ----

  lemma ForwardPass(m: nat, symbols: map<string, Sym>)
    requires m <= 40 && Labelled(Lines(m), symbols)
    ensures var r := L.Pass(Program(m), true, symbols);
      && r.Some? && r.value.changed && Labelled(Lines(m), r.value.symbols)
      && After(m, Snapshot(Lines(m), r.value.symbols))
      && (After(m, Snapshot(Lines(m), symbols)) ==> Level(m, 0, Snapshot(Lines(m), r.value.symbols)))
  {
    hide L.Pass, Lines, Written, Labelled, After, Level;
    LinesMade(m);
    ForwardNeverSettles(m, symbols);
    PassPlaces(Lines(m), symbols, true);
    AfterPass(m, Snapshot(Lines(m), symbols), true);
    if After(m, Snapshot(Lines(m), symbols)) {
      FlatPass(m, Snapshot(Lines(m), symbols));
    }
  }

  lemma {:induction false} ForwardLoop(m: nat, symbols: map<string, Sym>, n: nat)
    requires n > 0 && m <= 40 && Labelled(Lines(m), symbols)
    requires n == 1 ==> After(m, Snapshot(Lines(m), symbols))
    ensures var r := PassLoop(Program(m), true, symbols, n);
      && r.Some? && r.value.changed && Labelled(Lines(m), r.value.symbols)
      && Level(m, 0, Snapshot(Lines(m), r.value.symbols))
    decreases n
  {
    hide L.Pass, Lines, Program, Labelled, Snapshot, After, Level;
    ForwardPass(m, symbols);
    if n > 1 {
      ForwardLoop(m, L.Pass(Program(m), true, symbols).value.symbols, n - 1);
    }
  }

  lemma {:induction false} ConservativeLoop(m: nat, q: nat, symbols: map<string, Sym>, n: nat)
    requires n > 0 && q + n <= m <= 40 && Labelled(Lines(m), symbols) && Level(m, q, Snapshot(Lines(m), symbols))
    ensures PassLoop(Program(m), false, symbols, n).Some?
    ensures var r, from := PassLoop(Program(m), false, symbols, n).value, LoopStart(Program(m), false, symbols, n);
      && r.changed && Labelled(Lines(m), r.symbols) && Labelled(Lines(m), from)
      && Level(m, q + n, Snapshot(Lines(m), r.symbols)) && Level(m, q + n - 1, Snapshot(Lines(m), from))
    decreases n
  {
    hide L.Pass, Program, Lines, Labelled, Level, Snapshot;
    Climb(m, q, symbols);
    if n > 1 {
      ConservativeLoop(m, q + 1, L.Pass(Program(m), false, symbols).value.symbols, n - 1);
    }
  }

  /** Neither mode settles: the kept text is that of the sixth conservative pass. */
  lemma Kept(m: nat, symbols: map<string, Sym>)
    requires 6 <= m <= 40 && Labelled(Lines(m), symbols)
    ensures TextPasses(Program(m), symbols).Some?
    ensures var t, from := TextPasses(Program(m), symbols).value, KeptFrom(Program(m), symbols);
      && !t.forward && t.st.changed
      && Labelled(Lines(m), t.st.symbols) && Level(m, 6, Snapshot(Lines(m), t.st.symbols))
      && Labelled(Lines(m), from) && Level(m, 5, Snapshot(Lines(m), from))
  {
    hide PassLoop, LoopStart, Program, Lines, Labelled, Level, Snapshot;
    ForwardLoop(m, symbols, MAX_PASSES);
    ConservativeLoop(m, 0, PassLoop(Program(m), true, symbols, MAX_PASSES).value.symbols, MAX_PASSES);
  }

  // ---- the assembled text ----

  predicate IsBranch(m: nat, n: nat) { n == 1 || n == 2 || 5 <= n < 5 + m }

  /** Line n of the kept text reaches its label exactly when it is not the branch of a link above the sixth. */
  lemma LinkReaches(m: nat, symbols: map<string, Sym>, n: nat)
    requires 6 <= m <= 40 && Labelled(Lines(m), symbols) && IsBranch(m, n)
    ensures Assemble(Program(m), symbols).Some? && TextBranch(Program(m), n)
    ensures Reaches(Program(m), symbols, n) <==> n < 11
  {
    hide Assemble, TextPasses, KeptFrom, Written, Place, Reaches, TextBranch, Lines, Labelled, Snapshot, Short;
    LinesMade(m);
    Kept(m, symbols);
    Assembles(Lines(m), symbols);
    assert n >= 5 ==> Lines(m)[n] == Go(Jmp, n + 1);
    GoReaches(Lines(m), symbols, n);
    KeptShort(m, n, Snapshot(Lines(m), KeptFrom(Program(m), symbols)));
  }

  lemma KeptShort(m: nat, n: nat, from: seq<int>)
    requires m <= 40 && WellMade(Lines(m)) && IsBranch(m, n) && Level(m, 5, from)
    ensures var to := if n == 1 then 4 else if n == 2 then 5 else n + 1;
      Short(Place(Lines(m), n, from, false), from[to], false) <==> n >= 11
  {
    hide Place, Lines;
    Front(m, from, false);
    if n >= 5 {
      ClimbPlace(m, n, 5, from);
    }
  }

  /** The branches are those of IsBranch. */
  lemma Branches(m: nat, n: nat)
    requires m <= 40 && TextBranch(Program(m), n)
    ensures IsBranch(m, n)
  {
    hide Lines;
    LinesMade(m);
    assert 5 <= n < m + 5 ==> Lines(m)[n] == Go(Jmp, n + 1);
  }

  /**
   * The kept text of these programs, from any first estimates: assembly succeeds without having settled, and
   * all branches reach their labels if there are six links, but not if there are more.
   */
  lemma UnsettledText(m: nat, symbols: map<string, Sym>)
    requires 6 <= m <= 40 && Labelled(Lines(m), symbols)
    ensures Assemble(Program(m), symbols).Some? && TextPasses(Program(m), symbols).value.st.changed
    ensures (forall n: nat :: TextBranch(Program(m), n) ==> Reaches(Program(m), symbols, n)) <==> m == 6
  {
    hide Assemble, TextPasses, Written, Lines, Labelled, Reaches, TextBranch;
    Kept(m, symbols);
    LinesMade(m);
    LinkReaches(m, symbols, 1);
    forall n: nat | TextBranch(Program(m), n)
      ensures Reaches(Program(m), symbols, n) <==> n < 11
    {
      Branches(m, n);
      LinkReaches(m, symbols, n);
    }
    if m > 6 {
      LinkReaches(m, symbols, 11);
    } else {
      forall n: nat | TextBranch(Program(m), n)
        ensures n < 11
      {
        Branches(m, n);
      }
    }
  }
}
