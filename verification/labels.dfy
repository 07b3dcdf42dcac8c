// Local and anonymous labels are rewritten to canonical names in two passes over the instructions: the
// first names the definitions, the second resolves the references.

module Labels {
  import opened Operands
  import opened Text
  import Lexing
  import Symbols

  // What canonicalisation sees of an instruction: its label, whether it is an equ, and the labels
  // its operands refer to, in order.
  datatype Inst = Inst(lbl: Option<string>, isEqu: bool, refs: seq<string>)

  datatype Alias = Alias(scope: nat, name: string, canonical: string)

  datatype Anon = Anon(index: nat, canonical: string)

  const MAX_ALIASES: nat := Symbols.MAX_SYMBOLS

  // ---- names ----

  predicate IsLocal(name: string) { |name| > 1 && name[0] == '.' }

  predicate IsAnonymous(name: string) { name == "@@" }

  predicate IsBackward(name: string) { Lexing.Lower(name) == "@b" }

  predicate IsForward(name: string) { Lexing.Lower(name) == "@f" }

  predicate IsReserved(name: string) { "__loc_" <= name || "__anon_" <= name }

  function Dec(n: nat): string { Digits(n, 10) }

  /** build_scoped_local_label, without its length check */
  function LocName(scope: nat, name: string): string
    requires name != ""
  {
    "__loc_" + Dec(scope) + "_" + name[1..]
  }

  function AnonName(n: nat): string { "__anon_" + Dec(n) }

  /** Distinct pairs of scope and local name get distinct names. */
  lemma LocInjective(s: nat, x: string, t: nat, y: string)
    requires IsLocal(x) && IsLocal(y) && LocName(s, x) == LocName(t, y)
    ensures s == t && x == y
  {
    hide Digits, IsDecDigit;
    var a, b, p, q := Dec(s), Dec(t), LocName(s, x), LocName(t, y);
    assert p[6..] == a + "_" + x[1..] && q[6..] == b + "_" + y[1..];
    FirstUnderscore(a, x[1..], b, y[1..]);
    assert a == p[6..][..|a|] == b;
    DigitsInjective(s, t, 10);
    assert x == ['.'] + x[1..] && y == ['.'] + y[1..];
    assert x[1..] == p[6..][|a| + 1..] == y[1..];
  }

  lemma FirstUnderscore(a: string, x: string, b: string, y: string)
    requires AllDigits(a, 10) && AllDigits(b, 10) && a + "_" + x == b + "_" + y
    ensures |a| == |b|
  {
    var s := a + "_" + x;
    assert s[|a|] == '_' && s[|b|] == '_';
    assert forall k :: 0 <= k < |a| ==> s[k] == a[k] && IsDigitOf(a[k], 10);
    assert forall k :: 0 <= k < |b| ==> s[k] == b[k] && IsDigitOf(b[k], 10);
  }

  lemma AnonInjective(m: nat, n: nat)
    requires AnonName(m) == AnonName(n)
    ensures m == n
  {
    hide Digits;
    assert AnonName(m)[7..] == Dec(m) && AnonName(n)[7..] == Dec(n);
    DigitsInjective(m, n, 10);
  }

  /** The three kinds of names never meet. */
  lemma NamesApart(s: nat, x: string, n: nat)
    requires IsLocal(x)
    ensures "__loc_" <= LocName(s, x) && "__anon_" <= AnonName(n) && LocName(s, x) != AnonName(n)
    ensures !IsLocal(LocName(s, x)) && !IsLocal(AnonName(n))
  {
    assert LocName(s, x)[2] == 'l' && AnonName(n)[2] == 'a';
  }

  // ---- the alias table ----

  /** lookup_local_alias */
  function Find(aliases: seq<Alias>, scope: nat, name: string): Option<string> {
    if aliases == [] then None
    else if aliases[0].scope == scope && aliases[0].name == name then Some(aliases[0].canonical)
    else Find(aliases[1..], scope, name)
  }

  /** get_or_create_local_alias: the canonical name, and the table it is in from now on. */
  function Create(aliases: seq<Alias>, scope: nat, name: string): Option<(string, seq<Alias>)>
    requires IsLocal(name)
  {
    var known := Find(aliases, scope, name);
    if known.Some? then Some((known.value, aliases))
    else if |aliases| >= MAX_ALIASES || |LocName(scope, name)| >= Lexing.MAX_LABEL then None
    else Some((LocName(scope, name), aliases + [Alias(scope, name, LocName(scope, name))]))
  }

  /** Every alias has the name its scope and local name build. */
  ghost predicate Aliased(aliases: seq<Alias>) {
    forall a <- aliases :: IsLocal(a.name) && a.canonical == LocName(a.scope, a.name)
  }

  lemma {:induction false} FindNamed(aliases: seq<Alias>, scope: nat, name: string)
    requires Aliased(aliases)
    ensures Find(aliases, scope, name).Some?
      ==> IsLocal(name) && Find(aliases, scope, name) == Some(LocName(scope, name))
    decreases |aliases|
  {
    hide LocName;
    if aliases != [] && !(aliases[0].scope == scope && aliases[0].name == name) {
      FindNamed(aliases[1..], scope, name);
    }
  }

  lemma {:induction false} FindKept(aliases: seq<Alias>, a: Alias, scope: nat, name: string)
    ensures Find(aliases, scope, name).Some? ==> Find(aliases + [a], scope, name) == Find(aliases, scope, name)
    ensures a.scope == scope && a.name == name ==> Find(aliases + [a], scope, name).Some?
    decreases |aliases|
  {
    if aliases != [] {
      assert (aliases + [a])[1..] == aliases[1..] + [a];
      FindKept(aliases[1..], a, scope, name);
    }
  }

  /** Whatever the table holds already, a local name of a scope is given that scope's canonical name. */
  lemma CreateNames(aliases: seq<Alias>, scope: nat, name: string)
    requires Aliased(aliases) && IsLocal(name) && Create(aliases, scope, name).Some?
    ensures var r := Create(aliases, scope, name).value;
      r.0 == LocName(scope, name) && Aliased(r.1) && Find(r.1, scope, name).Some?
    ensures forall t: nat, other: string {:trigger Find(aliases, t, other)} ::
      Find(aliases, t, other).Some? ==> Find(Create(aliases, scope, name).value.1, t, other).Some?
  {
    hide LocName;
    FindNamed(aliases, scope, name);
    var a := Alias(scope, name, LocName(scope, name));
    FindKept(aliases, a, scope, name);
    forall t: nat, other: string | Find(aliases, t, other).Some?
      ensures Find(Create(aliases, scope, name).value.1, t, other).Some?
    {
      FindKept(aliases, a, t, other);
    }
  }

  // ---- first pass: definitions ----

  datatype First = First(aliases: seq<Alias>, anons: seq<Anon>, scope: nat, out: seq<Inst>)

  function Define(inst: Inst, i: nat, st: First): Option<First> {
    if inst.lbl.None? then Some(st.(out := st.out + [inst]))
    else
      var lbl := inst.lbl.value;
      if IsAnonymous(lbl) then
        if |st.anons| >= MAX_ALIASES then None
        else
          var name := AnonName(|st.anons|);
          Some(st.(anons := st.anons + [Anon(i, name)], out := st.out + [inst.(lbl := Some(name))]))
      else if IsLocal(lbl) then
        if Find(st.aliases, st.scope, lbl).Some? then None
        else
          var (name, aliases) :- Create(st.aliases, st.scope, lbl);
          Some(st.(aliases := aliases, out := st.out + [inst.(lbl := Some(name))]))
      else Some(st.(scope := st.scope + (if inst.isEqu then 0 else 1), out := st.out + [inst]))
  }

  function FirstPass(insts: seq<Inst>, n: nat): Option<First>
    requires n <= |insts|
  {
    if n == 0 then Some(First([], [], 0, []))
    else
      var st :- FirstPass(insts, n - 1);
      Define(insts[n - 1], n - 1, st)
  }

  // ---- second pass: references ----

  /** The first anonymous definition behind instruction i, as an index into the list. */
  function FirstAfter(anons: seq<Anon>, i: nat): (k: nat)
    ensures k <= |anons|
    ensures k < |anons| ==> anons[k].index > i
    ensures forall j :: 0 <= j < k ==> anons[j].index <= i
  {
    if anons == [] || anons[0].index > i then 0 else 1 + FirstAfter(anons[1..], i)
  }

  /** How many anonymous definitions there are up to the last one before instruction i. */
  function LastBefore(anons: seq<Anon>, i: nat): (k: nat)
    ensures k <= |anons|
    ensures k > 0 ==> anons[k - 1].index < i
    ensures forall j :: k <= j < |anons| ==> anons[j].index >= i
  {
    if anons == [] then 0
    else if anons[|anons| - 1].index < i then |anons|
    else LastBefore(anons[..|anons| - 1], i)
  }

  /** normalize_label_reference */
  function Normalize(name: string, scope: nat, i: nat, aliases: seq<Alias>, anons: seq<Anon>)
    : Option<(string, seq<Alias>)>
  {
    if IsLocal(name) then Create(aliases, scope, name)
    else if IsForward(name) then
      var k := FirstAfter(anons, i);
      if k == |anons| then None else Some((anons[k].canonical, aliases))
    else if IsBackward(name) then
      var k := LastBefore(anons, i);
      if k == 0 then None else Some((anons[k - 1].canonical, aliases))
    else Some((name, aliases))
  }

  function NormalizeAll(refs: seq<string>, n: nat, scope: nat, i: nat, aliases: seq<Alias>, anons: seq<Anon>)
    : Option<(seq<string>, seq<Alias>)>
    requires n <= |refs|
  {
    if n == 0 then Some(([], aliases))
    else
      var (names, known) :- NormalizeAll(refs, n - 1, scope, i, aliases, anons);
      var (name, after) :- Normalize(refs[n - 1], scope, i, known, anons);
      Some((names + [name], after))
  }

  datatype Second = Second(aliases: seq<Alias>, scope: nat, out: seq<Inst>)

  /** Pass 2 counts the scopes again, from the labels as pass 1 left them. */
  predicate Recounted(inst: Inst) {
    inst.lbl.Some? && !inst.isEqu && !IsLocal(inst.lbl.value) && !IsReserved(inst.lbl.value)
  }

  function Refer(inst: Inst, i: nat, st: Second, anons: seq<Anon>): Option<Second> {
    var scope := st.scope + (if Recounted(inst) then 1 else 0);
    var (refs, aliases) :- NormalizeAll(inst.refs, |inst.refs|, scope, i, st.aliases, anons);
    Some(Second(aliases, scope, st.out + [inst.(refs := refs)]))
  }

  function SecondPass(insts: seq<Inst>, n: nat, aliases: seq<Alias>, anons: seq<Anon>): Option<Second>
    requires n <= |insts|
  {
    if n == 0 then Some(Second(aliases, 0, []))
    else
      var st :- SecondPass(insts, n - 1, aliases, anons);
      Refer(insts[n - 1], n - 1, st, anons)
  }

  /** canonicalize_symbol_labels */
  function Canonical(insts: seq<Inst>): Option<seq<Inst>> {
    var first :- FirstPass(insts, |insts|);
    var second :- SecondPass(first.out, |first.out|, first.aliases, first.anons);
    Some(second.out)
  }

  // ---- scopes and sites ----

  /** A label that starts a new scope: not local, not anonymous, not an equ. */
  predicate OpensScope(inst: Inst) {
    inst.lbl.Some? && !inst.isEqu && !IsAnonymous(inst.lbl.value) && !IsLocal(inst.lbl.value)
  }

  function Scope(insts: seq<Inst>, n: nat): nat
    requires n <= |insts|
  {
    if n == 0 then 0 else Scope(insts, n - 1) + (if OpensScope(insts[n - 1]) then 1 else 0)
  }

  predicate IsSite(inst: Inst) { inst.lbl.Some? && IsAnonymous(inst.lbl.value) }

  /** The number of anonymous definitions among the first n instructions. */
  function Sites(insts: seq<Inst>, n: nat): nat
    requires n <= |insts|
  {
    if n == 0 then 0 else Sites(insts, n - 1) + (if IsSite(insts[n - 1]) then 1 else 0)
  }

  lemma {:induction false} SitesMonotone(insts: seq<Inst>, j: nat, n: nat)
    requires j <= n <= |insts|
    ensures Sites(insts, j) <= Sites(insts, n)
    ensures j < n && IsSite(insts[j]) ==> Sites(insts, j) < Sites(insts, n)
    decreases n
  {
    if j < n {
      SitesMonotone(insts, j, n - 1);
    }
  }

  /** The canonical name of the definition at j. */
  function NewLabel(insts: seq<Inst>, j: nat): Option<string>
    requires j < |insts|
  {
    if insts[j].lbl.None? then None
    else
      var lbl := insts[j].lbl.value;
      if IsAnonymous(lbl) then Some(AnonName(Sites(insts, j)))
      else if IsLocal(lbl) then Some(LocName(Scope(insts, j), lbl))
      else Some(lbl)
  }

  predicate LocalDefinition(insts: seq<Inst>, j: nat) {
    j < |insts| && insts[j].lbl.Some? && IsLocal(insts[j].lbl.value)
  }

  /** The anonymous list so far: entry k is the k-th site, and every site has its entry. */
  ghost predicate Listed(insts: seq<Inst>, n: nat, anons: seq<Anon>)
    requires n <= |insts|
  {
    && |anons| == Sites(insts, n)
    && forall k :: 0 <= k < |anons| ==>
         && anons[k].index < n && IsSite(insts[anons[k].index])
         && Sites(insts, anons[k].index) == k && anons[k].canonical == AnonName(k)
  }

  /** What the first pass has established behind n instructions. */
  ghost predicate Named(insts: seq<Inst>, n: nat, st: First)
    requires n <= |insts|
  {
    && |st.out| == n && st.scope == Scope(insts, n)
    && (forall j :: 0 <= j < n ==> st.out[j] == insts[j].(lbl := NewLabel(insts, j)))
    && Aliased(st.aliases) && Listed(insts, n, st.anons)
    && (forall j: nat :: j < n && LocalDefinition(insts, j) ==>
          Find(st.aliases, Scope(insts, j), insts[j].lbl.value).Some?)
  }

  lemma ListedStep(insts: seq<Inst>, n: nat, anons: seq<Anon>)
    requires n < |insts| && Listed(insts, n, anons)
    ensures Listed(insts, n + 1, if IsSite(insts[n]) then anons + [Anon(n, AnonName(|anons|))] else anons)
  {
    hide AnonName;
  }

  /** The table of aliases only grows. */
  ghost predicate Grows(aliases: seq<Alias>, later: seq<Alias>) {
    forall t: nat, other: string {:trigger Find(aliases, t, other)} ::
      Find(aliases, t, other).Some? ==> Find(later, t, other).Some?
  }

  lemma AliasStep(insts: seq<Inst>, n: nat, st: First)
    requires n < |insts| && Aliased(st.aliases) && st.scope == Scope(insts, n)
    requires Define(insts[n], n, st).Some?
    ensures var st' := Define(insts[n], n, st).value;
      && Aliased(st'.aliases) && Grows(st.aliases, st'.aliases)
      && (LocalDefinition(insts, n) ==> Find(st'.aliases, Scope(insts, n), insts[n].lbl.value).Some?)
      && st'.out == st.out + [st'.out[|st.out|]]
      && (|st.anons| == Sites(insts, n) ==> st'.out[|st.out|] == insts[n].(lbl := NewLabel(insts, n)))
      && st'.scope == Scope(insts, n + 1)
      && st'.anons == (if IsSite(insts[n]) then st.anons + [Anon(n, AnonName(|st.anons|))] else st.anons)
  {
    hide LocName, AnonName, Find, Aliased;
    if LocalDefinition(insts, n) {
      CreateNames(st.aliases, st.scope, insts[n].lbl.value);
    }
  }

  lemma {:induction false} FirstNames(insts: seq<Inst>, n: nat)
    requires n <= |insts| && FirstPass(insts, n).Some?
    ensures Named(insts, n, FirstPass(insts, n).value)
    decreases n
  {
    hide LocName, AnonName, Create, Find, Define, Aliased, Listed, NewLabel, Scope;
    if n > 0 {
      var st := FirstPass(insts, n - 1).value;
      FirstNames(insts, n - 1);
      AliasStep(insts, n - 1, st);
      ListedLength(insts, n - 1, st.anons);
      ListedStep(insts, n - 1, st.anons);
    } else {
      NamedEmpty(insts);
    }
  }

  lemma ListedLength(insts: seq<Inst>, n: nat, anons: seq<Anon>)
    requires n <= |insts| && Listed(insts, n, anons)
    ensures |anons| == Sites(insts, n)
  {
  }

  lemma NamedEmpty(insts: seq<Inst>)
    ensures Named(insts, 0, First([], [], 0, []))
  {
  }

  lemma {:induction false} FirstPrefix(insts: seq<Inst>, j: nat, n: nat)
    requires j <= n <= |insts| && FirstPass(insts, n).Some?
    ensures FirstPass(insts, j).Some?
    decreases n
  {
    if j < n {
      FirstPrefix(insts, j, n - 1);
    }
  }

  /** No scope defines a local label twice. */
  lemma NoDuplicates(insts: seq<Inst>, j: nat, k: nat)
    requires FirstPass(insts, |insts|).Some? && j < k < |insts|
    requires LocalDefinition(insts, j) && LocalDefinition(insts, k) && insts[j].lbl == insts[k].lbl
    ensures Scope(insts, j) != Scope(insts, k)
  {
    hide Aliased, Listed, LocName, Find, Create;
    FirstPrefix(insts, k + 1, |insts|);
    FirstPrefix(insts, k, |insts|);
    FirstNames(insts, k);
  }

  // ---- what the second pass does ----

  /** The number of scopes the second pass has counted behind n instructions. */
  function Rescope(insts: seq<Inst>, n: nat): nat
    requires n <= |insts|
  {
    if n == 0 then 0 else Rescope(insts, n - 1) + (if Recounted(insts[n - 1]) then 1 else 0)
  }

  /** name, referred to by instruction i inside a scope, has become canonical. */
  ghost predicate Resolves(name: string, canonical: string, scope: nat, i: nat, anons: seq<Anon>) {
    if IsLocal(name) then canonical == LocName(scope, name)
    else if IsForward(name) then FirstAfter(anons, i) < |anons| && canonical == anons[FirstAfter(anons, i)].canonical
    else if IsBackward(name) then LastBefore(anons, i) > 0 && canonical == anons[LastBefore(anons, i) - 1].canonical
    else canonical == name
  }

  lemma NormalizeResolves(name: string, scope: nat, i: nat, aliases: seq<Alias>, anons: seq<Anon>)
    requires Aliased(aliases) && Normalize(name, scope, i, aliases, anons).Some?
    ensures var r := Normalize(name, scope, i, aliases, anons).value;
      Resolves(name, r.0, scope, i, anons) && Aliased(r.1)
  {
    hide LocName, IsForward, IsBackward;
    if IsLocal(name) {
      CreateNames(aliases, scope, name);
    }
  }

  lemma {:induction false} AllResolve(refs: seq<string>, n: nat, scope: nat, i: nat, aliases: seq<Alias>,
                                      anons: seq<Anon>)
    requires n <= |refs| && Aliased(aliases) && NormalizeAll(refs, n, scope, i, aliases, anons).Some?
    ensures var r := NormalizeAll(refs, n, scope, i, aliases, anons).value;
      && |r.0| == n && Aliased(r.1)
      && forall k :: 0 <= k < n ==> Resolves(refs[k], r.0[k], scope, i, anons)
    decreases n
  {
    hide Normalize, Resolves, Aliased;
    if n > 0 {
      AllResolve(refs, n - 1, scope, i, aliases, anons);
      var known := NormalizeAll(refs, n - 1, scope, i, aliases, anons).value.1;
      NormalizeResolves(refs[n - 1], scope, i, known, anons);
    }
  }

  /** What the second pass has done to instruction j. */
  ghost predicate Rewritten(before: seq<Inst>, after: Inst, j: nat, anons: seq<Anon>)
    requires j < |before|
  {
    && after.lbl == before[j].lbl && |after.refs| == |before[j].refs|
    && forall k :: 0 <= k < |after.refs| ==>
         Resolves(before[j].refs[k], after.refs[k], Rescope(before, j + 1), j, anons)
  }

  lemma {:induction false} SecondRewrites(insts: seq<Inst>, n: nat, aliases: seq<Alias>, anons: seq<Anon>)
    requires n <= |insts| && Aliased(aliases) && SecondPass(insts, n, aliases, anons).Some?
    ensures var st := SecondPass(insts, n, aliases, anons).value;
      && |st.out| == n && st.scope == Rescope(insts, n) && Aliased(st.aliases)
      && forall j: nat :: j < n ==> Rewritten(insts, st.out[j], j, anons)
    decreases n
  {
    hide Resolves, Aliased, NormalizeAll, Recounted;
    if n > 0 {
      SecondRewrites(insts, n - 1, aliases, anons);
      var st := SecondPass(insts, n - 1, aliases, anons).value;
      AllResolve(insts[n - 1].refs, |insts[n - 1].refs|, Rescope(insts, n), n - 1, st.aliases, anons);
    }
  }

  // ---- the scopes of both passes ----

  /** A label of the user's own that pass 2 mistakes for a canonical one. */
  predicate Mistaken(inst: Inst) { OpensScope(inst) && IsReserved(inst.lbl.value) }

  function Mistakes(insts: seq<Inst>, n: nat): nat
    requires n <= |insts|
  {
    if n == 0 then 0 else Mistakes(insts, n - 1) + (if Mistaken(insts[n - 1]) then 1 else 0)
  }

  lemma RecountedStep(insts: seq<Inst>, j: nat)
    requires j < |insts|
    ensures Recounted(insts[j].(lbl := NewLabel(insts, j))) <==> OpensScope(insts[j]) && !Mistaken(insts[j])
  {
    hide LocName, AnonName;
    if insts[j].lbl.Some? {
      var lbl := insts[j].lbl.value;
      if IsLocal(lbl) {
        NamesApart(Scope(insts, j), lbl, 0);
      } else if IsAnonymous(lbl) {
        NamesApart(0, ".x", Sites(insts, j));
      }
    }
  }

  /** Pass 2 finds the scope numbers of pass 1 less the labels it mistakes for canonical ones. */
  lemma {:induction false} ScopesAgree(insts: seq<Inst>, out: seq<Inst>, n: nat)
    requires n <= |insts| == |out|
    requires forall j :: 0 <= j < |insts| ==> out[j] == insts[j].(lbl := NewLabel(insts, j))
    ensures Rescope(out, n) + Mistakes(insts, n) == Scope(insts, n)
    decreases n
  {
    hide NewLabel, Recounted, OpensScope, Mistaken;
    if n > 0 {
      ScopesAgree(insts, out, n - 1);
      RecountedStep(insts, n - 1);
      MistakenOpens(insts[n - 1]);
    }
  }

  lemma MistakenOpens(inst: Inst)
    ensures Mistaken(inst) ==> OpensScope(inst)
  {
  }

  lemma {:induction false} NoMistakes(insts: seq<Inst>, n: nat)
    requires n <= |insts|
    ensures Mistakes(insts, n) == 0 <==> forall j :: 0 <= j < n ==> !Mistaken(insts[j])
    decreases n
  {
    hide Mistaken;
    if n > 0 {
      NoMistakes(insts, n - 1);
    }
  }

  // ---- anonymous references ----

  /** The entry of a site. */
  lemma SiteListed(insts: seq<Inst>, anons: seq<Anon>, j: nat)
    requires Listed(insts, |insts|, anons) && j < |insts| && IsSite(insts[j])
    ensures Sites(insts, j) < |anons| && anons[Sites(insts, j)].index == j
  {
    hide AnonName, IsSite;
    SitesMonotone(insts, j, |insts|);
    var i := anons[Sites(insts, j)].index;
    if i < j {
      SitesMonotone(insts, i, j);
    } else if j < i {
      SitesMonotone(insts, j, i);
    }
  }

  /** @F takes the nearest site behind the reference. */
  lemma NearestAfter(insts: seq<Inst>, anons: seq<Anon>, i: nat)
    requires Listed(insts, |insts|, anons)
    ensures var k := FirstAfter(anons, i);
      if k < |anons| then
        var s := anons[k].index;
        i < s < |insts| && IsSite(insts[s]) && forall j :: i < j < s ==> !IsSite(insts[j])
      else forall j :: i < j < |insts| ==> !IsSite(insts[j])
  {
    hide AnonName, IsSite, FirstAfter;
    var k := FirstAfter(anons, i);
    forall j | i < j < |insts| && IsSite(insts[j])
      ensures k < |anons| && anons[k].index <= j
    {
      SiteListed(insts, anons, j);
      var s := anons[k].index;
      if j < s {
        SitesMonotone(insts, j, s);
      }
    }
  }

  /** @B takes the nearest site before the reference; a site on the same instruction does not count. */
  lemma NearestBefore(insts: seq<Inst>, anons: seq<Anon>, i: nat)
    requires Listed(insts, |insts|, anons) && i < |insts|
    ensures var k := LastBefore(anons, i);
      if k > 0 then
        var s := anons[k - 1].index;
        s < i && IsSite(insts[s]) && forall j :: s < j < i ==> !IsSite(insts[j])
      else forall j :: 0 <= j < i ==> !IsSite(insts[j])
  {
    hide AnonName, IsSite, LastBefore;
    var k := LastBefore(anons, i);
    forall j: nat | j < i && IsSite(insts[j])
      ensures k > 0 && j <= anons[k - 1].index
    {
      SiteListed(insts, anons, j);
      if k > 0 {
        var s := anons[k - 1].index;
        if s < j {
          SitesMonotone(insts, s, j);
        }
      }
    }
  }

  // ---- what canonicalisation achieves ----

  /** Everything both passes establish about a successful run. */
  lemma Canonicalised(insts: seq<Inst>) returns (anons: seq<Anon>)
    requires Canonical(insts).Some?
    ensures var out := Canonical(insts).value;
      && |out| == |insts| && Listed(insts, |insts|, anons)
      && forall j: nat :: j < |insts| ==>
           && out[j].lbl == NewLabel(insts, j) && |out[j].refs| == |insts[j].refs|
           && Mistakes(insts, j + 1) <= Scope(insts, j + 1)
           && forall k :: 0 <= k < |out[j].refs| ==>
                Resolves(insts[j].refs[k], out[j].refs[k], Scope(insts, j + 1) - Mistakes(insts, j + 1), j, anons)
  {
    hide NewLabel, Resolves, Listed, Aliased, Scope, Mistakes, Rescope, FirstPass, SecondPass;
    var first := FirstPass(insts, |insts|).value;
    FirstNames(insts, |insts|);
    anons := first.anons;
    SecondRewrites(first.out, |insts|, first.aliases, first.anons);
    forall n | 0 <= n <= |insts|
      ensures Rescope(first.out, n) + Mistakes(insts, n) == Scope(insts, n)
    {
      ScopesAgree(insts, first.out, n);
    }
  }

  /**
   * A .x reference names the scope it stands in, unless a label of the user's starts with a reserved prefix:
   * the scope number is right exactly when no such label opens a scope up to the reference.
   */
  lemma LocalReference(insts: seq<Inst>, i: nat, r: nat)
    requires Canonical(insts).Some? && i < |insts| && r < |insts[i].refs| && IsLocal(insts[i].refs[r])
    ensures var out := Canonical(insts).value;
      && |out| == |insts| && |out[i].refs| == |insts[i].refs|
      && (out[i].refs[r] == LocName(Scope(insts, i + 1), insts[i].refs[r])
          <==> forall j :: 0 <= j <= i ==> !Mistaken(insts[j]))
  {
    hide Canonical, NewLabel, LocName, Scope, Mistakes, Listed, Mistaken;
    var anons := Canonicalised(insts);
    var name, s := insts[i].refs[r], Scope(insts, i + 1) - Mistakes(insts, i + 1);
    assert Resolves(name, Canonical(insts).value[i].refs[r], s, i, anons);
    NoMistakes(insts, i + 1);
    if LocName(s, name) == LocName(Scope(insts, i + 1), name) {
      LocInjective(s, name, Scope(insts, i + 1), name);
    }
  }

  // .y in the first scope, then __loc_x with a reference to .y, then .y again in the scope __loc_x opens.
  const STRAY: seq<Inst> :=
    [Inst(Some(".y"), false, []), Inst(Some("__loc_x"), false, [".y"]), Inst(Some(".y"), false, [])]

  /** That reference is bound, without an error, to the .y of the scope before its own. */
  lemma StrayReference()
    ensures Scope(STRAY, 0) == 0 && Scope(STRAY, 2) == 1
    ensures LocName(0, ".y") != LocName(1, ".y")
    ensures Canonical(STRAY) == Some(
      [Inst(Some(LocName(0, ".y")), false, []), Inst(Some("__loc_x"), false, [LocName(0, ".y")]),
       Inst(Some(LocName(1, ".y")), false, [])])
  {
    if LocName(0, ".y") == LocName(1, ".y") {
      LocInjective(0, ".y", 1, ".y");
    }
    ScopeStep(STRAY, 0);
    ScopeStep(STRAY, 1);
    StrayFirst();
    StraySecond();
  }

  lemma ScopeStep(insts: seq<Inst>, n: nat)
    requires n < |insts|
    ensures Scope(insts, 0) == 0
    ensures Scope(insts, n + 1) == Scope(insts, n) + (if OpensScope(insts[n]) then 1 else 0)
  {
  }

  function StrayOut(refs: seq<string>): seq<Inst> {
    [Inst(Some(LocName(0, ".y")), false, []), Inst(Some("__loc_x"), false, refs),
     Inst(Some(LocName(1, ".y")), false, [])]
  }

  const STRAY_ALIASES: seq<Alias> := [Alias(0, ".y", LocName(0, ".y")), Alias(1, ".y", LocName(1, ".y"))]

  lemma StrayFirst()
    ensures FirstPass(STRAY, 3) == Some(First(STRAY_ALIASES, [], 1, StrayOut([".y"])))
  {
    ShortNames();
    hide LocName;
    var a, b := Alias(0, ".y", LocName(0, ".y")), Alias(1, ".y", LocName(1, ".y"));
    var st0 := First([], [], 0, []);
    var st1 := First([] + [a], [], 0, [] + [STRAY[0].(lbl := Some(LocName(0, ".y")))]);
    assert FirstPass(STRAY, 0) == Some(st0);
    assert Define(STRAY[0], 0, st0) == Some(st1);
    assert FirstPass(STRAY, 1) == Some(st1);
    var st2 := st1.(scope := 1, out := st1.out + [STRAY[1]]);
    assert Define(STRAY[1], 1, st1) == Some(st2);
    assert FirstPass(STRAY, 2) == Some(st2);
    assert [] + [a] == [a] && [a][1..] == [];
    assert Find([a], 1, ".y") == Find([], 1, ".y") == None;
    var st3 := First([a] + [b], [], 1, st2.out + [STRAY[2].(lbl := Some(LocName(1, ".y")))]);
    assert Define(STRAY[2], 2, st2) == Some(st3);
    assert st3.aliases == STRAY_ALIASES && st3.out == StrayOut([".y"]);
  }

  lemma ShortNames()
    ensures |LocName(0, ".y")| < Lexing.MAX_LABEL && |LocName(1, ".y")| < Lexing.MAX_LABEL
  {
    assert Dec(0) == [Digit(0)] && Dec(1) == [Digit(1)];
  }

  lemma StraySecond()
    ensures var r := SecondPass(StrayOut([".y"]), 3, STRAY_ALIASES, []);
      r.Some? && r.value.out == StrayOut([LocName(0, ".y")])
  {
    var out := StrayOut([".y"]);
    assert IsReserved("__loc_x") && IsReserved(LocName(0, ".y")) && IsReserved(LocName(1, ".y"));
    hide LocName, IsReserved;
    var st0 := Second(STRAY_ALIASES, 0, []);
    var st1 := Second(STRAY_ALIASES, 0, [] + [out[0]]);
    assert SecondPass(out, 0, STRAY_ALIASES, []) == Some(st0);
    assert NormalizeAll([], 0, 0, 0, STRAY_ALIASES, []) == Some(([], STRAY_ALIASES));
    assert out[0].(refs := []) == out[0] && Refer(out[0], 0, st0, []) == Some(st1);
    assert SecondPass(out, 1, STRAY_ALIASES, []) == Some(st1);
    var names := [] + [LocName(0, ".y")];
    assert NormalizeAll([".y"], 0, 0, 1, STRAY_ALIASES, []) == Some(([], STRAY_ALIASES));
    assert Normalize(".y", 0, 1, STRAY_ALIASES, []) == Some((LocName(0, ".y"), STRAY_ALIASES));
    assert NormalizeAll([".y"], 1, 0, 1, STRAY_ALIASES, []) == Some((names, STRAY_ALIASES));
    var st2 := Second(STRAY_ALIASES, 0, st1.out + [out[1].(refs := names)]);
    assert Refer(out[1], 1, st1, []) == Some(st2);
    assert SecondPass(out, 2, STRAY_ALIASES, []) == Some(st2);
    var st3 := Second(STRAY_ALIASES, 0, st2.out + [out[2]]);
    assert NormalizeAll([], 0, 0, 2, STRAY_ALIASES, []) == Some(([], STRAY_ALIASES));
    assert out[2].(refs := []) == out[2] && Refer(out[2], 2, st2, []) == Some(st3);
    assert names == [LocName(0, ".y")] && StrayOut(names)[1] == out[1].(refs := names);
    assert st3.out == StrayOut(names);
  }

  /** No label of the user's starts like a canonical name. */
  ghost predicate Unreserved(insts: seq<Inst>) {
    forall j :: 0 <= j < |insts| && insts[j].lbl.Some? ==> !IsReserved(insts[j].lbl.value)
  }

  /** Two places share a scope when no label between them opens one: equ, @@ and local labels do not. */
  lemma {:induction false} SameScope(insts: seq<Inst>, a: nat, b: nat)
    requires a <= b <= |insts|
    ensures Scope(insts, a) <= Scope(insts, b)
    ensures Scope(insts, a) == Scope(insts, b)
      <==> forall k :: a <= k < b && insts[k].lbl.Some? ==>
             var name := insts[k].lbl.value;
             insts[k].isEqu || name == "@@" || (|name| > 1 && name[0] == '.')
    decreases b
  {
    if a < b {
      SameScope(insts, a, b - 1);
    }
  }

  /** Every other name stays as it is, labels and references alike. */
  lemma OthersKept(insts: seq<Inst>, i: nat)
    requires Canonical(insts).Some? && i < |insts|
    ensures var out := Canonical(insts).value;
      && |out| == |insts| && |out[i].refs| == |insts[i].refs|
      && (insts[i].lbl.None?
          || !(insts[i].lbl.value == "@@" || (|insts[i].lbl.value| > 1 && insts[i].lbl.value[0] == '.'))
          ==> out[i].lbl == insts[i].lbl)
      && forall r :: 0 <= r < |insts[i].refs| ==>
           var name := insts[i].refs[r];
           name in FORWARD + BACKWARD || (|name| > 1 && name[0] == '.') || out[i].refs[r] == name
  {
    hide Canonical, LocName, AnonName, Scope, Mistakes, Sites, IsForward, IsBackward;
    var anons := Canonicalised(insts);
    forall r | 0 <= r < |insts[i].refs|
      ensures var name := insts[i].refs[r];
        name in FORWARD + BACKWARD || (|name| > 1 && name[0] == '.') || Canonical(insts).value[i].refs[r] == name
    {
      Directions(insts[i].refs[r]);
      assert Resolves(insts[i].refs[r], Canonical(insts).value[i].refs[r],
                      Scope(insts, i + 1) - Mistakes(insts, i + 1), i, anons);
    }
  }

  /** The definitions a .x reference reaches are those of .x in its own scope, and there is at most one. */
  lemma LocalTarget(insts: seq<Inst>, i: nat, r: nat, j: nat)
    requires Canonical(insts).Some? && Unreserved(insts)
    requires i < |insts| && r < |insts[i].refs| && j < |insts|
    requires |insts[i].refs[r]| > 1 && insts[i].refs[r][0] == '.'
    ensures var out := Canonical(insts).value;
      && |out| == |insts| && |out[i].refs| == |insts[i].refs|
      && (out[j].lbl == Some(out[i].refs[r])
          <==> insts[j].lbl == Some(insts[i].refs[r]) && Scope(insts, j) == Scope(insts, i + 1))
  {
    hide Canonical, LocName, AnonName, Scope, Mistakes, Listed, Sites;
    var anons := Canonicalised(insts);
    LocalReference(insts, i, r);
    var name, s := insts[i].refs[r], Scope(insts, i + 1);
    NamesApart(s, name, Sites(insts, j));
    if insts[j].lbl.Some? && IsLocal(insts[j].lbl.value) {
      if LocName(Scope(insts, j), insts[j].lbl.value) == LocName(s, name) {
        LocInjective(Scope(insts, j), insts[j].lbl.value, s, name);
      }
    }
  }

  const BACKWARD: set<string> := {"@b", "@B"}
  const FORWARD: set<string> := {"@f", "@F"}

  lemma Directions(name: string)
    ensures IsBackward(name) <==> name in BACKWARD
    ensures IsForward(name) <==> name in FORWARD
  {
    if |name| == 2 {
      assert name == [name[0], name[1]];
      var l := Lexing.Lower(name);
      assert l == [Lexing.ToLower(name[0]), Lexing.ToLower(name[1])];
    }
  }

  /** @B and @F resolve to the nearest @@ strictly before and strictly behind the reference. */
  lemma AnonymousTarget(insts: seq<Inst>, i: nat, r: nat) returns (s: nat)
    requires Canonical(insts).Some? && Unreserved(insts)
    requires i < |insts| && r < |insts[i].refs| && insts[i].refs[r] in BACKWARD + FORWARD
    ensures s < |insts| && insts[s].lbl == Some("@@")
    ensures if insts[i].refs[r] in FORWARD then i < s && forall j :: i < j < s ==> insts[j].lbl != Some("@@")
      else s < i && forall j :: s < j < i ==> insts[j].lbl != Some("@@")
    ensures var out := Canonical(insts).value;
      && |out| == |insts| && |out[i].refs| == |insts[i].refs|
      && forall j :: 0 <= j < |insts| ==> (out[j].lbl == Some(out[i].refs[r]) <==> j == s)
  {
    hide Canonical, LocName, AnonName, Scope, Mistakes, Sites, IsForward, IsBackward, Lexing.Lower;
    var anons := Canonicalised(insts);
    var name := insts[i].refs[r];
    Directions(name);
    assert Resolves(name, Canonical(insts).value[i].refs[r], Scope(insts, i + 1) - Mistakes(insts, i + 1), i, anons);
    NotLocal(name);
    var k: nat;
    if IsForward(name) {
      NearestAfter(insts, anons, i);
      k := FirstAfter(anons, i);
    } else {
      NearestBefore(insts, anons, i);
      k := LastBefore(anons, i) - 1;
    }
    s := anons[k].index;
    var out := Canonical(insts).value;
    forall j | 0 <= j < |insts|
      ensures out[j].lbl == Some(AnonName(k)) <==> j == s
    {
      if insts[j].lbl.Some? {
        NamesApart(Scope(insts, j), if IsLocal(insts[j].lbl.value) then insts[j].lbl.value else ".x", k);
        if IsSite(insts[j]) {
          SiteListed(insts, anons, j);
          if AnonName(Sites(insts, j)) == AnonName(k) {
            AnonInjective(Sites(insts, j), k);
          }
        }
      }
    }
  }

  lemma NotLocal(name: string)
    requires IsForward(name) || IsBackward(name)
    ensures !IsLocal(name)
  {
    assert name[0] == '@' by {
      assert Lexing.Lower(name)[0] == '@';
    }
  }

  // ---- the passes as they run ----

  // The local alias array and its count.
  class AliasTable {
    const entries: array<Alias>
    var count: nat

    ghost predicate Valid()
      reads this
    {
      entries.Length == MAX_ALIASES && count <= MAX_ALIASES
    }

    ghost function Contents(): seq<Alias>
      requires Valid()
      reads this, entries
    {
      entries[..count]
    }

    constructor ()
      ensures Valid() && Contents() == [] && fresh(entries)
    {
      entries := new Alias[MAX_ALIASES](_ => Alias(0, "", ""));
      count := 0;
    }

    /** lookup_local_alias */
    method Lookup(scope: nat, name: string) returns (r: Option<string>)
      requires Valid()
      ensures r == Find(Contents(), scope, name)
    {
      ghost var all := Contents();
      for i := 0 to count
        invariant Find(all, scope, name) == Find(all[i..], scope, name)
      {
        assert all[i..][1..] == all[i + 1..];
        if entries[i].scope == scope && entries[i].name == name {
          return Some(entries[i].canonical);
        }
      }
      return None;
    }

    /** get_or_create_local_alias */
    method GetOrCreate(scope: nat, name: string) returns (r: Option<string>)
      requires Valid() && IsLocal(name)
      modifies this, entries
      ensures Valid()
      ensures match Create(old(Contents()), scope, name)
        case None => r == None && Contents() == old(Contents())
        case Some(created) => r == Some(created.0) && Contents() == created.1
    {
      hide LocName;
      r := Lookup(scope, name);
      if r.Some? {
        return;
      }
      if count >= MAX_ALIASES {
        return None;
      }
      var canonical := LocName(scope, name);
      if |canonical| >= Lexing.MAX_LABEL {
        return None;
      }
      entries[count] := Alias(scope, name, canonical);
      count := count + 1;
      assert Contents() == old(Contents()) + [Alias(scope, name, canonical)];
      return Some(canonical);
    }

    /** normalize_label_reference; the anonymous definitions are searched from the front. */
    method NormalizeReference(name: string, scope: nat, i: nat, anons: array<Anon>, anonCount: nat)
      returns (r: Option<string>)
      requires Valid() && anonCount <= anons.Length
      modifies this, entries
      ensures Valid()
      ensures match Normalize(name, scope, i, old(Contents()), old(anons[..anonCount]))
        case None => r == None
        case Some(known) => r == Some(known.0) && Contents() == known.1
    {
      hide Create, IsLocal, IsForward, IsBackward;
      ghost var list := anons[..anonCount];
      if IsLocal(name) {
        r := GetOrCreate(scope, name);
      } else if IsForward(name) {
        var k := 0;
        while k < anonCount && anons[k].index <= i
          invariant k <= anonCount && forall j :: 0 <= j < k ==> list[j].index <= i
        {
          k := k + 1;
        }
        AfterIs(list, i, k);
        r := if k == anonCount then None else Some(anons[k].canonical);
      } else if IsBackward(name) {
        var chosen: int := -1;
        for k := 0 to anonCount
          invariant -1 <= chosen < k
          invariant chosen >= 0 ==> list[chosen].index < i
          invariant forall j :: chosen < j < k ==> list[j].index >= i
        {
          if anons[k].index < i {
            chosen := k;
          }
        }
        BeforeIs(list, i, chosen + 1);
        r := if chosen < 0 then None else Some(anons[chosen].canonical);
      } else {
        r := Some(name);
      }
    }
  }

  lemma AfterIs(anons: seq<Anon>, i: nat, k: nat)
    requires k <= |anons| && (k < |anons| ==> anons[k].index > i) && forall j :: 0 <= j < k ==> anons[j].index <= i
    ensures FirstAfter(anons, i) == k
  {
  }

  lemma BeforeIs(anons: seq<Anon>, i: nat, k: nat)
    requires k <= |anons| && (k > 0 ==> anons[k - 1].index < i) && forall j :: k <= j < |anons| ==> anons[j].index >= i
    ensures LastBefore(anons, i) == k
  {
  }

  // The anonymous definitions collected so far, and the scope number.
  class Definitions {
    const anons: array<Anon>
    var anonCount: nat
    var scope: nat

    ghost predicate Valid()
      reads this
    {
      anons.Length == MAX_ALIASES && anonCount <= MAX_ALIASES
    }

    ghost function Sofar(): seq<Anon>
      requires Valid()
      reads this, anons
    {
      anons[..anonCount]
    }

    constructor ()
      ensures Valid() && Sofar() == [] && scope == 0 && fresh(anons)
    {
      anons := new Anon[MAX_ALIASES](_ => Anon(0, ""));
      anonCount, scope := 0, 0;
    }

    /** One round of the first pass: the instruction with its definition renamed, or a failure. */
    method DefineLabel(inst: Inst, i: nat, table: AliasTable, ghost out: seq<Inst>) returns (r: Option<Inst>)
      requires Valid() && table.Valid()
      modifies this, anons, table, table.entries
      ensures Valid() && table.Valid()
      ensures match Define(inst, i, First(old(table.Contents()), old(Sofar()), old(scope), out))
        case None => r == None
        case Some(st) => r.Some? && st == First(table.Contents(), Sofar(), scope, out + [r.value])
    {
      hide Create, LocName, AnonName, Find, IsLocal;
      if inst.lbl.None? {
        return Some(inst);
      }
      var lbl := inst.lbl.value;
      if IsAnonymous(lbl) {
        if anonCount >= MAX_ALIASES {
          return None;
        }
        var name := AnonName(anonCount);
        anons[anonCount] := Anon(i, name);
        anonCount := anonCount + 1;
        assert Sofar() == old(Sofar()) + [Anon(i, name)];
        return Some(inst.(lbl := Some(name)));
      }
      if IsLocal(lbl) {
        var known := table.Lookup(scope, lbl);
        if known.Some? {
          return None;
        }
        var name := table.GetOrCreate(scope, lbl);
        if name.None? {
          return None;
        }
        return Some(inst.(lbl := name));
      }
      if !inst.isEqu {
        scope := scope + 1;
      }
      return Some(inst);
    }
  }

  /** canonicalize_symbol_labels: the array is rewritten in place, definitions first, then references. */
  method CanonicalizeSymbolLabels(insts: array<Inst>) returns (ok: bool)
    modifies insts
    ensures ok == Canonical(old(insts[..])).Some?
    ensures ok ==> insts[..] == Canonical(old(insts[..])).value
  {
    hide Define, FirstPass, SecondPass;
    ghost var source := insts[..];
    var table := new AliasTable();
    var defs := new Definitions();
    FirstStart(source);
    assert insts[..0] == [];
    for i := 0 to insts.Length
      invariant table.Valid() && defs.Valid() && fresh(table) && fresh(table.entries) && fresh(defs)
        && fresh(defs.anons)
      invariant FirstPass(source, i) == Some(First(table.Contents(), defs.Sofar(), defs.scope, insts[..i]))
      invariant insts[i..] == source[i..]
    {
      ghost var before := insts[..i];
      assert insts[i] == source[i];
      FirstNext(source, i, First(table.Contents(), defs.Sofar(), defs.scope, before));
      var inst := defs.DefineLabel(insts[i], i, table, before);
      if inst.None? {
        FirstFails(source, i);
        return false;
      }
      insts[i] := inst.value;
      assert insts[..i + 1] == before + [inst.value];
    }
    assert insts[..insts.Length] == insts[..];
    ok := Rewrite(insts, table, defs.anons, defs.anonCount);
  }

  lemma FirstStart(source: seq<Inst>)
    ensures FirstPass(source, 0) == Some(First([], [], 0, []))
  {
  }

  lemma FirstNext(source: seq<Inst>, i: nat, st: First)
    requires i < |source| && FirstPass(source, i) == Some(st)
    ensures FirstPass(source, i + 1) == Define(source[i], i, st)
  {
    hide Define;
  }

  lemma {:induction false} FirstFails(source: seq<Inst>, i: nat)
    requires i < |source| && FirstPass(source, i + 1).None?
    ensures Canonical(source).None?
  {
    if FirstPass(source, |source|).Some? {
      FirstPrefix(source, i + 1, |source|);
    }
  }

  lemma SecondNext(source: seq<Inst>, i: nat, aliases: seq<Alias>, anons: seq<Anon>)
    requires i < |source| && SecondPass(source, i, aliases, anons).Some?
    ensures SecondPass(source, i + 1, aliases, anons)
         == Refer(source[i], i, SecondPass(source, i, aliases, anons).value, anons)
  {
    hide Refer;
  }

  lemma {:induction false} SecondFails(source: seq<Inst>, i: nat, n: nat, aliases: seq<Alias>, anons: seq<Anon>)
    requires i <= n <= |source| && SecondPass(source, i, aliases, anons).None?
    ensures SecondPass(source, n, aliases, anons).None?
    decreases n
  {
    hide Refer;
    if i < n {
      SecondFails(source, i, n - 1, aliases, anons);
    }
  }

  lemma NormalizeNone(refs: seq<string>, scope: nat, i: nat, aliases: seq<Alias>, anons: seq<Anon>)
    ensures NormalizeAll(refs, 0, scope, i, aliases, anons) == Some(([], aliases))
  {
  }

  lemma NormalizeNext(refs: seq<string>, k: nat, scope: nat, i: nat, aliases: seq<Alias>, anons: seq<Anon>)
    requires k < |refs| && NormalizeAll(refs, k, scope, i, aliases, anons).Some?
    ensures var (names, known) := NormalizeAll(refs, k, scope, i, aliases, anons).value;
      NormalizeAll(refs, k + 1, scope, i, aliases, anons)
      == match Normalize(refs[k], scope, i, known, anons)
         case None => None
         case Some(r) => Some((names + [r.0], r.1))
  {
    hide Normalize;
  }

  lemma {:induction false} NormalizeFails(refs: seq<string>, k: nat, n: nat, scope: nat, i: nat, aliases: seq<Alias>,
                                          anons: seq<Anon>)
    requires k <= n <= |refs| && NormalizeAll(refs, k, scope, i, aliases, anons).None?
    ensures NormalizeAll(refs, n, scope, i, aliases, anons).None?
    decreases n
  {
    hide Normalize;
    if k < n {
      NormalizeFails(refs, k, n - 1, scope, i, aliases, anons);
    }
  }

  /** The second pass over the array. */
  method Rewrite(insts: array<Inst>, table: AliasTable, anons: array<Anon>, anonCount: nat) returns (ok: bool)
    requires table.Valid() && anonCount <= anons.Length
    modifies insts, table, table.entries
    ensures match SecondPass(old(insts[..]), insts.Length, old(table.Contents()), old(anons[..anonCount]))
      case None => !ok
      case Some(st) => ok && insts[..] == st.out
  {
    hide Create, Normalize, Recounted, NormalizeAll;
    ghost var source, list, aliases := insts[..], anons[..anonCount], table.Contents();
    var scope := 0;
    for i := 0 to insts.Length
      invariant table.Valid() && anons[..anonCount] == list
      invariant SecondPass(source, i, aliases, list) == Some(Second(table.Contents(), scope, insts[..i]))
      invariant insts[i..] == source[i..]
    {
      var inst := insts[i];
      ghost var known, before := table.Contents(), insts[..i];
      assert inst == source[i];
      SecondNext(source, i, aliases, list);
      if Recounted(inst) {
        scope := scope + 1;
      }
      NormalizeNone(inst.refs, scope, i, known, list);
      assert insts[i].refs[..0] == [];
      for k := 0 to |inst.refs|
        invariant table.Valid() && anons[..anonCount] == list
        invariant insts[..i] == before && insts[i..][1..] == source[i..][1..]
        invariant insts[i] == inst.(refs := insts[i].refs) && |insts[i].refs| == |inst.refs|
        invariant insts[i].refs[k..] == inst.refs[k..]
        invariant NormalizeAll(inst.refs, k, scope, i, known, list) == Some((insts[i].refs[..k], table.Contents()))
      {
        var refs := insts[i].refs;
        NormalizeNext(inst.refs, k, scope, i, known, list);
        var name := table.NormalizeReference(refs[k], scope, i, anons, anonCount);
        if name.None? {
          NormalizeFails(inst.refs, k + 1, |inst.refs|, scope, i, known, list);
          SecondFails(source, i + 1, |source|, aliases, list);
          return false;
        }
        insts[i] := inst.(refs := refs[k := name.value]);
        assert refs[k := name.value][..k + 1] == refs[..k] + [name.value];
      }
      assert insts[..i + 1] == before + [insts[i]];
      assert insts[i].refs[..|inst.refs|] == insts[i].refs;
    }
    assert insts[..insts.Length] == insts[..];
    return true;
  }
}
