// The symbol table: an array for iteration and a chained hash table for lookup, kept in agreement.

module Symbols {
  import opened Bytes
  import opened Operands
  import opened Lexing

  const MAX_SYMBOLS: nat := 4096
  const HASH_TABLE_SIZE: nat := 1024

  // What both indexes know about a name. Sections: 0 text, 1 data, -1 constant.
  datatype Sym = Sym(address: int, section: int, isExternal: bool)

  datatype Entry = Entry(name: string, sym: Sym, isResolved: bool, isGlobal: bool)

  // ---- FNV-1a ----

  function XorByte(h: nat, b: byte): (r: nat)
    requires h < TWO32
    ensures r < TWO32
  {
    h / 256 * 256 + (((h % 256) as bv8 ^ (b as bv8)) as int)
  }

  function HashFrom(h: nat, s: string): (r: nat)
    requires h < TWO32
    ensures r < TWO32
    decreases |s|
  {
    if s == [] then h else HashFrom(XorByte(h, s[0] as int % 256) * 16777619 % TWO32, s[1..])
  }

  /** fnv1a_hash */
  function Hash(s: string): (r: nat)
    ensures r < TWO32
  {
    HashFrom(2166136261, s)
  }

  function Slot(name: string): (k: nat)
    ensures k < HASH_TABLE_SIZE
  {
    Hash(name) % HASH_TABLE_SIZE
  }

  /** strncpy into a label field */
  function Stored(name: string): string { Clip(name, MAX_LABEL) }

  /** The position of the first entry called name. */
  function Find(es: seq<Entry>, name: string): (r: Option<nat>)
    ensures r.Some? ==> r.value < |es| && es[r.value].name == name
    ensures r.Some? ==> forall j :: 0 <= j < r.value ==> es[j].name != name
    ensures r.None? ==> forall j :: 0 <= j < |es| ==> es[j].name != name
  {
    if es == [] then None
    else if es[0].name == name then Some(0)
    else
      var r := Find(es[1..], name);
      if r.None? then None else Some(r.value + 1)
  }

  predicate DistinctNames(es: seq<Entry>) {
    forall i, j :: 0 <= i < j < |es| ==> es[i].name != es[j].name
  }

  /** What a name is known as. */
  function Known(es: seq<Entry>, name: string): Option<Sym> {
    var k := Find(es, name);
    if k.None? then None else Some(es[k.value].sym)
  }

  function Names(es: seq<Entry>): set<string> { set k | 0 <= k < |es| :: es[k].name }

  lemma FindAt(es: seq<Entry>, k: nat)
    requires k < |es| && forall j :: 0 <= j < k ==> es[j].name != es[k].name
    ensures Find(es, es[k].name) == Some(k)
  {
  }

  /** A new entry at the front of a chain hides what was behind it under its name, and nothing else. */
  lemma KnownPrepend(e: Entry, es: seq<Entry>, name: string)
    ensures Known([e] + es, name) == if e.name == name then Some(e.sym) else Known(es, name)
  {
    assert ([e] + es)[1..] == es;
  }

  /** A new entry at the end of the array is seen only when its name is new. */
  lemma KnownAppend(es: seq<Entry>, e: Entry, name: string)
    ensures Known(es + [e], name)
         == if Known(es, name).Some? then Known(es, name) else if e.name == name then Some(e.sym) else None
  {
    var k := Find(es, name);
    if k.Some? {
      FindAt(es + [e], k.value);
    } else if e.name == name {
      FindAt(es + [e], |es|);
    }
  }

  /** Replacing the first entry of its name changes what that name is known as, and nothing else. */
  lemma KnownReplace(es: seq<Entry>, k: nat, e: Entry, name: string)
    requires Find(es, e.name) == Some(k)
    ensures Known(es[k := e], name) == if name == e.name then Some(e.sym) else Known(es, name)
  {
    var us := es[k := e];
    if name == e.name {
      FindAt(us, k);
    } else {
      var j := Find(es, name);
      if j.Some? {
        FindAt(us, j.value);
      }
    }
  }

  /** Each name once, in the bucket its hash selects, and both indexes saying the same of every name. */
  ghost predicate Consistent(symbols: seq<Entry>, buckets: seq<seq<Entry>>) {
    && |buckets| == HASH_TABLE_SIZE
    && |symbols| <= MAX_SYMBOLS
    && DistinctNames(symbols)
    && (forall b :: 0 <= b < |buckets| ==> ChainOf(b, buckets[b]))
    && (forall name :: Known(symbols, name) == Known(buckets[Slot(name)], name))
    && (forall k :: 0 <= k < |symbols| ==> |symbols[k].name| < MAX_LABEL)
  }

  /** A chain holds resolved entries of its own slot, each name once. */
  ghost predicate ChainOf(b: nat, chain: seq<Entry>) {
    DistinctNames(chain) && forall k :: 0 <= k < |chain| ==> Slot(chain[k].name) == b && chain[k].isResolved
  }

  /** An array of entries as one map. */
  ghost function AsMap(es: seq<Entry>): map<string, Sym> {
    map name | name in Names(es) && Known(es, name).Some? :: Known(es, name).value
  }

  lemma AsMapKnown(es: seq<Entry>, name: string)
    ensures name in AsMap(es) <==> Known(es, name).Some?
    ensures name in AsMap(es) ==> Known(es, name) == Some(AsMap(es)[name])
  {
  }

  lemma AsMapEqual(es: seq<Entry>, m: map<string, Sym>)
    requires forall name :: Known(es, name) == if name in m then Some(m[name]) else None
    ensures AsMap(es) == m
  {
    forall name
      ensures name in AsMap(es) <==> name in m
      ensures name in m ==> AsMap(es)[name] == m[name]
    {
      AsMapKnown(es, name);
    }
  }

  /** Appending to the array and prepending to the chain keeps the two indexes in agreement. */
  lemma InsertKeeps(symbols: seq<Entry>, buckets: seq<seq<Entry>>, e: Entry)
    requires Consistent(symbols, buckets) && |symbols| < MAX_SYMBOLS
    requires Known(symbols, e.name).None? && |e.name| < MAX_LABEL && e.isResolved
    ensures var b := Slot(e.name);
      && Consistent(symbols + [e], buckets[b := [e] + buckets[b]])
      && AsMap(symbols + [e]) == AsMap(symbols)[e.name := e.sym]
  {
    hide Hash, Slot, Find;
    var b := Slot(e.name);
    var us, bs := symbols + [e], buckets[b := [e] + buckets[b]];
    assert ChainOf(b, buckets[b]);
    FindNone(symbols, e.name);
    FindNone(buckets[b], e.name);
    assert ChainOf(b, bs[b]);
    forall name
      ensures Known(us, name) == Known(bs[Slot(name)], name)
      ensures Known(us, name) == if name in AsMap(symbols)[e.name := e.sym]
        then Some(AsMap(symbols)[e.name := e.sym][name]) else None
    {
      AsMapKnown(symbols, name);
      KnownAppend(symbols, e, name);
      KnownPrepend(e, buckets[b], name);
    }
    AsMapEqual(us, AsMap(symbols)[e.name := e.sym]);
  }

  lemma FindNone(es: seq<Entry>, name: string)
    requires Known(es, name).None?
    ensures forall j :: 0 <= j < |es| ==> es[j].name != name
  {
  }

  /** Overwriting a name's entry in both indexes keeps them in agreement. */
  lemma ReplaceKeeps(symbols: seq<Entry>, buckets: seq<seq<Entry>>, k: nat, j: nat, e: Entry, e': Entry)
    requires Consistent(symbols, buckets)
    requires e.name == e'.name && e.sym == e'.sym && e'.isResolved
    requires Find(symbols, e.name) == Some(k) && Find(buckets[Slot(e.name)], e.name) == Some(j)
    ensures var b := Slot(e.name);
      && Consistent(symbols[k := e], buckets[b := buckets[b][j := e']])
      && AsMap(symbols[k := e]) == AsMap(symbols)[e.name := e.sym]
  {
    hide Hash, Slot, Find, Known, Names, AsMap;
    var b := Slot(e.name);
    var us, bs := symbols[k := e], buckets[b := buckets[b][j := e']];
    assert ChainOf(b, buckets[b]);
    FindHere(symbols, e.name);
    FindHere(buckets[b], e.name);
    ChainReplace(b, buckets[b], j, e');
    forall name
      ensures Known(us, name) == Known(bs[Slot(name)], name)
      ensures Known(us, name) == if name in AsMap(symbols)[e.name := e.sym]
        then Some(AsMap(symbols)[e.name := e.sym][name]) else None
    {
      AsMapKnown(symbols, name);
      KnownReplace(symbols, k, e, name);
      KnownReplace(buckets[b], j, e', name);
    }
    AsMapEqual(us, AsMap(symbols)[e.name := e.sym]);
    DistinctReplace(symbols, k, e);
  }

  lemma DistinctReplace(es: seq<Entry>, k: nat, e: Entry)
    requires DistinctNames(es) && k < |es| && es[k].name == e.name
    ensures DistinctNames(es[k := e])
  {
  }

  lemma ChainReplace(b: nat, chain: seq<Entry>, k: nat, e: Entry)
    requires ChainOf(b, chain) && k < |chain| && chain[k].name == e.name && e.isResolved
    ensures ChainOf(b, chain[k := e])
  {
    hide Slot;
    DistinctReplace(chain, k, e);
  }

  lemma FoundInBoth(symbols: seq<Entry>, buckets: seq<seq<Entry>>, name: string)
    requires Consistent(symbols, buckets) && Find(symbols, name).Some?
    ensures |buckets| == HASH_TABLE_SIZE && Find(buckets[Slot(name)], name).Some?
    ensures symbols[Find(symbols, name).value].name == name
  {
    assert Known(symbols, name) == Known(buckets[Slot(name)], name);
  }

  /** With distinct names an entry is the one its name finds. */
  lemma OnlyAt(es: seq<Entry>, k: nat)
    requires DistinctNames(es) && k < |es|
    ensures Find(es, es[k].name) == Some(k)
    ensures es[k].name in AsMap(es) && AsMap(es)[es[k].name] == es[k].sym
    ensures forall j :: 0 <= j < |es| && es[j].name == es[k].name ==> j == k
  {
    FindAt(es, k);
    AsMapKnown(es, es[k].name);
  }

  lemma FindHere(es: seq<Entry>, name: string)
    requires Find(es, name).Some?
    ensures Find(es, name).value < |es| && es[Find(es, name).value].name == name
  {
  }

  class SymbolTable {
    var symbols: seq<Entry>
    var buckets: seq<seq<Entry>>

    ghost predicate Valid()
      reads this
    {
      Consistent(symbols, buckets)
    }

    /** The table as one map. */
    ghost function Model(): map<string, Sym>
      reads this
    {
      AsMap(symbols)
    }

    constructor ()
      ensures Valid() && Model() == map[] && fresh(this)
    {
      symbols := [];
      buckets := seq(HASH_TABLE_SIZE, _ => []);
    }

    /** fnv1a_hash */
    method ComputeHash(s: string) returns (h: nat)
      ensures h == Hash(s)
    {
      h := 2166136261;
      var k := 0;
      assert s[0..] == s;
      while k < |s|
        invariant k <= |s| && h < TWO32
        invariant HashFrom(h, s[k..]) == Hash(s)
      {
        assert s[k..][1..] == s[k + 1..];
        h := XorByte(h, s[k] as int % 256) * 16777619 % TWO32;
        k := k + 1;
      }
    }

    /** symbol_hash_lookup: the chain is walked in order; the result is its position in the chain. */
    method Lookup(name: string) returns (slot: nat, at: Option<nat>)
      requires |buckets| == HASH_TABLE_SIZE
      ensures slot == Slot(name) && at == Find(buckets[slot], name)
    {
      hide Hash;
      var h := ComputeHash(name);
      slot := h % HASH_TABLE_SIZE;
      var chain := buckets[slot];
      var k := 0;
      while k < |chain|
        invariant k <= |chain|
        invariant Find(chain, name) == match Find(chain[k..], name) case None => None case Some(j) => Some(k + j)
      {
        if chain[k].name == name {
          return slot, Some(k);
        }
        assert chain[k..][1..] == chain[k + 1..] && chain[k..][0] == chain[k];
        k := k + 1;
      }
      at := None;
    }

    /** find_symbol_entry: the linear search. */
    method FindLinear(name: string) returns (at: Option<nat>)
      ensures at == Find(symbols, name)
    {
      var k := 0;
      assert symbols[0..] == symbols;
      while k < |symbols|
        invariant k <= |symbols|
        invariant Find(symbols, name) == match Find(symbols[k..], name) case None => None case Some(j) => Some(k + j)
      {
        if symbols[k].name == name {
          return Some(k);
        }
        assert symbols[k..][1..] == symbols[k + 1..];
        k := k + 1;
      }
      at := None;
    }

    /** get_symbol_info and find_symbol_address: both indexes give this answer. */
    method Info(name: string) returns (r: Option<Sym>)
      requires Valid()
      ensures r == (if name in Model() then Some(Model()[name]) else None)
      ensures r == Known(symbols, name)
    {
      var slot, at := Lookup(name);
      r := if at.None? then None else Some(buckets[slot][at.value].sym);
      assert Known(symbols, name) == Known(buckets[Slot(name)], name);
      AsMapKnown(symbols, name);
    }

    /** symbol_hash_insert */
    method HashInsert(name: string, sym: Sym, isGlobal: bool)
      requires |buckets| == HASH_TABLE_SIZE
      modifies this`buckets
      ensures buckets == old(buckets)[Slot(name) := [Entry(Stored(name), sym, true, isGlobal)]
        + old(buckets)[Slot(name)]]
    {
      var h := ComputeHash(name);
      var slot := h % HASH_TABLE_SIZE;
      buckets := buckets[slot := [Entry(Stored(name), sym, true, isGlobal)] + buckets[slot]];
    }

    /** symbol_hash_update */
    method HashUpdate(name: string, sym: Sym, isGlobal: bool) returns (found: bool)
      requires |buckets| == HASH_TABLE_SIZE
      modifies this`buckets
      ensures var at := Find(old(buckets)[Slot(name)], name);
        && found == at.Some?
        && buckets == if found
                      then
                        var chain := old(buckets)[Slot(name)];
                        old(buckets)[Slot(name) := chain[at.value := Entry(name, sym, true, isGlobal)]]
                      else old(buckets)
    {
      var slot, at := Lookup(name);
      found := at.Some?;
      if found {
        buckets := buckets[slot := buckets[slot][at.value := Entry(name, sym, true, isGlobal)]];
      }
    }

    /**
     * add_symbol: a new name is appended to the array and put in front of its chain; a known name or a
     * full array is refused and nothing changes. Names that do not fit the label field are stored cut off.
     */
    method Add(name: string, sym: Sym, isGlobal: bool) returns (ok: bool)
      requires Valid()
      modifies this
      ensures ok <==> |old(symbols)| < MAX_SYMBOLS && name !in old(Model())
      ensures !ok ==> symbols == old(symbols) && buckets == old(buckets) && Valid()
      ensures ok && |name| < MAX_LABEL ==> Valid() && Model() == old(Model())[name := sym]
      // the symbol just added is found again exactly when its name fits
      ensures ok ==> |buckets| == HASH_TABLE_SIZE
      ensures ok ==> Known(buckets[Slot(name)], name) == if |name| < MAX_LABEL then Some(sym) else None
    {
      AsMapKnown(symbols, name);
      if |symbols| >= MAX_SYMBOLS {
        return false;
      }
      var slot, at := Lookup(name);
      if at.Some? {
        if !buckets[slot][at.value].isResolved {
          assert false;
        }
        return false;
      }
      symbols := symbols + [Entry(Stored(name), sym, true, isGlobal)];
      HashInsert(name, sym, isGlobal);
      ok := true;
      KnownPrepend(Entry(Stored(name), sym, true, isGlobal), old(buckets)[slot], name);
      if |name| < MAX_LABEL {
        InsertKeeps(old(symbols), old(buckets), Entry(name, sym, true, isGlobal));
      }
    }

    /** upsert_constant_symbol */
    method UpsertConstant(name: string, value: int) returns (ok: bool)
      requires Valid()
      modifies this
      ensures ok <==> if name in old(Model()) then !old(Model())[name].isExternal else |old(symbols)| < MAX_SYMBOLS
      ensures !ok ==> symbols == old(symbols) && buckets == old(buckets)
      ensures |name| < MAX_LABEL || !ok ==> Valid()
      ensures ok && |name| < MAX_LABEL ==> Model() == old(Model())[name := Sym(value, -1, false)]
    {
      AsMapKnown(symbols, name);
      var slot, at := Lookup(name);
      if at.Some? {
        var existing := buckets[slot][at.value];
        if existing.sym.isExternal {
          return false;
        }
        var updated := HashUpdate(name, Sym(value, -1, false), existing.isGlobal);
        if !updated {
          return false;
        }
        var k := FindLinear(name);
        if k.Some? {
          var e := Entry(name, Sym(value, -1, false), true, symbols[k.value].isGlobal);
          ReplaceKeeps(symbols, old(buckets), k.value, at.value, e,
                       Entry(name, Sym(value, -1, false), true, existing.isGlobal));
          symbols := symbols[k.value := e];
          return true;
        }
      }
      ok := Add(name, Sym(value, -1, false), false);
    }

    /** One hit of the label update: the array entry is moved, and the hash entry with it. */
    method MoveEntry(j: nat, address: int) returns (changed: bool)
      requires Valid() && j < |symbols| && Find(symbols, symbols[j].name) == Some(j)
      modifies this
      ensures Valid()
      ensures |symbols| == |old(symbols)| && symbols[j].name == old(symbols)[j].name
      ensures forall k :: 0 <= k < |symbols| && k != j ==> symbols[k] == old(symbols)[k]
      ensures changed <==> old(symbols)[j].sym.address != address
      ensures Model() == old(Model())[old(symbols)[j].name := old(symbols)[j].sym.(address := address)]
    {
      hide Find, Slot, Consistent;
      var name := symbols[j].name;
      var e := symbols[j].(sym := symbols[j].sym.(address := address), isResolved := true);
      changed := symbols[j].sym.address != address;
      FoundInBoth(symbols, buckets, name);
      symbols := symbols[j := e];
      var found := HashUpdate(name, e.sym, e.isGlobal);
      ReplaceKeeps(old(symbols), old(buckets), j, Find(old(buckets)[Slot(name)], name).value, e,
                   Entry(name, e.sym, true, e.isGlobal));
    }

    /** The label update of a text pass: every array entry of that name is moved. */
    method MoveLabel(name: string, address: int) returns (changed: bool)
      requires Valid()
      modifies this
      ensures Valid()
      ensures changed <==> name in old(Model()) && old(Model())[name].address != address
      ensures Model() == Moved(old(Model()), name, address)
    {
      hide Find, Slot, Known, Names, AsMap, ChainOf;
      changed := false;
      var j := 0;
      while j < |symbols|
        invariant j <= |symbols| == |old(symbols)|
        invariant Valid()
        invariant forall k :: j <= k < |symbols| ==> symbols[k] == old(symbols)[k]
        invariant forall k :: 0 <= k < |symbols| ==> symbols[k].name == old(symbols)[k].name
        invariant if exists k :: 0 <= k < j && old(symbols)[k].name == name
          then name in old(Model()) && (changed <==> old(Model())[name].address != address)
               && Model() == Moved(old(Model()), name, address)
          else !changed && Model() == old(Model())
      {
        if symbols[j].name == name {
          OnlyAt(old(symbols), j);
          var moved := MoveEntry(j, address);
          changed := changed || moved;
        }
        j := j + 1;
      }
      if forall k :: 0 <= k < |symbols| ==> old(symbols)[k].name != name {
        FindNew(old(symbols), name);
        AsMapKnown(old(symbols), name);
      }
    }

    /** One update. */
    method Perform(u: Update)
      requires Valid() && |u.name| < MAX_LABEL
      modifies this
      ensures Valid() && Model() == Apply(old(Model()), u)
    {
      hide AsMap, Known, Slot, Consistent;
      ModelSize(symbols, buckets);
      match u {
        case DoAdd(name, sym, isGlobal) => var ok := Add(name, sym, isGlobal);
        case DoConstant(name, value) => var ok := UpsertConstant(name, value);
        case DoMove(name, address) => var changed := MoveLabel(name, address);
      }
    }

    /** Any run of updates with names that fit: the table stays consistent and equals the run of the map. */
    method Run(updates: seq<Update>)
      requires Valid()
      requires forall u <- updates :: |u.name| < MAX_LABEL
      modifies this
      ensures Valid() && Model() == RunMap(old(Model()), updates)
    {
      hide AsMap, Consistent;
      var k := 0;
      assert updates[..0] == [];
      while k < |updates|
        invariant k <= |updates| && Valid()
        invariant Model() == RunMap(old(Model()), updates[..k])
      {
        assert updates[..k + 1][..k] == updates[..k];
        Perform(updates[k]);
        k := k + 1;
      }
      assert updates[..k] == updates;
    }
  }

  lemma ModelSize(symbols: seq<Entry>, buckets: seq<seq<Entry>>)
    requires Consistent(symbols, buckets)
    ensures |AsMap(symbols)| == |symbols|
  {
    AsMapSize(symbols);
  }

  // The table's updates, and what they mean for a plain map of at most MAX_SYMBOLS names.
  datatype Update =
    | DoAdd(name: string, sym: Sym, isGlobal: bool)
    | DoConstant(name: string, value: int)
    | DoMove(name: string, address: int)

  function Moved(m: map<string, Sym>, name: string, address: int): map<string, Sym> {
    if name in m then m[name := m[name].(address := address)] else m
  }

  function Apply(m: map<string, Sym>, u: Update): map<string, Sym> {
    match u
    case DoAdd(name, sym, _) => if name in m || |m| >= MAX_SYMBOLS then m else m[name := sym]
    case DoConstant(name, value) =>
      if (if name in m then m[name].isExternal else |m| >= MAX_SYMBOLS) then m
      else m[name := Sym(value, -1, false)]
    case DoMove(name, address) => Moved(m, name, address)
  }

  function RunMap(m: map<string, Sym>, us: seq<Update>): map<string, Sym> {
    if us == [] then m else Apply(RunMap(m, us[..|us| - 1]), us[|us| - 1])
  }

  lemma {:induction false} AsMapSize(es: seq<Entry>)
    requires DistinctNames(es)
    ensures |AsMap(es)| == |es|
  {
    if es != [] {
      var rest, e := es[..|es| - 1], es[|es| - 1];
      assert es == rest + [e];
      AsMapSize(rest);
      FindNew(rest, e.name);
      forall name
        ensures Known(es, name) == if name in AsMap(rest)[e.name := e.sym]
          then Some(AsMap(rest)[e.name := e.sym][name]) else None
      {
        KnownAppend(rest, e, name);
        AsMapKnown(rest, name);
      }
      AsMapEqual(es, AsMap(rest)[e.name := e.sym]);
      AsMapKnown(rest, e.name);
      assert AsMap(rest)[e.name := e.sym].Keys == AsMap(rest).Keys + {e.name};
    }
  }

  lemma FindNew(es: seq<Entry>, name: string)
    requires forall j :: 0 <= j < |es| ==> es[j].name != name
    ensures Known(es, name).None?
  {
  }

  // ---- what the hash and the updates are ----

  /** The published test values of FNV-1a for the empty text and "a". */
  lemma HashVectors()
    ensures Hash("") == 0x811C9DC5 && Hash("a") == 0xE40C292C
  {
    XorVector();
    hide XorByte;
    assert "a"[1..] == "";
    assert HashFrom(0xE40C292C, "") == 0xE40C292C;
    assert 0x811C9DA4 * 16777619 % TWO32 == 0xE40C292C;
  }

  lemma XorBits()
    ensures (0xC5 as bv8 ^ 0x61 as bv8) == 0xA4 as bv8
  {
  }

  lemma XorVector()
    ensures XorByte(0x811C9DC5, 0x61) == 0x811C9DA4
  {
    XorBits();
    assert 0x811C9DC5 % 256 == 0xC5 && 0x811C9DC5 / 256 * 256 == 0x811C9D00;
  }

  /** The update is about that name. */
  function Named(u: Update): string { u.name }

  /**
   * What one update makes of one name's cell: a label keeps its first definition, a constant its last value, an
   * external name is no constant, and only a known name moves.
   */
  function Cell(before: Option<Sym>, u: Update): Option<Sym> {
    match u
    case DoAdd(_, sym, _) => if before.Some? then before else Some(sym)
    case DoConstant(_, value) => if before.Some? && before.value.isExternal then before else Some(Sym(value, -1, false))
    case DoMove(_, address) => if before.Some? then Some(before.value.(address := address)) else None
  }

  /** The updates of one name alone. */
  function CellRun(us: seq<Update>, name: string): Option<Sym> {
    if us == [] then None
    else
      var before := CellRun(us[..|us| - 1], name);
      if Named(us[|us| - 1]) == name then Cell(before, us[|us| - 1]) else before
  }

  /** As long as there is room, a name holds what its own updates made of it, whatever happened to the others. */
  lemma {:induction false} NamesApart(us: seq<Update>, name: string)
    requires |us| <= MAX_SYMBOLS
    ensures |RunMap(map[], us)| <= |us|
    ensures CellRun(us, name) == if name in RunMap(map[], us) then Some(RunMap(map[], us)[name]) else None
  {
    if us != [] {
      NamesApart(us[..|us| - 1], name);
      NamesApart(us[..|us| - 1], Named(us[|us| - 1]));
    }
  }
}
