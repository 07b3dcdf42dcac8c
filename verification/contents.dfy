// What data directives put into the image: for every directive of both sections, which bytes stand where.

module Contents {
  import opened Bytes
  import opened Operands
  import opened Symbols
  import opened Assembly
  import Encoding
  import Linking
  import Listing
  import L = Layout
  import F = Fixups

  // ---- the bytes of a directive, one by one ----

  predicate Directive(b: L.Body) { b.Data? || b.Reserve? || (b.Align? && L.PowerOfTwo(ToInt32(b.n))) }

  /** How many bytes a db, dw, dd, dq, res or align directive asks for at address at. */
  function Extent(b: L.Body, at: int): nat
    requires Directive(b)
  {
    match b
    case Data(width, items) => Product(|items|, width)
    case Reserve(width, count) => if count < 0 then 0 else Product(count, width)
    case Align(n) => Gap(at, ToInt32(n))
  }

  /** From at to the next multiple of n. */
  function Gap(at: int, n: int): nat
    requires L.PowerOfTwo(n)
  {
    if at % n == 0 then 0 else n - at % n
  }

  function Product(a: nat, b: nat): nat { a * b }

  /** Byte b of v, counted from the least significant: v divided by 256 that many times, modulo 256. */
  function ByteOf(v: int, b: nat): byte
    decreases b
  {
    if b == 0 then v % 256 else ByteOf(v / 256, b - 1)
  }

  /** s reaches up to end, or is full. */
  predicate UpTo(s: seq<byte>, end: nat) { end <= |s| || |s| == L.CAPACITY }

  /** The bytes of v stand at offset o of s, least significant first, as far as the section goes. */
  ghost predicate ItemAt(s: seq<byte>, o: nat, width: nat, v: int) {
    UpTo(s, o + width) && forall p: nat :: o <= p < o + width && p < |s| ==> s[p] == ByteOf(v, p - o)
  }

  /**
   * s holds at offset start what directive body asks for at address at, as far as the section of CAPACITY
   * bytes goes: item k of a data directive k times its width behind start, least significant byte first, zeros
   * for a res directive, and the filling of the section for align.
   */
  ghost predicate Holds(s: seq<byte>, start: nat, body: L.Body, at: int, filling: byte)
    requires Directive(body)
  {
    if body.Data? then
      forall k: nat :: k < |body.items| ==> ItemAt(s, start + Product(k, body.width), body.width, body.items[k])
    else
      && UpTo(s, start + Extent(body, at))
      && forall p: nat :: start <= p < start + Extent(body, at) && p < |s| ==>
           s[p] == if body.Reserve? then 0 else filling
  }

  /** Where the directive ends: behind all its bytes, or at the end of the section. */
  function EndOf(start: nat, body: L.Body, at: int): nat
    requires Directive(body)
  {
    if start + Extent(body, at) <= L.CAPACITY then start + Extent(body, at) else L.CAPACITY
  }

  lemma {:induction false} LeByte(v: int, n: nat, b: nat)
    requires b < n
    ensures Le(v, n)[b] == ByteOf(v, b)
    decreases n
  {
    if b > 0 {
      LeByte(v / 256, n - 1, b - 1);
    }
  }

  /** The same by value: the n bytes together are v modulo 256^n. */
  lemma {:induction false} BytesTogether(v: int, n: nat)
    ensures Unsigned(seq(n, b requires 0 <= b < n => ByteOf(v, b))) == v % Pow256(n)
  {
    var s := seq(n, b requires 0 <= b < n => ByteOf(v, b));
    forall b: nat | b < n
      ensures s[b] == Le(v, n)[b]
    {
      LeByte(v, n, b);
    }
    assert s == Le(v, n);
    var q := LeLoss(v, n);
    UnsignedBound(Le(v, n));
    Remainder(v, Unsigned(Le(v, n)), q, Pow256(n));
  }

  lemma Remainder(v: int, u: int, q: int, p: int)
    requires p > 0 && 0 <= u < p && v == u + q * p
    ensures v % p == u
  {
    var r, d := v % p, v / p;
    assert v == d * p + r;
    assert u - r == (d - q) * p;
    MultipleInRange(u - r, d - q, p);
  }

  // ---- what a directive appends ----

  /** What does not fit the section is cut off at its end. */
  lemma FittingByte(before: seq<byte>, s: seq<byte>)
    requires |before| <= L.CAPACITY
    ensures var after := before + L.Fitting(s, L.CAPACITY - |before|);
      && |after| == (if |before| + |s| <= L.CAPACITY then |before| + |s| else L.CAPACITY)
      && forall q :: 0 <= q < |s| && |before| + q < |after| ==> after[|before| + q] == s[q]
  {
  }

  lemma AppendedData(before: seq<byte>, width: nat, items: seq<int>, at: int, filling: byte)
    requires |before| <= L.CAPACITY
    ensures var after := before + L.Fitting(L.Items(width, items), L.CAPACITY - |before|);
      Holds(after, |before|, L.Data(width, items), at, filling) && |after| == EndOf(|before|, L.Data(width, items), at)
  {
    hide Le, L.Items, L.Fitting, ByteOf, ItemAt, Product;
    ItemsExtent(width, items);
    FittingByte(before, L.Items(width, items));
    forall k: nat | k < |items|
      ensures ItemAt(before + L.Fitting(L.Items(width, items), L.CAPACITY - |before|), |before| + Product(k, width),
                     width, items[k])
    {
      ItemAppended(before, width, items, k);
    }
  }

  lemma ItemsExtent(width: nat, items: seq<int>)
    ensures |L.Items(width, items)| == Product(|items|, width)
  {
    hide L.Items;
    L.ItemsLength(width, items);
  }

  lemma ItemAppended(before: seq<byte>, width: nat, items: seq<int>, k: nat)
    requires |before| <= L.CAPACITY && k < |items|
    ensures ItemAt(before + L.Fitting(L.Items(width, items), L.CAPACITY - |before|), |before| + Product(k, width),
                   width, items[k])
  {
    hide Le, L.Items, L.Fitting, Product, ByteOf;
    var s, o := L.Items(width, items), Product(k, width);
    FittingByte(before, s);
    var after, at := before + L.Fitting(s, L.CAPACITY - |before|), |before| + o;
    assert o + width <= |s| by {
      LastByte(width, items, k);
    }
    forall p: nat | at <= p < at + width && p < |after|
      ensures after[p] == ByteOf(items[k], p - at)
    {
      ItemByte(width, items, k, p - at);
      var q := p - |before|;
      assert after[|before| + q] == s[q];
    }
  }

  lemma LastByte(width: nat, items: seq<int>, k: nat)
    requires k < |items|
    ensures Product(k, width) + width <= |L.Items(width, items)|
  {
    hide L.Items;
    L.ItemBytes(width, items, k);
    L.ItemsLength(width, items);
  }

  lemma ItemByte(width: nat, items: seq<int>, k: nat, b: nat)
    requires k < |items| && b < width
    ensures var q := Product(k, width) + b;
      q < |L.Items(width, items)| && L.Items(width, items)[q] == ByteOf(items[k], b)
  {
    hide Le, L.Items, ByteOf;
    L.ItemBytes(width, items, k);
    L.ItemsLength(width, items);
    LeByte(items[k], width, b);
    var s, o := L.Items(width, items), Product(k, width);
    assert s[o..o + width][b] == s[o + b];
  }

  lemma AppendedSame(before: seq<byte>, body: L.Body, at: int, filling: byte)
    requires |before| <= L.CAPACITY && Directive(body) && !body.Data?
    ensures L.DirectiveBytes(body, at, filling).Some?
    ensures var after := before + L.Fitting(L.DirectiveBytes(body, at, filling).value, L.CAPACITY - |before|);
      Holds(after, |before|, body, at, filling) && |after| == EndOf(|before|, body, at)
  {
    hide L.Fitting, L.AlignUp, L.PowerOfTwo;
    if body.Align? {
      GapToMultiple(at, ToInt32(body.n));
    }
    hide Gap;
    var s := L.DirectiveBytes(body, at, filling).value;
    var fill := if body.Reserve? then 0 else filling;
    assert |s| == Extent(body, at) && forall q :: 0 <= q < |s| ==> s[q] == fill;
    FittingByte(before, s);
    var after := before + L.Fitting(s, L.CAPACITY - |before|);
    forall p: nat | |before| <= p < |before| + |s| && p < |after|
      ensures after[p] == fill
    {
      assert after[|before| + (p - |before|)] == s[p - |before|];
    }
  }

  lemma GapToMultiple(at: int, n: int)
    requires L.PowerOfTwo(n)
    ensures n > 0 && L.AlignUp(at, n) - at == Gap(at, n)
  {
    hide L.AlignUp;
    Positive(n);
    L.AlignLeast(at, n);
    var x, q, r := L.AlignUp(at, n), at / n, at % n;
    assert at == q * n + r && 0 <= r < n;
    NextMultiple(at, n, x);
  }

  lemma Positive(n: int)
    requires L.PowerOfTwo(n)
    ensures n > 0
  {
  }

  /** A multiple of n less than n above at is determined. */
  lemma NextMultiple(at: int, n: int, x: int)
    requires n > 0 && at <= x < at + n && x % n == 0
    ensures x - at == if at % n == 0 then 0 else n - at % n
  {
    var y := if at % n == 0 then at else at + n - at % n;
    assert at == at / n * n + at % n;
    assert x == x / n * n;
    if at % n == 0 {
      assert x - y == (x / n - at / n) * n;
      MultipleInRange(x - y, x / n - at / n, n);
    } else {
      assert x - y == (x / n - at / n - 1) * n by {
        assert y == at / n * n + n;
      }
      MultipleInRange(x - y, x / n - at / n - 1, n);
    }
  }

  /** What DirectiveBytes appends is what Holds asks for. */
  lemma Appended(before: seq<byte>, body: L.Body, at: int, filling: byte)
    requires |before| <= L.CAPACITY && Directive(body)
    ensures L.DirectiveBytes(body, at, filling).Some?
    ensures var after := before + L.Fitting(L.DirectiveBytes(body, at, filling).value, L.CAPACITY - |before|);
      Holds(after, |before|, body, at, filling) && |after| == EndOf(|before|, body, at)
  {
    hide Holds, EndOf, L.Fitting, L.Items, L.AlignUp;
    if body.Data? {
      AppendedData(before, body.width, body.items, at, filling);
    } else {
      AppendedSame(before, body, at, filling);
    }
  }

  lemma StillHolds(s: seq<byte>, t: seq<byte>, start: nat, body: L.Body, at: int, filling: byte)
    requires Directive(body) && Holds(s, start, body, at, filling) && |s| <= |t| <= L.CAPACITY
    requires forall p :: start <= p < |s| ==> t[p] == s[p]
    ensures Holds(t, start, body, at, filling)
  {
    if body.Data? {
      forall k: nat | k < |body.items|
        ensures ItemAt(t, start + Product(k, body.width), body.width, body.items[k])
      {
        assert ItemAt(s, start + Product(k, body.width), body.width, body.items[k]);
      }
    }
  }

  // ---- the data section ----

  /**
   * Where statement n begins in the data section, behind a text of textSize bytes: every directive of that
   * section behind the one before it, and nothing else takes room.
   */
  function Begin(prog: seq<Statement>, n: nat, textSize: nat): nat
    requires n <= |prog|
  {
    if n == 0 then 0
    else
      var before := Begin(prog, n - 1, textSize);
      if L.DataAfter(prog, n - 1) && Directive(prog[n - 1].body) then
        EndOf(before, prog[n - 1].body, L.BASE + textSize + before)
      else before
  }

  lemma {:induction false} DataBegins(prog: seq<Statement>, n: nat, textSize: nat, symbols: map<string, Sym>)
    requires n <= |prog| && DataRun(prog, n, textSize, symbols).Some?
    ensures |DataRun(prog, n, textSize, symbols).value.data| == Begin(prog, n, textSize) <= L.CAPACITY
    decreases n
  {
    hide DataStep, EndOf, Directive, L.DataAfter;
    if n > 0 {
      DataBegins(prog, n - 1, textSize, symbols);
      DataKeeps(prog, n - 1, textSize, symbols, "");
      DataAppends(prog[n - 1], textSize, DataRun(prog, n - 1, textSize, symbols).value);
      BeginNext(prog, n - 1, textSize);
    }
    DataKeeps(prog, n, textSize, symbols, "");
  }

  lemma BeginNext(prog: seq<Statement>, n: nat, textSize: nat)
    requires n < |prog|
    ensures prog[n].body.Section? ==> !Directive(prog[n].body)
  {
  }

  /** What one round of the data pass appends. */
  lemma DataAppends(s: Statement, textSize: nat, st: DataState)
    requires DataStep(s, textSize, st).Some? && |st.data| <= L.CAPACITY
    ensures var after := DataStep(s, textSize, st).value.data; var at := L.BASE + textSize + |st.data|;
      if st.inData && Directive(s.body) then
        Holds(after, |st.data|, s.body, at, 0) && |after| == EndOf(|st.data|, s.body, at)
      else after == st.data
  {
    hide Holds, EndOf, L.Fitting, L.Items, L.AlignUp, L.PowerOfTwo;
    if st.inData && Directive(s.body) {
      Appended(st.data, s.body, L.BASE + textSize + |st.data|, 0);
    } else if st.inData && !s.body.Section? {
      NothingElse(s.body, L.BASE + textSize + |st.data|, L.CAPACITY - |st.data|);
    }
  }

  lemma NothingElse(body: L.Body, at: int, room: int)
    requires !Directive(body) && !body.Section?
    ensures body.Inst? || L.DirectiveBytes(body, at, 0) == None
    ensures L.Fitting([], room) == []
  {
  }

  /** Later rounds leave earlier data alone. */
  lemma {:induction false} DataGrows(prog: seq<Statement>, j: nat, n: nat, textSize: nat, symbols: map<string, Sym>)
    requires j <= n <= |prog| && DataRun(prog, n, textSize, symbols).Some?
    ensures DataRun(prog, j, textSize, symbols).Some?
    ensures DataRun(prog, j, textSize, symbols).value.data <= DataRun(prog, n, textSize, symbols).value.data
    decreases n
  {
    hide DataStep;
    if j < n {
      DataGrows(prog, j, n - 1, textSize, symbols);
      DataStepFacts(prog[n - 1], textSize, DataRun(prog, n - 1, textSize, symbols).value);
    }
  }

  /**
   * The data of the image: each directive of the data section stands where Begin says, byte by byte, and the
   * label of its statement, if it has one, holds the address of the first.
   */
  lemma DataContents(prog: seq<Statement>, symbols: map<string, Sym>, k: nat)
    requires Assemble(prog, symbols).Some? && k < |prog| && L.DataAfter(prog, k) && Directive(prog[k].body)
    ensures var im := Assemble(prog, symbols).value; var start := Begin(prog, k, |im.text|);
      && Holds(im.data, start, prog[k].body, L.BASE + |im.text| + start, 0)
      && |im.data| == Begin(prog, |prog|, |im.text|)
      && (DistinctData(prog) && prog[k].lbl != "" && prog[k].lbl in symbols ==>
            prog[k].lbl in im.symbols && im.symbols[prog[k].lbl].address == L.BASE + |im.text| + start)
  {
    hide DataStep, Holds, Begin, Directive, L.DataAfter, TextPasses, KeptFrom, F.Resolve, L.Text, L.Fixups, L.Run;
    hide DataRun;
    var t := TextPasses(prog, symbols).value;
    var size := |L.Text(t.st.chunks)|;
    TextsFromPass(prog, symbols);
    KeysKept(prog, t.forward, KeptFrom(prog, symbols));
    DataGrows(prog, k, |prog|, size, t.st.symbols);
    DataGrows(prog, k + 1, |prog|, size, t.st.symbols);
    DataBegins(prog, k, size, t.st.symbols);
    DataBegins(prog, |prog|, size, t.st.symbols);
    DataKeeps(prog, k, size, t.st.symbols, "");
    var st := DataRun(prog, k, size, t.st.symbols).value;
    DataNext(prog, k, size, t.st.symbols);
    DataAppends(prog[k], size, st);
    var after, all := DataRun(prog, k + 1, size, t.st.symbols).value.data,
        DataRun(prog, |prog|, size, t.st.symbols).value.data;
    StillHolds(after, all, |st.data|, prog[k].body, L.BASE + size + |st.data|, 0);
    BeginNext(prog, k, size);
    if DistinctData(prog) && prog[k].lbl != "" && prog[k].lbl in symbols {
      DataLabelAddress(prog, |prog|, size, t.st.symbols, k);
    }
  }

  lemma DataNext(prog: seq<Statement>, k: nat, textSize: nat, symbols: map<string, Sym>)
    requires k < |prog| && DataRun(prog, k, textSize, symbols).Some? && DataRun(prog, k + 1, textSize, symbols).Some?
    ensures DataRun(prog, k + 1, textSize, symbols)
         == DataStep(prog[k], textSize, DataRun(prog, k, textSize, symbols).value)
  {
    hide DataStep;
  }

  // ---- the text section ----

  /**
   * The text of the image likewise: a directive of the text section stands where the chunk of its statement
   * begins, which is the address of its label (FinalAddress), and takes exactly what it asks for.
   */
  lemma TextContents(prog: seq<Statement>, symbols: map<string, Sym>, k: nat)
    requires Assemble(prog, symbols).Some?
    requires k < |prog| && !L.DataAfter(prog, k) && Directive(prog[k].body)
    ensures var im, cs := Assemble(prog, symbols).value, TextPasses(prog, symbols).value.st.chunks;
      var n := |L.TextStatements(prog, k)|;
      && n < |cs| && cs[n].stmt == prog[k]
      && Holds(im.text, Linking.Start(cs, n), prog[k].body, L.BASE + Linking.Start(cs, n), 0x90)
      && Linking.Start(cs, n + 1) == EndOf(Linking.Start(cs, n), prog[k].body, L.BASE + Linking.Start(cs, n))
      && |im.text| == |L.Text(cs)|
  {
    hide L.Run, L.Text, L.Fixups, L.EncodedAt, F.Resolve, TextPasses, KeptFrom, DataRun, L.TextStatements, L.DataAfter;
    hide Holds, EndOf, Directive, L.Placed, Linking.Linkable, Linking.LinkedBytes;
    var t, im := TextPasses(prog, symbols).value, Assemble(prog, symbols).value;
    var from, cs, n := KeptFrom(prog, symbols), t.st.chunks, |L.TextStatements(prog, k)|;
    TextsFromPass(prog, symbols);
    NotSection(prog[k].body);
    Listing.ChunkOf(prog, t.forward, from, k);
    L.RunStatements(prog, k, t.forward, from);
    L.RunPlaced(prog, |prog|, t.forward, from);
    Linking.PlacedAt(cs, n);
    L.PlacedBound(cs);
    StartInside(cs, n);
    var believed := L.Addresses(L.Run(prog, k + 1, t.forward, from).value.symbols);
    ChunkAppends(cs, n, Encoding.Env(cs[n].at, believed, t.forward));
    Linking.ChunkLinked(cs, L.Addresses(im.symbols), im.text, n);
    PlainLinked(cs[n], L.Addresses(im.symbols));
    L.TextSplit(cs, n);
    L.TextSplit(cs, n + 1);
    var before, e := L.Text(cs[..n]), cs[n].e.bytes;
    forall p | |before| <= p < |before + e|
      ensures im.text[p] == (before + e)[p]
    {
      AtByte(im.text, |before|, e, p - |before|);
    }
    StillHolds(before + e, im.text, |before|, prog[k].body, cs[n].at, 0x90);
  }

  lemma NotSection(b: L.Body)
    requires Directive(b)
    ensures !b.Section? && !b.Inst?
  {
  }

  /** The chunk of a directive, behind the text before it. */
  lemma ChunkAppends(cs: seq<L.Chunk>, n: nat, env: Encoding.Env)
    requires n < |cs| && |L.Text(cs[..n])| <= L.CAPACITY && Directive(cs[n].stmt.body) && env.at == cs[n].at
    requires L.EncodedAt(cs, n, env.forward, env.addresses)
    ensures cs[n].e.field == None
    ensures var before := L.Text(cs[..n]); var after := before + cs[n].e.bytes;
      && Holds(after, |before|, cs[n].stmt.body, env.at, 0x90)
      && |after| == EndOf(|before|, cs[n].stmt.body, env.at)
  {
    hide L.Text, Holds, EndOf, L.Fitting, L.DirectiveBytes;
    Appended(L.Text(cs[..n]), cs[n].stmt.body, env.at, 0x90);
  }

  lemma PlainLinked(c: L.Chunk, addresses: map<string, int>)
    requires c.e.field == None && Linking.Linkable(c, addresses)
    ensures Linking.LinkedBytes(c, addresses) == c.e.bytes
  {
  }
}
