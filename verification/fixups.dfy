// resolve_fixups: each recorded field is replaced by target plus addend, or by the distance from
// the end of the field plus addend. Fields do not touch each other, so the order does not matter.

module Fixups {
  import opened Bytes
  import opened Operands
  import L = Layout

  type Fixup = L.Fixup

  function Offset(f: Fixup): int { f.location - L.BASE }

  predicate Inside(f: Fixup, n: nat) { 0 <= Offset(f) && Offset(f) + f.size <= n }

  /** The bytes of the field of f. */
  function Slice(text: seq<byte>, f: Fixup): (s: seq<byte>)
    requires Inside(f, |text|)
    ensures |s| == f.size
  {
    text[Offset(f)..Offset(f) + f.size]
  }

  /** What the field is to hold: whatever was emitted there counts as an addend. */
  function Value(f: Fixup, target: int, before: seq<byte>): int {
    (if f.relative then target - (f.location + f.size) else target)
    + (if f.size == 1 || f.size == 4 || f.size == 8 then Signed(before) else 0)
  }

  predicate InRange(f: Fixup, v: int) {
    (f.size == 1 ==> FitsInt8(v)) && (f.size == 4 ==> FitsInt32(v))
  }

  function Patch(text: seq<byte>, at: nat, s: seq<byte>): (r: seq<byte>)
    requires at + |s| <= |text|
    ensures |r| == |text|
    ensures forall k :: 0 <= k < |text| ==> r[k] == if at <= k < at + |s| then s[k - at] else text[k]
  {
    text[..at] + s + text[at + |s|..]
  }

  /** One round of resolve_fixups, None on each of its errors. */
  function ResolveOne(text: seq<byte>, f: Fixup, addresses: map<string, int>): (r: Option<seq<byte>>)
    ensures r.Some? ==> |r.value| == |text|
  {
    if f.lbl !in addresses || !Inside(f, |text|) then None
    else
      var v := Value(f, addresses[f.lbl], Slice(text, f));
      if !InRange(f, v) then None
      else if f.size == 1 || f.size == 4 || f.size == 8 then Some(Patch(text, Offset(f), Le(v, f.size)))
      else Some(text)
  }

  /** resolve_fixups over the first fixups of the list. */
  function Resolve(text: seq<byte>, fs: seq<Fixup>, addresses: map<string, int>): (r: Option<seq<byte>>)
    ensures r.Some? ==> |r.value| == |text|
  {
    if fs == [] then Some(text)
    else
      var before :- Resolve(text, fs[..|fs| - 1], addresses);
      ResolveOne(before, fs[|fs| - 1], addresses)
  }

  // ---- fields that do not touch ----

  predicate Apart(f: Fixup, g: Fixup) {
    f.location + f.size <= g.location || g.location + g.size <= f.location
  }

  /** 32-bit fields inside a text of n bytes, no two of them overlapping. */
  ghost predicate Separate(fs: seq<Fixup>, n: nat) {
    && (forall k :: 0 <= k < |fs| ==> fs[k].size == 4 && Inside(fs[k], n))
    && (forall j, k :: 0 <= j < k < |fs| ==> Apart(fs[j], fs[k]))
  }

  /** The fixups of a pass qualify. */
  lemma PassSeparate(cs: seq<L.Chunk>)
    requires L.Placed(cs)
    ensures Separate(L.Fixups(cs), |L.Text(cs)|)
  {
    L.FixupsOrdered(cs);
  }

  predicate InField(f: Fixup, p: int) { Offset(f) <= p < Offset(f) + f.size }

  /** The value f gets on the text as it was emitted. */
  function Final(text: seq<byte>, f: Fixup, addresses: map<string, int>): int
    requires Inside(f, |text|) && f.lbl in addresses
  {
    Value(f, addresses[f.lbl], Slice(text, f))
  }

  predicate Resolvable(text: seq<byte>, f: Fixup, addresses: map<string, int>)
    requires f.size == 4 && Inside(f, |text|)
  {
    f.lbl in addresses && FitsInt32(Final(text, f, addresses))
  }

  /** What resolving all of fs leaves behind, stated field by field on the emitted text. */
  ghost predicate Resolved(text: seq<byte>, fs: seq<Fixup>, addresses: map<string, int>, r: seq<byte>)
    requires Separate(fs, |text|)
  {
    && |r| == |text|
    && (forall k :: 0 <= k < |fs| ==>
          Resolvable(text, fs[k], addresses) && Slice(r, fs[k]) == Le(Final(text, fs[k], addresses), 4))
    && (forall p :: 0 <= p < |text| && (forall k :: 0 <= k < |fs| ==> !InField(fs[k], p)) ==> r[p] == text[p])
  }

  lemma SliceKept(text: seq<byte>, r: seq<byte>, f: Fixup)
    requires |r| == |text| && Inside(f, |text|)
    requires forall p :: 0 <= p < |text| && InField(f, p) ==> r[p] == text[p]
    ensures Slice(r, f) == Slice(text, f)
  {
  }

  /**
   * Non-interference: resolution succeeds exactly when each field's own value, computed on the emitted
   * text, is defined and fits; it writes those values and changes no other byte.
   */
  lemma {:induction false} ResolveFields(text: seq<byte>, fs: seq<Fixup>, addresses: map<string, int>)
    requires Separate(fs, |text|)
    ensures var r := Resolve(text, fs, addresses);
      && (r.Some? <==> forall k :: 0 <= k < |fs| ==> Resolvable(text, fs[k], addresses))
      && (r.Some? ==> Resolved(text, fs, addresses, r.value))
  {
    hide Value, Le, Signed, Apart;
    if fs != [] {
      var rest, f := fs[..|fs| - 1], fs[|fs| - 1];
      ResolveFields(text, rest, addresses);
      var before := Resolve(text, rest, addresses);
      assert forall k :: 0 <= k < |rest| ==> rest[k] == fs[k];
      if before.Some? {
        ApartSlice(text, rest, f, addresses, before.value);
        var r := ResolveOne(before.value, f, addresses);
        if r.Some? {
          ResolvedStep(text, rest, f, addresses, before.value, r.value);
          assert rest + [f] == fs;
        }
      }
    }
  }

  /** The field of f is still as emitted when the fields apart from it have been resolved. */
  lemma ApartSlice(text: seq<byte>, rest: seq<Fixup>, f: Fixup, addresses: map<string, int>, r: seq<byte>)
    requires Separate(rest, |text|) && Inside(f, |text|) && f.size == 4
    requires forall k :: 0 <= k < |rest| ==> Apart(rest[k], f)
    requires Resolved(text, rest, addresses, r)
    ensures Slice(r, f) == Slice(text, f)
  {
    hide Final, Resolvable;
    forall p | 0 <= p < |text| && InField(f, p)
      ensures r[p] == text[p]
    {
      forall k | 0 <= k < |rest|
        ensures !InField(rest[k], p)
      {
        assert Apart(rest[k], f);
      }
    }
    SliceKept(text, r, f);
  }

  lemma ResolvedStep(text: seq<byte>, rest: seq<Fixup>, f: Fixup, addresses: map<string, int>, before: seq<byte>,
                     r: seq<byte>)
    requires Separate(rest + [f], |text|)
    requires Separate(rest, |text|) && Resolved(text, rest, addresses, before)
    requires Inside(f, |text|) && Slice(before, f) == Slice(text, f)
    requires ResolveOne(before, f, addresses) == Some(r)
    ensures Resolved(text, rest + [f], addresses, r)
  {
    hide Value, Le, Signed;
    var fs := rest + [f];
    assert fs[|rest|] == f;
    assert Slice(r, f) == Le(Final(text, f, addresses), 4);
    forall k | 0 <= k < |rest|
      ensures Slice(r, rest[k]) == Slice(before, rest[k])
    {
      assert fs[k] == rest[k] && Apart(fs[k], f);
      SliceKept(before, r, rest[k]);
    }
    forall p | 0 <= p < |text| && (forall k :: 0 <= k < |fs| ==> !InField(fs[k], p))
      ensures r[p] == text[p]
    {
      assert forall k :: 0 <= k < |rest| ==> fs[k] == rest[k] && !InField(fs[k], p);
      assert !InField(f, p);
    }
  }

  /** Only one text satisfies Resolved. */
  lemma ResolvedUnique(text: seq<byte>, fs: seq<Fixup>, gs: seq<Fixup>, addresses: map<string, int>, r: seq<byte>,
                       q: seq<byte>)
    requires Separate(fs, |text|) && Separate(gs, |text|)
    requires forall f :: f in fs <==> f in gs
    requires Resolved(text, fs, addresses, r) && Resolved(text, gs, addresses, q)
    ensures r == q
  {
    hide Resolved, Separate, InField;
    SameLength(text, fs, addresses, r);
    SameLength(text, gs, addresses, q);
    forall p | 0 <= p < |text|
      ensures r[p] == q[p]
    {
      if k :| 0 <= k < |fs| && InField(fs[k], p) {
        FieldByte(text, fs, gs, k, p, addresses, r, q);
      } else {
        forall j | 0 <= j < |gs|
          ensures !InField(gs[j], p)
        {
          assert gs[j] in fs;
        }
        Untouched(text, fs, addresses, r, p);
        Untouched(text, gs, addresses, q, p);
      }
    }
  }

  lemma SameLength(text: seq<byte>, fs: seq<Fixup>, addresses: map<string, int>, r: seq<byte>)
    requires Separate(fs, |text|) && Resolved(text, fs, addresses, r)
    ensures |r| == |text|
  {
  }

  /** One field of the resolved text. */
  lemma ResolvedField(text: seq<byte>, fs: seq<Fixup>, addresses: map<string, int>, r: seq<byte>, k: nat)
    requires Separate(fs, |text|) && Resolved(text, fs, addresses, r) && k < |fs|
    ensures |r| == |text| && Inside(fs[k], |text|) && fs[k].size == 4 && Resolvable(text, fs[k], addresses)
    ensures Slice(r, fs[k]) == Le(Final(text, fs[k], addresses), 4)
  {
    hide Final, Le, Resolvable;
  }

  /** A byte outside every field is the byte that was emitted. */
  lemma Untouched(text: seq<byte>, fs: seq<Fixup>, addresses: map<string, int>, r: seq<byte>, p: nat)
    requires Separate(fs, |text|) && Resolved(text, fs, addresses, r) && p < |text|
    requires forall k :: 0 <= k < |fs| ==> !InField(fs[k], p)
    ensures |r| == |text| && r[p] == text[p]
  {
  }

  lemma FieldByte(text: seq<byte>, fs: seq<Fixup>, gs: seq<Fixup>, k: nat, p: nat, addresses: map<string, int>,
                  r: seq<byte>, q: seq<byte>)
    requires Separate(fs, |text|) && Separate(gs, |text|)
    requires k < |fs| && fs[k] in gs && p < |text| && InField(fs[k], p)
    requires Resolved(text, fs, addresses, r) && Resolved(text, gs, addresses, q)
    ensures |r| == |q| == |text| && r[p] == q[p]
  {
    hide Separate, Resolved, Final, Resolvable, Le;
    var f := fs[k];
    var j :| 0 <= j < |gs| && gs[j] == f;
    ResolvedField(text, fs, addresses, r, k);
    ResolvedField(text, gs, addresses, q, j);
    assert Slice(r, f)[p - Offset(f)] == r[p] && Slice(q, f)[p - Offset(f)] == q[p];
  }

  /** The result does not depend on the order in which the fixups are resolved. */
  lemma {:induction false} OrderIndependent(text: seq<byte>, fs: seq<Fixup>, gs: seq<Fixup>,
                                            addresses: map<string, int>)
    requires Separate(fs, |text|) && Separate(gs, |text|)
    requires forall f :: f in fs <==> f in gs
    ensures Resolve(text, fs, addresses) == Resolve(text, gs, addresses)
  {
    ResolveFields(text, fs, addresses);
    ResolveFields(text, gs, addresses);
    hide Resolve, Resolvable, Separate;
    assert forall k :: 0 <= k < |fs| ==> fs[k] in gs;
    assert forall k :: 0 <= k < |gs| ==> gs[k] in fs;
    if Resolve(text, fs, addresses).Some? && Resolve(text, gs, addresses).Some? {
      ResolvedUnique(text, fs, gs, addresses, Resolve(text, fs, addresses).value, Resolve(text, gs, addresses).value);
    }
  }

  /**
   * Each resolved field reads back little-endian as its value: target plus addend, or the distance to the target
   * plus addend.
   */
  lemma ReadBack(text: seq<byte>, fs: seq<Fixup>, addresses: map<string, int>, k: nat)
    requires Separate(fs, |text|) && k < |fs|
    requires Resolve(text, fs, addresses).Some?
    ensures var f := fs[k]; var addend := Signed(Slice(text, f));
      var now := Signed(Slice(Resolve(text, fs, addresses).value, f));
      f.lbl in addresses
      && now == addresses[f.lbl] + addend - (if f.relative then f.location + 4 else 0)
  {
    ResolveFields(text, fs, addresses);
    hide Resolve;
    assert Resolvable(text, fs[k], addresses);
    SignedLe32(Final(text, fs[k], addresses));
    hide Signed, Le;
  }
}
