/** The field-set algebra of `src/field_sets.rs`: which fields of an enum's
    named-field variants are shared by all of them, which by some of them.
    Tuple and unit variants are skipped by all three operations. */
module FieldSets {
  import opened Schema

  /** The fields a variant contributes: those of a named variant, none for a
      tuple or unit variant. */
  function FieldSet(v: Variant): set<Field> {
    if v.fields.Named? then set f | f in v.fields.named else {}
  }

  /** Some variant has named fields. */
  predicate HasNamed(vs: seq<Variant>) {
    exists v :: v in vs && IsNamed(v)
  }

  /** The `filter_map` of `fields_inter`: one field set per named variant, in
      declaration order. */
  function NamedSets(vs: seq<Variant>): seq<set<Field>> {
    if vs == [] then []
    else if IsNamed(vs[0]) then [FieldSet(vs[0])] + NamedSets(vs[1..])
    else NamedSets(vs[1..])
  }

  /** Specification of `fields_union`: the fields of every named variant. */
  function NamedUnion(vs: seq<Variant>): set<Field> {
    if vs == [] then {} else NamedUnion(vs[..|vs| - 1]) + FieldSet(vs[|vs| - 1])
  }

  /** Left fold of intersection over `ss`, starting from `acc`. */
  function Meet(acc: set<Field>, ss: seq<set<Field>>): set<Field> {
    if ss == [] then acc else Meet(acc * ss[0], ss[1..])
  }

  /** Specification of `fields_inter`: seeded with the FIRST named variant's
      fields and intersected with each later one in declaration order; empty
      when no variant is named. (The code seeds with the LAST one instead;
      `FieldsInter` is proved to agree.) */
  function NamedInter(vs: seq<Variant>): set<Field> {
    var ss := NamedSets(vs);
    if ss == [] then {} else Meet(ss[0], ss[1..])
  }

  // ---------------------------------------------------------------------------
  // The operations, as the source computes them

  /** `fields_union`: inserts every field of every named variant into a set. */
  method FieldsUnion(vs: seq<Variant>) returns (union: set<Field>)
    ensures union == NamedUnion(vs)
  {
    union := {};
    for i := 0 to |vs|
      invariant union == NamedUnion(vs[..i])
    {
      assert vs[..i + 1][..i] == vs[..i];
      match vs[i].fields {
        case Named(named) =>
          for j := 0 to |named|
            invariant union == NamedUnion(vs[..i]) + set f | f in named[..j]
          {
            assert named[..j + 1] == named[..j] + [named[j]];
            union := union + {named[j]};
          }
          assert named[..|named|] == named;
        case Unnamed(_) =>
        case Unit =>
      }
    }
    assert vs[..|vs|] == vs;
  }

  /** `fields_inter`: pops the last named variant's field set as the seed and
      intersects it with the others, in declaration order. */
  method FieldsInter(vs: seq<Variant>) returns (accSet: set<Field>)
    ensures accSet == NamedInter(vs)
  {
    var namedFields := NamedSets(vs);
    ghost var all := namedFields;
    if |namedFields| == 0 {
      accSet := {};
    } else {
      accSet := namedFields[|namedFields| - 1];
      namedFields := namedFields[..|namedFields| - 1];
    }
    ghost var seed := accSet;
    for i := 0 to |namedFields|
      invariant forall f :: f in accSet <==> f in seed && forall j :: 0 <= j < i ==> f in namedFields[j]
    {
      accSet := accSet * namedFields[i];
    }
    if all != [] {
      assert all == namedFields + [seed];
      forall f
        ensures f in accSet <==> f in NamedInter(vs)
      {
        MeetMembership(all[0], all[1..], f);
        assert (forall j :: 0 <= j < |all| ==> f in all[j]) <==> f in all[0] && (forall j :: 0 <= j < |all| - 1 ==> f in all[1..][j]);
      }
    }
  }

  /** `fields_diff`: the fields some named variants have and others lack. */
  function FieldsDiff(vs: seq<Variant>): (diff: set<Field>)
    ensures diff !! NamedInter(vs)
    ensures diff + NamedInter(vs) == NamedUnion(vs)
  {
    InterSubsetUnion(vs);
    NamedUnion(vs) - NamedInter(vs)
  }

  // ---------------------------------------------------------------------------
  // Properties of the specification

  lemma {:induction false} NamedSetsMembers(vs: seq<Variant>, s: set<Field>)
    ensures s in NamedSets(vs) <==> exists v :: v in vs && IsNamed(v) && s == FieldSet(v)
    ensures NamedSets(vs) == [] <==> !HasNamed(vs)
  {
    if vs != [] {
      NamedSetsMembers(vs[1..], s);
      assert vs == [vs[0]] + vs[1..];
      assert forall v :: v in vs <==> v == vs[0] || v in vs[1..];
    }
  }

  /** The union holds exactly the fields declared by named variants. */
  lemma {:induction false} UnionMembership(vs: seq<Variant>, f: Field)
    ensures f in NamedUnion(vs) <==> exists v :: v in vs && IsNamed(v) && f in v.fields.named
  {
    if vs != [] {
      var init := vs[..|vs| - 1];
      UnionMembership(init, f);
      assert vs == init + [vs[|vs| - 1]];
      assert forall v :: v in vs <==> v in init || v == vs[|vs| - 1];
    }
  }

  lemma {:induction false} MeetMembership(acc: set<Field>, ss: seq<set<Field>>, f: Field)
    ensures f in Meet(acc, ss) <==> f in acc && forall j :: 0 <= j < |ss| ==> f in ss[j]
  {
    if ss != [] {
      MeetMembership(acc * ss[0], ss[1..], f);
      assert forall j :: 1 <= j < |ss| ==> ss[j] == ss[1..][j - 1];
    }
  }

  /** With at least one named variant, a field is in the intersection exactly
      when every named variant declares it; with none, the intersection is
      empty. */
  lemma InterMembership(vs: seq<Variant>, f: Field)
    ensures f in NamedInter(vs) <==> HasNamed(vs) && forall v :: v in vs && IsNamed(v) ==> f in v.fields.named
  {
    var ss := NamedSets(vs);
    NamedSetsMembers(vs, {});
    if ss != [] {
      MeetMembership(ss[0], ss[1..], f);
      assert (forall j :: 0 <= j < |ss| ==> f in ss[j]) <==> f in ss[0] && (forall j :: 0 <= j < |ss| - 1 ==> f in ss[1..][j]);
      forall v | v in vs && IsNamed(v)
        ensures FieldSet(v) in ss
      {
        NamedSetsMembers(vs, FieldSet(v));
      }
      forall j | 0 <= j < |ss|
        ensures exists v :: v in vs && IsNamed(v) && ss[j] == FieldSet(v)
      {
        NamedSetsMembers(vs, ss[j]);
      }
    }
  }

  /** No named variant: empty intersection (`unwrap_or_else(HashSet::new)`). */
  lemma InterEmptyWithoutNamed(vs: seq<Variant>)
    requires !HasNamed(vs)
    ensures NamedInter(vs) == {}
  {
    NamedSetsMembers(vs, {});
  }

  lemma InterSubsetUnion(vs: seq<Variant>)
    ensures NamedInter(vs) <= NamedUnion(vs)
  {
    forall f | f in NamedInter(vs)
      ensures f in NamedUnion(vs)
    {
      InterMembership(vs, f);
      UnionMembership(vs, f);
    }
  }

  /** The difference holds the fields present in some named variant and
      missing from another. */
  lemma DiffMembership(vs: seq<Variant>, f: Field)
    ensures f in FieldsDiff(vs) <==>
      (exists v :: v in vs && IsNamed(v) && f in v.fields.named) &&
      (exists w :: w in vs && IsNamed(w) && f !in w.fields.named)
  {
    InterMembership(vs, f);
    UnionMembership(vs, f);
  }

  /** Reordering the variants changes neither the union nor the intersection,
      although the code picks its seed by position. */
  lemma OrderIndependent(a: seq<Variant>, b: seq<Variant>)
    requires multiset(a) == multiset(b)
    ensures NamedInter(a) == NamedInter(b)
    ensures NamedUnion(a) == NamedUnion(b)
    ensures FieldsDiff(a) == FieldsDiff(b)
  {
    assert forall v :: v in a <==> v in b by {
      forall v ensures v in a <==> v in b {
        assert v in a <==> v in multiset(a);
        assert v in b <==> v in multiset(b);
      }
    }
    forall f
      ensures (f in NamedInter(a) <==> f in NamedInter(b)) && (f in NamedUnion(a) <==> f in NamedUnion(b))
    {
      InterMembership(a, f);
      InterMembership(b, f);
      UnionMembership(a, f);
      UnionMembership(b, f);
    }
  }

  /** Inserting (or, read right to left, removing) a tuple or unit variant
      anywhere changes neither the union nor the intersection. */
  lemma NonNamedTransparent(a: seq<Variant>, v: Variant, b: seq<Variant>)
    requires !IsNamed(v)
    ensures NamedInter(a + [v] + b) == NamedInter(a + b)
    ensures NamedUnion(a + [v] + b) == NamedUnion(a + b)
  {
    var with, without := a + [v] + b, a + b;
    assert forall w :: w in with && IsNamed(w) <==> w in without && IsNamed(w);
    forall f
      ensures (f in NamedInter(with) <==> f in NamedInter(without)) && (f in NamedUnion(with) <==> f in NamedUnion(without))
    {
      InterMembership(with, f);
      InterMembership(without, f);
      UnionMembership(with, f);
      UnionMembership(without, f);
    }
  }

  /** Appending a named variant intersects the existing result with its
      fields, so it can only shrink; if no variant was named before, the
      result becomes that variant's field set. */
  lemma AppendNamed(vs: seq<Variant>, v: Variant)
    requires IsNamed(v)
    ensures HasNamed(vs) ==> NamedInter(vs + [v]) == NamedInter(vs) * FieldSet(v)
    ensures HasNamed(vs) ==> NamedInter(vs + [v]) <= NamedInter(vs)
    ensures !HasNamed(vs) ==> NamedInter(vs + [v]) == FieldSet(v)
  {
    var ext := vs + [v];
    assert forall w :: w in ext <==> w in vs || w == v;
    assert v in ext;
    forall f
      ensures f in NamedInter(ext) <==> f in (if HasNamed(vs) then NamedInter(vs) * FieldSet(v) else FieldSet(v))
    {
      InterMembership(ext, f);
      InterMembership(vs, f);
    }
  }

  /** `A { x, y }` and `B { x, z }`: `x` is shared, `y` and `z` are not. */
  lemma TwoRecordVariants(x: Field, y: Field, z: Field)
    requires x != y && y != z && x != z
    ensures var vs := [Variant("A", Named([x, y])), Variant("B", Named([x, z]))];
      NamedInter(vs) == {x} && NamedUnion(vs) == {x, y, z} && FieldsDiff(vs) == {y, z}
  {
    var vs := [Variant("A", Named([x, y])), Variant("B", Named([x, z]))];
    assert forall v :: v in vs <==> v == vs[0] || v == vs[1];
    forall f
      ensures (f in NamedInter(vs) <==> f == x) && (f in NamedUnion(vs) <==> f == x || f == y || f == z)
    {
      InterMembership(vs, f);
      UnionMembership(vs, f);
    }
  }

  /** With a single named variant, intersection and union are its fields. */
  lemma SingleNamedVariant(v: Variant)
    requires IsNamed(v)
    ensures NamedInter([v]) == NamedUnion([v]) == FieldSet(v)
    ensures FieldsDiff([v]) == {}
  {
    AppendNamed([], v);
    assert [] + [v] == [v];
    assert NamedUnion([v]) == NamedUnion([]) + FieldSet(v);
  }
}
