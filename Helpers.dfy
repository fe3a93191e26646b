/** The code generators of `src/helpers.rs`: common-field getters, the
    `iter_uniques` method, the `is_<variant>` predicates, and the helpers they
    use (`fold1`, `snake_case_name`). */
module Helpers {
  import opened Wrappers
  import opened Schema
  import opened FieldSets
  import opened Generated

  // ---------------------------------------------------------------------------
  // fold1

  function FoldLeft<A>(f: (A, A) -> A, acc: A, s: seq<A>): A {
    if s == [] then acc else FoldLeft(f, f(acc, s[0]), s[1..])
  }

  /** `fold1`: the first element folded with `f` over the rest, or `None` for
      an empty sequence. */
  function Fold1<A>(s: seq<A>, f: (A, A) -> A): (r: Option<A>)
    ensures r.None? <==> s == []
    ensures |s| == 1 ==> r == Some(s[0])
  {
    if s == [] then None else Some(FoldLeft(f, s[0], s[1..]))
  }

  lemma {:induction false} FoldLeftSnoc<A>(f: (A, A) -> A, acc: A, s: seq<A>, x: A)
    ensures FoldLeft(f, acc, s + [x]) == f(FoldLeft(f, acc, s), x)
  {
    if s != [] {
      assert (s + [x])[1..] == s[1..] + [x];
      FoldLeftSnoc(f, f(acc, s[0]), s[1..], x);
    }
  }

  /** One more element after a non-empty prefix is combined last. */
  lemma Fold1Snoc<A>(s: seq<A>, x: A, f: (A, A) -> A)
    requires s != []
    ensures Fold1(s + [x], f) == Some(f(Fold1(s, f).value, x))
  {
    assert (s + [x])[1..] == s[1..] + [x];
    FoldLeftSnoc(f, s[0], s[1..], x);
  }

  // ---------------------------------------------------------------------------
  // Common-field getters

  /** `mk_match_arm_one`: `E::V { field_name, .. } => field_name`. */
  function MkMatchArmOne(enumIdent: string, variantIdent: string, fieldName: string): (arm: Arm)
    ensures forall w :: Selects(arm.pat, w) <==> w == variantIdent
    ensures arm.pat == Struct(Path(enumIdent, variantIdent), [fieldName])
    ensures arm.body == Var(fieldName)
  {
    Arm(Struct(Path(enumIdent, variantIdent), [fieldName]), Var(fieldName))
  }

  /** One getter arm per variant identifier, in order. */
  function GetterArms(enumIdent: string, variantIdents: seq<string>, fieldName: string): (arms: seq<Arm>)
    ensures ArmsFollow(arms, variantIdents)
  {
    seq(|variantIdents|, i requires 0 <= i < |variantIdents| => MkMatchArmOne(enumIdent, variantIdents[i], fieldName))
  }

  const NoFieldIdent := "No field ident ; field_to_getter"

  /** `field_to_getter`: `fn get_<f>(&self) -> &<ty>`; panics on a field
      without an identifier. */
  function FieldToGetter(enumIdent: string, variantIdents: seq<string>, field: Field): (r: Result<ItemImpl>)
    ensures r.Panic? <==> field.ident.None?
    ensures r.Panic? ==> r.msg == NoFieldIdent
    ensures r.Ok? ==> r.value.selfTy == enumIdent && r.value.fnName == "get_" + field.ident.value
    ensures r.Ok? ==> r.value.receiver == RefSelf && r.value.ret == Ref(field.ty)
    ensures r.Ok? ==> r.value.arms == GetterArms(enumIdent, variantIdents, field.ident.value)
  {
    if field.ident.None? then Panic(NoFieldIdent)
    else
      var name := field.ident.value;
      Ok(ItemImpl(enumIdent, "get_" + name, RefSelf, Ref(field.ty), GetterArms(enumIdent, variantIdents, name)))
  }

  /** `field_to_mut_getter`: `fn get_mut_<f>(&mut self) -> &mut <ty>`; panics
      on a field without an identifier. */
  function FieldToMutGetter(enumIdent: string, variantIdents: seq<string>, field: Field): (r: Result<ItemImpl>)
    ensures r.Panic? <==> field.ident.None?
    ensures r.Panic? ==> r.msg == NoFieldIdent
    ensures r.Ok? ==> r.value.selfTy == enumIdent && r.value.fnName == "get_mut_" + field.ident.value
    ensures r.Ok? ==> r.value.receiver == RefMutSelf && r.value.ret == RefMut(field.ty)
    ensures r.Ok? ==> r.value.arms == GetterArms(enumIdent, variantIdents, field.ident.value)
  {
    if field.ident.None? then Panic(NoFieldIdent)
    else
      var name := field.ident.value;
      Ok(ItemImpl(enumIdent, "get_mut_" + name, RefMutSelf, RefMut(field.ty), GetterArms(enumIdent, variantIdents, name)))
  }

  /** `mk_common_field_get`: one getter per field of the intersection, in the
      set's iteration order (unspecified; `order` is the order taken). */
  method MkCommonFieldGet(enumIdent: string, variants: seq<Variant>) returns (r: Result<seq<ItemImpl>>, ghost order: seq<Field>)
    ensures r.Panic? <==> exists f :: f in NamedInter(variants) && f.ident.None?
    ensures r.Ok? ==> |r.value| == |order| == |NamedInter(variants)|
    ensures r.Ok? ==> forall f :: f in order <==> f in NamedInter(variants)
    ensures r.Ok? ==> forall j, k :: 0 <= j < k < |order| ==> order[j] != order[k]
    ensures r.Panic? ==> r.msg == NoFieldIdent
    ensures r.Ok? ==> forall k :: 0 <= k < |order| ==> FieldToGetter(enumIdent, VariantIdents(variants), order[k]) == Ok(r.value[k])
  {
    var inter := FieldsInter(variants);
    var getters: seq<ItemImpl> := [];
    var variantIdents := VariantIdents(variants);
    var rest := inter;
    order := [];
    while rest != {}
      invariant rest <= inter
      invariant forall f :: f in inter <==> f in rest || f in order
      invariant forall f :: f in order ==> f !in rest && f.ident.Some?
      invariant forall j, k :: 0 <= j < k < |order| ==> order[j] != order[k]
      invariant |order| + |rest| == |inter|
      invariant |getters| == |order|
      invariant forall k :: 0 <= k < |order| ==> FieldToGetter(enumIdent, variantIdents, order[k]) == Ok(getters[k])
      decreases rest
    {
      var f :| f in rest;
      var getter := FieldToGetter(enumIdent, variantIdents, f);
      if getter.Panic? {
        assert f in NamedInter(variants) && f.ident.None?;
        return Panic(getter.msg), order;
      }
      assert |rest - {f}| == |rest| - 1 && f !in order;
      getters := getters + [getter.value];
      order := order + [f];
      rest := rest - {f};
    }
    assert !exists f :: f in NamedInter(variants) && f.ident.None?;
    r := Ok(getters);
  }

  /** `mk_common_field_get_mut`: as `MkCommonFieldGet`, with mutable getters. */
  method MkCommonFieldGetMut(enumIdent: string, variants: seq<Variant>) returns (r: Result<seq<ItemImpl>>, ghost order: seq<Field>)
    ensures r.Panic? <==> exists f :: f in NamedInter(variants) && f.ident.None?
    ensures r.Ok? ==> |r.value| == |order| == |NamedInter(variants)|
    ensures r.Ok? ==> forall f :: f in order <==> f in NamedInter(variants)
    ensures r.Ok? ==> forall j, k :: 0 <= j < k < |order| ==> order[j] != order[k]
    ensures r.Panic? ==> r.msg == NoFieldIdent
    ensures r.Ok? ==> forall k :: 0 <= k < |order| ==> FieldToMutGetter(enumIdent, VariantIdents(variants), order[k]) == Ok(r.value[k])
  {
    var inter := FieldsInter(variants);
    var getters: seq<ItemImpl> := [];
    var variantIdents := VariantIdents(variants);
    var rest := inter;
    order := [];
    while rest != {}
      invariant rest <= inter
      invariant forall f :: f in inter <==> f in rest || f in order
      invariant forall f :: f in order ==> f !in rest && f.ident.Some?
      invariant forall j, k :: 0 <= j < k < |order| ==> order[j] != order[k]
      invariant |order| + |rest| == |inter|
      invariant |getters| == |order|
      invariant forall k :: 0 <= k < |order| ==> FieldToMutGetter(enumIdent, variantIdents, order[k]) == Ok(getters[k])
      decreases rest
    {
      var f :| f in rest;
      var mutGetter := FieldToMutGetter(enumIdent, variantIdents, f);
      if mutGetter.Panic? {
        assert f in NamedInter(variants) && f.ident.None?;
        return Panic(mutGetter.msg), order;
      }
      assert |rest - {f}| == |rest| - 1 && f !in order;
      getters := getters + [mutGetter.value];
      order := order + [f];
      rest := rest - {f};
    }
    assert !exists f :: f in NamedInter(variants) && f.ident.None?;
    r := Ok(getters);
  }

  /** The `expect` in the getter builders never fires on an enum `syn`
      produced: intersection fields come from named variants only. */
  lemma InterFieldsHaveIdents(vs: seq<Variant>)
    requires NamedFieldsHaveIdents(vs)
    ensures forall f :: f in NamedInter(vs) ==> f.ident.Some?
  {
    forall f | f in NamedInter(vs)
      ensures f.ident.Some?
    {
      InterMembership(vs, f);
      var v :| v in vs && IsNamed(v);
      var i :| 0 <= i < |vs| && vs[i] == v;
    }
  }

  /** Every getter has one arm per variant, tuple and unit variants included;
      the variant of an arm declares the bound field exactly when it is a
      named variant. So the getters are only sound when every variant is
      named. */
  lemma GetterArmsCoverAllVariants(enumIdent: string, vs: seq<Variant>, f: Field)
    requires f in NamedInter(vs) && f.ident.Some?
    ensures var arms := GetterArms(enumIdent, VariantIdents(vs), f.ident.value);
      |arms| == |vs| &&
      forall i :: 0 <= i < |vs| ==>
        arms[i].pat == Struct(Path(enumIdent, vs[i].ident), [f.ident.value]) &&
        (f.ident.value in DeclaredNames(vs[i]) <==> IsNamed(vs[i]))
  {
    InterMembership(vs, f);
    forall i | 0 <= i < |vs| && IsNamed(vs[i])
      ensures f.ident.value in DeclaredNames(vs[i])
    {
      assert vs[i] in vs;
    }
  }

  /** On a value of a named variant the getter returns that value's field. */
  lemma GetterReturnsField<V>(enumIdent: string, vs: seq<Variant>, f: Field, j: nat, inst: Instance<V>)
    requires DistinctVariantIdents(vs)
    requires f in NamedInter(vs) && f.ident.Some?
    requires j < |vs| && IsNamed(vs[j]) && InstanceOf(inst, vs[j])
    ensures f.ident.value in inst.values
    ensures Call(FieldToGetter(enumIdent, VariantIdents(vs), f).value, inst) == RefTo(inst.values[f.ident.value])
    ensures Call(FieldToMutGetter(enumIdent, VariantIdents(vs), f).value, inst) == RefTo(inst.values[f.ident.value])
  {
    var n := f.ident.value;
    var arms := GetterArms(enumIdent, VariantIdents(vs), n);
    InterMembership(vs, f);
    assert vs[j] in vs;
    assert n in DeclaredNames(vs[j]);
    FirstArmOfVariant(arms, vs, j);
    assert arms[j] == MkMatchArmOne(enumIdent, vs[j].ident, n);
    assert EvalArm(arms[j], inst.values) == RefTo(inst.values[n]);
  }

  /** The latent defect: on a value of a tuple or unit variant the getter's
      arm binds a field that variant does not have. */
  lemma GetterUnboundOnNonNamed<V>(enumIdent: string, vs: seq<Variant>, f: Field, j: nat, inst: Instance<V>)
    requires DistinctVariantIdents(vs)
    requires f in NamedInter(vs) && f.ident.Some?
    requires j < |vs| && !IsNamed(vs[j]) && InstanceOf(inst, vs[j])
    ensures Call(FieldToGetter(enumIdent, VariantIdents(vs), f).value, inst) == Unbound(f.ident.value)
    ensures Call(FieldToMutGetter(enumIdent, VariantIdents(vs), f).value, inst) == Unbound(f.ident.value)
  {
    var n := f.ident.value;
    var arms := GetterArms(enumIdent, VariantIdents(vs), n);
    assert inst.values.Keys == {};
    FirstArmOfVariant(arms, vs, j);
    assert arms[j] == MkMatchArmOne(enumIdent, vs[j].ident, n);
    assert EvalArm(arms[j], inst.values) == Unbound(n);
  }

  /** `A { x }` next to a unit variant `B`: `x` is shared (the unit variant is
      skipped), yet `get_x` has an arm `E::B { x, .. } => x` that cannot bind. */
  lemma UnitVariantBreaksGetter<V>(x: Field)
    requires x.ident == Some("x")
    ensures var vs := [Variant("A", Named([x])), Variant("B", Unit)];
      var b: Instance<V> := Instance("B", map[]);
      NamedInter(vs) == {x} && Call(FieldToGetter("E", VariantIdents(vs), x).value, b) == Unbound("x")
  {
    var vs := [Variant("A", Named([x])), Variant("B", Unit)];
    NonNamedTransparent([Variant("A", Named([x]))], Variant("B", Unit), []);
    assert vs == [Variant("A", Named([x]))] + [Variant("B", Unit)] + [];
    SingleNamedVariant(Variant("A", Named([x])));
    assert FieldSet(Variant("A", Named([x]))) == {x};
    var b: Instance<V> := Instance("B", map[]);
    GetterUnboundOnNonNamed("E", vs, x, 1, b);
  }

  // ---------------------------------------------------------------------------
  // iter_uniques

  /** The fields of `fields` outside `inter`, in their declared order. */
  function Uniques(fields: seq<Field>, inter: set<Field>): seq<Field> {
    if fields == [] then []
    else
      var last := fields[|fields| - 1];
      Uniques(fields[..|fields| - 1], inter) + (if last in inter then [] else [last])
  }

  lemma {:induction false} UniquesMembership(fields: seq<Field>, inter: set<Field>, u: Field)
    ensures u in Uniques(fields, inter) <==> u in fields && u !in inter
  {
    if fields != [] {
      var init := fields[..|fields| - 1];
      UniquesMembership(init, inter, u);
      assert fields == init + [fields[|fields| - 1]];
    }
  }

  /** Filtering keeps declared order: it distributes over concatenation. */
  lemma {:induction false} UniquesAppend(a: seq<Field>, b: seq<Field>, inter: set<Field>)
    ensures Uniques(a + b, inter) == Uniques(a, inter) + Uniques(b, inter)
  {
    if b != [] {
      var init := b[..|b| - 1];
      assert (a + b)[..|a + b| - 1] == a + init;
      UniquesAppend(a, init, inter);
    } else {
      assert a + b == a;
    }
  }

  const NotNamedFields := "this_variant_unique not named fields"

  /** `this_variant_unique`: the variant's fields outside `inter`, in declared
      order; panics on a tuple or unit variant. */
  method ThisVariantUnique(variant: Variant, inter: set<Field>) returns (r: Result<seq<Field>>)
    ensures r.Ok? <==> IsNamed(variant)
    ensures r.Ok? ==> r.value == Uniques(variant.fields.named, inter)
    ensures r.Panic? ==> r.msg == NotNamedFields
  {
    var buf: seq<Field> := [];
    match variant.fields {
      case Named(named) =>
        for i := 0 to |named|
          invariant buf == Uniques(named[..i], inter)
        {
          assert named[..i + 1][..i] == named[..i];
          if named[i] !in inter {
            buf := buf + [named[i]];
          }
        }
        assert named[..|named|] == named;
      case _ =>
        return Panic(NotNamedFields);
    }
    r := Ok(buf);
  }

  /** Every field of `us` has an identifier. */
  predicate AllHaveIdents(us: seq<Field>) {
    forall k :: 0 <= k < |us| ==> us[k].ident.Some?
  }

  const UnwrapNone := "called `Option::unwrap()` on a `None` value"

  /** `variant_to_arm`: `E::V { .. } => Vec::new()` for a variant without
      unique fields; otherwise an arm binding exactly the unique fields and
      collecting a clone of each, in order. Panics on a unique field without
      an identifier. */
  function VariantToArm(enumIdent: string, v: Variant, uniques: seq<Field>): (r: Result<Arm>)
    ensures r.Panic? <==> !AllHaveIdents(uniques)
    ensures r.Panic? ==> r.msg == UnwrapNone
    ensures uniques == [] ==> r == Ok(Arm(Struct(Path(enumIdent, v.ident), []), NewVec))
    ensures r.Ok? ==> forall w :: Selects(r.value.pat, w) <==> w == v.ident
    ensures r.Ok? ==> r.value.pat.Struct? && r.value.pat.bindings == Pushed(r.value.body)
    ensures r.Ok? ==> |Pushed(r.value.body)| == |uniques|
    ensures r.Ok? ==> forall k :: 0 <= k < |uniques| ==> Pushed(r.value.body)[k] == uniques[k].ident.value
  {
    var path := Path(enumIdent, v.ident);
    if uniques == [] then Ok(Arm(Struct(path, []), NewVec))
    else if !AllHaveIdents(uniques) then Panic(UnwrapNone)
    else
      var names := seq(|uniques|, k requires 0 <= k < |uniques| => uniques[k].ident.value);
      Ok(Arm(Struct(path, names), CloneAll(names)))
  }

  /** The unique fields of every variant have identifiers. */
  predicate UniquesHaveIdents(vs: seq<Variant>) {
    forall i :: 0 <= i < |vs| && IsNamed(vs[i]) ==> AllHaveIdents(Uniques(vs[i].fields.named, NamedInter(vs)))
  }

  /** The `map`/`collect` in `map_variants_for_unique_iter`: each variant's
      unique fields against `inter`, in variant order; panics at the first
      variant that is not named. */
  method CollectUniques(vs: seq<Variant>, inter: set<Field>) returns (r: Result<seq<seq<Field>>>)
    ensures r.Ok? <==> AllNamed(vs)
    ensures r.Panic? ==> r.msg == NotNamedFields
    ensures r.Ok? ==> |r.value| == |vs|
    ensures r.Ok? ==> forall k :: 0 <= k < |vs| ==> r.value[k] == Uniques(vs[k].fields.named, inter)
  {
    var allUniques: seq<seq<Field>> := [];
    for i := 0 to |vs|
      invariant |allUniques| == i
      invariant forall k :: 0 <= k < i ==> IsNamed(vs[k]) && allUniques[k] == Uniques(vs[k].fields.named, inter)
    {
      var uniques := ThisVariantUnique(vs[i], inter);
      if uniques.Panic? {
        return Panic(uniques.msg);
      }
      allUniques := allUniques + [uniques.value];
    }
    r := Ok(allUniques);
  }

  /** The loop over the variants zipped with their unique fields, pushing
      one arm per variant; panics at the first unique field without an
      identifier. */
  method ZipArms(enumIdent: string, vs: seq<Variant>, allUniques: seq<seq<Field>>) returns (r: Result<seq<Arm>>)
    requires |allUniques| == |vs|
    ensures r.Ok? <==> forall k :: 0 <= k < |vs| ==> AllHaveIdents(allUniques[k])
    ensures r.Panic? ==> r.msg == UnwrapNone
    ensures r.Ok? ==> |r.value| == |vs|
    ensures r.Ok? ==> forall k :: 0 <= k < |vs| ==> VariantToArm(enumIdent, vs[k], allUniques[k]) == Ok(r.value[k])
  {
    var allArms: seq<Arm> := [];
    for i := 0 to |vs|
      invariant |allArms| == i
      invariant forall k :: 0 <= k < i ==> VariantToArm(enumIdent, vs[k], allUniques[k]) == Ok(allArms[k])
    {
      var arm := VariantToArm(enumIdent, vs[i], allUniques[i]);
      if arm.Panic? {
        return Panic(arm.msg);
      }
      allArms := allArms + [arm.value];
    }
    r := Ok(allArms);
  }

  /** `map_variants_for_unique_iter`: `fn iter_uniques(&self) -> Vec<ItemIdx>`
      with one arm per variant, in declaration order, all computed against the
      one intersection. Panics unless every variant is named. */
  method MapVariantsForUniqueIter(enumIdent: string, vs: seq<Variant>) returns (r: Result<ItemImpl>)
    ensures r.Ok? <==> AllNamed(vs) && UniquesHaveIdents(vs)
    ensures !AllNamed(vs) ==> r == Panic(NotNamedFields)
    ensures r.Ok? ==> r.value.selfTy == enumIdent && r.value.fnName == "iter_uniques"
    ensures r.Ok? ==> r.value.receiver == RefSelf && r.value.ret == VecOf("ItemIdx")
    ensures r.Ok? ==> |r.value.arms| == |vs| && forall i :: 0 <= i < |vs| ==>
      VariantToArm(enumIdent, vs[i], Uniques(vs[i].fields.named, NamedInter(vs))) == Ok(r.value.arms[i])
  {
    var fieldsInter := FieldsInter(vs);
    var allUniques := CollectUniques(vs, fieldsInter);
    if allUniques.Panic? {
      return Panic(allUniques.msg);
    }
    var allArms := ZipArms(enumIdent, vs, allUniques.value);
    if allArms.Panic? {
      return Panic(allArms.msg);
    }
    r := Ok(ItemImpl(enumIdent, "iter_uniques", RefSelf, VecOf("ItemIdx"), allArms.value));
  }

  /** On an enum `syn` produced, the unwrap in `variant_to_arm` never fires. */
  lemma UniquesHaveIdentsOnParsed(vs: seq<Variant>)
    requires NamedFieldsHaveIdents(vs)
    ensures UniquesHaveIdents(vs)
  {
    forall i, k | 0 <= i < |vs| && IsNamed(vs[i]) && 0 <= k < |Uniques(vs[i].fields.named, NamedInter(vs))|
      ensures Uniques(vs[i].fields.named, NamedInter(vs))[k].ident.Some?
    {
      UniquesMembership(vs[i].fields.named, NamedInter(vs), Uniques(vs[i].fields.named, NamedInter(vs))[k]);
    }
  }

  /** On a value of variant `vs[j]`, the generated `iter_uniques` returns a
      clone of each of that variant's unique fields, in declared order, so
      the vector is as long as the list of unique fields. */
  lemma IterUniquesReturnsUniqueValues<V>(enumIdent: string, vs: seq<Variant>, arms: seq<Arm>, j: nat, inst: Instance<V>)
    requires DistinctVariantIdents(vs) && AllNamed(vs) && NamedFieldsHaveIdents(vs)
    requires |arms| == |vs|
    requires forall i :: 0 <= i < |vs| ==> VariantToArm(enumIdent, vs[i], Uniques(vs[i].fields.named, NamedInter(vs))) == Ok(arms[i])
    requires j < |vs| && InstanceOf(inst, vs[j])
    ensures var us := Uniques(vs[j].fields.named, NamedInter(vs));
      AllHaveIdents(us) &&
      (forall k :: 0 <= k < |us| ==> us[k].ident.value in inst.values) &&
      Call(ItemImpl(enumIdent, "iter_uniques", RefSelf, VecOf("ItemIdx"), arms), inst) ==
        VecIs(seq(|us|, k requires 0 <= k < |us| => inst.values[us[k].ident.value]))
  {
    var us := Uniques(vs[j].fields.named, NamedInter(vs));
    UniqueArmsFollow(enumIdent, vs, arms);
    FirstArmOfVariant(arms, vs, j);
    UniqueValuesBound(vs, j, inst);
    UniqueArmCollects(enumIdent, vs[j], us, arms[j], inst.values);
  }

  /** The arms built by `variant_to_arm` follow the variants, one each. */
  lemma UniqueArmsFollow(enumIdent: string, vs: seq<Variant>, arms: seq<Arm>)
    requires AllNamed(vs) && |arms| == |vs|
    requires forall i :: 0 <= i < |vs| ==> VariantToArm(enumIdent, vs[i], Uniques(vs[i].fields.named, NamedInter(vs))) == Ok(arms[i])
    ensures ArmsFollow(arms, VariantIdents(vs))
  {
  }

  /** An arm built by `variant_to_arm` collects the values of the unique
      fields, in order, when the value has them all. */
  lemma UniqueArmCollects<V>(enumIdent: string, v: Variant, us: seq<Field>, arm: Arm, values: map<string, V>)
    requires VariantToArm(enumIdent, v, us) == Ok(arm)
    requires AllHaveIdents(us) && forall k :: 0 <= k < |us| ==> us[k].ident.value in values
    ensures EvalArm(arm, values) == VecIs(seq(|us|, k requires 0 <= k < |us| => values[us[k].ident.value]))
  {
  }

  /** The identifiers of a variant's unique fields are among its value's fields. */
  lemma UniqueValuesBound<V>(vs: seq<Variant>, j: nat, inst: Instance<V>)
    requires NamedFieldsHaveIdents(vs)
    requires j < |vs| && IsNamed(vs[j]) && InstanceOf(inst, vs[j])
    ensures var us := Uniques(vs[j].fields.named, NamedInter(vs));
      AllHaveIdents(us) && forall k :: 0 <= k < |us| ==> us[k].ident.value in inst.values
  {
    var us := Uniques(vs[j].fields.named, NamedInter(vs));
    forall k | 0 <= k < |us|
      ensures us[k].ident.Some? && us[k].ident.value in inst.values
    {
      UniquesMembership(vs[j].fields.named, NamedInter(vs), us[k]);
    }
  }

  // ---------------------------------------------------------------------------
  // Discriminant predicates

  /** Lower-case ASCII letter (the model of `char::is_lowercase`). */
  predicate IsLower(c: char) {
    'a' <= c <= 'z'
  }

  predicate IsUpper(c: char) {
    'A' <= c <= 'Z'
  }

  /** `char::to_ascii_lowercase`. */
  function ToAsciiLower(c: char): (r: char)
    ensures IsUpper(c) ==> r as int == c as int + 32
    ensures !IsUpper(c) ==> r == c
    ensures IsLower(r) <==> IsLower(c) || IsUpper(c)
  {
    if IsUpper(c) then (c as int + 32) as char else c
  }

  /** `snake_case_name` puts `_` in front of `s[i]` when the character before
      it is an ASCII letter (it was emitted lower-case) and `s[i]` is not a
      lower-case letter. */
  predicate Boundary(s: string, i: nat)
    requires i < |s|
  {
    i > 0 && (IsLower(s[i - 1]) || IsUpper(s[i - 1])) && !IsLower(s[i])
  }

  /** Specification of `snake_case_name`, in terms of the input alone. */
  function SnakeCase(s: string): string {
    if s == [] then []
    else
      var i := |s| - 1;
      SnakeCase(s[..i]) + (if Boundary(s, i) then "_" else "") + [ToAsciiLower(s[i])]
  }

  /** `snake_case_name`: lower-cases each character, inserting `_` whenever the
      last character emitted so far is lower-case and the next one is not. */
  method SnakeCaseName(ident: string) returns (acc: string)
    ensures acc == SnakeCase(ident)
  {
    acc := "";
    for i := 0 to |ident|
      invariant acc == SnakeCase(ident[..i])
      invariant i > 0 ==> acc != [] && acc[|acc| - 1] == ToAsciiLower(ident[i - 1])
    {
      var predLowercase := |acc| > 0 && IsLower(acc[|acc| - 1]);
      var nextUppercase := !IsLower(ident[i]);
      if predLowercase && nextUppercase {
        acc := acc + "_";
      }
      acc := acc + [ToAsciiLower(ident[i])];
      assert ident[..i + 1][..i] == ident[..i];
    }
    assert ident[..|ident|] == ident;
  }

  lemma {:induction false} SnakeCaseNoUpper(s: string)
    ensures forall k :: 0 <= k < |SnakeCase(s)| ==> !IsUpper(SnakeCase(s)[k])
  {
    if s != [] {
      SnakeCaseNoUpper(s[..|s| - 1]);
    }
  }

  /** No underscore goes in front of the first character. */
  lemma {:induction false} SnakeCaseFirst(s: string)
    requires s != []
    ensures SnakeCase(s) != [] && SnakeCase(s)[0] == ToAsciiLower(s[0])
  {
    if |s| > 1 {
      SnakeCaseFirst(s[..|s| - 1]);
    }
  }

  /** An identifier of lower-case letters only is left as it is. */
  lemma SnakeCaseLowerFixpoint(s: string)
    requires forall k :: 0 <= k < |s| ==> IsLower(s[k])
    ensures SnakeCase(s) == s
  {
    SnakeCaseLowerTail([], s);
    assert [] + s == s;
  }

  /** The positions of `s` that get a `_` in front of them. */
  function Boundaries(s: string): set<nat> {
    set i: nat | i < |s| && Boundary(s, i)
  }

  /** Each character is emitted lower-cased, in order, with one `_` before it
      exactly at a boundary: the output is the input's length plus the number
      of boundaries. */
  lemma {:induction false} SnakeCaseLength(s: string)
    ensures |SnakeCase(s)| == |s| + |Boundaries(s)|
    ensures |s| <= |SnakeCase(s)| <= 2 * |s|
  {
    if s != [] {
      var n := |s| - 1;
      var init := s[..n];
      SnakeCaseLength(init);
      var extra: set<nat> := if Boundary(s, n) then {n} else {};
      forall i: nat
        ensures i in Boundaries(s) <==> i in Boundaries(init) || i in extra
      {
        if i < n {
          assert Boundary(s, i) == Boundary(init, i);
        }
      }
      assert Boundaries(s) == Boundaries(init) + extra;
      assert n !in Boundaries(init);
    }
  }

  /** Appending one character: the recursion read forwards. */
  lemma SnakeCaseSnoc(s: string, c: char, t: string)
    requires t == s + [c]
    ensures SnakeCase(t) ==
      SnakeCase(s) + (if s != [] && (IsLower(s[|s| - 1]) || IsUpper(s[|s| - 1])) && !IsLower(c) then "_" else "") + [ToAsciiLower(c)]
  {
  }

  /** Lower-case letters never start a word: appending them appends them as
      they are. */
  lemma {:induction false} SnakeCaseLowerTail(s: string, t: string)
    requires forall k :: 0 <= k < |t| ==> IsLower(t[k])
    ensures SnakeCase(s + t) == SnakeCase(s) + t
  {
    if t != [] {
      var u, t', c := s + t, t[..|t| - 1], t[|t| - 1];
      assert u[..|u| - 1] == s + t';
      assert u[|u| - 1] == c && IsLower(c);
      SnakeCaseLowerTail(s, t');
      assert t == t' + [c];
      calc {
        SnakeCase(u);
        SnakeCase(s + t') + [c];
        SnakeCase(s) + t' + [c];
        SnakeCase(s) + (t' + [c]);
        SnakeCase(s) + t;
      }
    } else {
      assert s + t == s;
    }
  }

  /** The first word of `CamelCase`, and the capital that starts the next. */
  lemma SnakeCaseCamelStem()
    ensures SnakeCase("CamelC") == "camel_c"
  {
    assert SnakeCase("C") == "c" by { SnakeCaseSnoc("", 'C', "C"); }
    assert SnakeCase("Camel") == "camel" by { SnakeCaseLowerTail("C", "amel"); assert "C" + "amel" == "Camel"; }
    SnakeCaseSnoc("Camel", 'C', "CamelC");
  }

  /** A case change starts a new word. */
  lemma SnakeCaseCamel()
    ensures SnakeCase("") == ""
    ensures SnakeCase("CamelCase") == "camel_case"
  {
    SnakeCaseCamelStem();
    SnakeCaseLowerTail("CamelC", "ase");
    assert "CamelC" + "ase" == "CamelCase";
  }

  /** Each capital of an all-capitals run after the first gets its own `_`. */
  lemma SnakeCaseCapitals()
    ensures SnakeCase("HTTP") == "h_t_t_p"
  {
    assert SnakeCase("H") == "h" by { SnakeCaseSnoc("", 'H', "H"); }
    assert SnakeCase("HT") == "h_t" by { SnakeCaseSnoc("H", 'T', "HT"); }
    assert SnakeCase("HTT") == "h_t_t" by { SnakeCaseSnoc("HT", 'T', "HTT"); }
    SnakeCaseSnoc("HTT", 'P', "HTTP");
  }

  /** Every capital after a letter starts a new word: no acronym heuristic. */
  lemma SnakeCaseAcronym()
    ensures SnakeCase("HTTPServer") == "h_t_t_p_server"
  {
    SnakeCaseCapitals();
    assert SnakeCase("HTTPS") == "h_t_t_p_s" by { SnakeCaseSnoc("HTTP", 'S', "HTTPS"); }
    SnakeCaseLowerTail("HTTPS", "erver");
    assert "HTTPS" + "erver" == "HTTPServer";
  }

  /** An underscore after a letter gets a second one in front of it. */
  lemma SnakeCaseAlready()
    ensures SnakeCase("already_") == "already__"
  {
    assert SnakeCase("already") == "already" by { SnakeCaseLowerFixpoint("already"); }
    SnakeCaseSnoc("already", '_', "already_");
  }

  /** An existing underscore after a letter is itself a boundary, so a
      snake-case name is not left as it is. */
  lemma SnakeCaseUnderscore()
    ensures SnakeCase("already_snake") == "already__snake"
  {
    SnakeCaseAlready();
    SnakeCaseLowerTail("already_", "snake");
    assert "already_" + "snake" == "already_snake";
  }

  /** The predicate's name: `is_` followed by the snake-cased variant name. */
  function DiscrimName(variantIdent: string): string {
    "is_" + SnakeCase(variantIdent)
  }

  /** `mk_discrim_one_named`: `E::V { .. } => true, _ => false`. */
  function MkDiscrimOneNamed(enumIdent: string, variantIdent: string): (r: ItemImpl)
    ensures r.fnName == DiscrimName(variantIdent) && r.ret == Bool && r.receiver == RefSelf
    ensures |r.arms| == 2 && r.arms[0].pat == Struct(Path(enumIdent, variantIdent), [])
    ensures r.arms[0].body == BoolLit(true) && r.arms[1] == Arm(Wild, BoolLit(false))
  {
    ItemImpl(enumIdent, DiscrimName(variantIdent), RefSelf, Bool,
      [Arm(Struct(Path(enumIdent, variantIdent), []), BoolLit(true)), Arm(Wild, BoolLit(false))])
  }

  /** `mk_discrim_one_unnamed`: `E::V(..) => true, _ => false`. */
  function MkDiscrimOneUnnamed(enumIdent: string, variantIdent: string): (r: ItemImpl)
    ensures r.fnName == DiscrimName(variantIdent) && r.ret == Bool && r.receiver == RefSelf
    ensures |r.arms| == 2 && r.arms[0].pat == TupleStruct(Path(enumIdent, variantIdent))
    ensures r.arms[0].body == BoolLit(true) && r.arms[1] == Arm(Wild, BoolLit(false))
  {
    ItemImpl(enumIdent, DiscrimName(variantIdent), RefSelf, Bool,
      [Arm(TupleStruct(Path(enumIdent, variantIdent)), BoolLit(true)), Arm(Wild, BoolLit(false))])
  }

  /** `mk_discrim_one_unit`: `E::V => true, _ => false`. */
  function MkDiscrimOneUnit(enumIdent: string, variantIdent: string): (r: ItemImpl)
    ensures r.fnName == DiscrimName(variantIdent) && r.ret == Bool && r.receiver == RefSelf
    ensures |r.arms| == 2 && r.arms[0].pat == PathPat(Path(enumIdent, variantIdent))
    ensures r.arms[0].body == BoolLit(true) && r.arms[1] == Arm(Wild, BoolLit(false))
  {
    ItemImpl(enumIdent, DiscrimName(variantIdent), RefSelf, Bool,
      [Arm(PathPat(Path(enumIdent, variantIdent)), BoolLit(true)), Arm(Wild, BoolLit(false))])
  }

  /** The predicate `mk_discrims` emits for one variant, by its shape. */
  function DiscrimFor(enumIdent: string, v: Variant): ItemImpl {
    match v.fields
    case Named(_) => MkDiscrimOneNamed(enumIdent, v.ident)
    case Unnamed(_) => MkDiscrimOneUnnamed(enumIdent, v.ident)
    case Unit => MkDiscrimOneUnit(enumIdent, v.ident)
  }

  /** `mk_discrims`: one predicate per variant, in declaration order. */
  method MkDiscrims(enumIdent: string, variants: seq<Variant>) returns (acc: seq<ItemImpl>)
    ensures |acc| == |variants|
    ensures forall i :: 0 <= i < |variants| ==> acc[i] == DiscrimFor(enumIdent, variants[i])
  {
    acc := [];
    for i := 0 to |variants|
      invariant |acc| == i
      invariant forall k :: 0 <= k < i ==> acc[k] == DiscrimFor(enumIdent, variants[k])
    {
      var variant := variants[i];
      match variant.fields {
        case Named(_) =>
          acc := acc + [MkDiscrimOneNamed(enumIdent, variant.ident)];
        case Unnamed(_) =>
          acc := acc + [MkDiscrimOneUnnamed(enumIdent, variant.ident)];
        case Unit =>
          acc := acc + [MkDiscrimOneUnit(enumIdent, variant.ident)];
      }
    }
  }

  /** A variant's predicate holds of a value exactly when the value was built
      with that variant. */
  lemma DiscrimDecides<V>(enumIdent: string, v: Variant, inst: Instance<V>)
    ensures Call(DiscrimFor(enumIdent, v), inst) == BoolIs(inst.variant == v.ident)
  {
  }

  /** For a value of one of the enum's variants, exactly one of the generated
      predicates holds: the one for its own variant. */
  lemma DiscrimsExactlyOne<V>(enumIdent: string, vs: seq<Variant>, j: nat, inst: Instance<V>)
    requires DistinctVariantIdents(vs)
    requires j < |vs| && InstanceOf(inst, vs[j])
    ensures forall i :: 0 <= i < |vs| ==> Call(DiscrimFor(enumIdent, vs[i]), inst) == BoolIs(i == j)
  {
    forall i | 0 <= i < |vs|
      ensures Call(DiscrimFor(enumIdent, vs[i]), inst) == BoolIs(i == j)
    {
      DiscrimDecides(enumIdent, vs[i], inst);
    }
  }
}
