# enum_tools core in Dafny

`enum_tools` is a Rust crate of derive macros for enums. For an enum it
generates four kinds of methods:

- `get_<f>` getters for every field `f` that all named-field (record)
  variants share;
- `get_mut_<f>` mutable getters for the same fields;
- an `iter_uniques` method that returns the fields unique to the active variant;
- an `is_<variant>` predicate per variant.

Everything rests on a small algebra over the variants' field sets: union,
intersection and difference.

This project models that core. It covers `src/field_sets.rs` and the
generators and helpers of `src/helpers.rs`. Field identity is `syn::Field`'s
structural equality. `Schema.Field` therefore carries the identifier, the
type and an opaque component that stands for attributes and visibility.

Modules:

- `Wrappers`: `Option`, plus `Result` whose `Panic(msg)` stands for a Rust
  panic (`expect`, `unwrap`, `panic!`), with the source's message.
- `Schema`: `Field`, `Fields` (named / unnamed / unit) and `Variant`. Also
  the two facts the parser and the compiler guarantee of a real enum:
  every named field has an identifier, and variant identifiers are distinct.
- `Generated`: the emitted `impl` items as data, in place of `syn` trees:
  `ItemImpl`, `Arm`, `Pattern`, `Expr`. Also an evaluator, `Call`, that
  gives a generated method's result on a value of the enum. It takes the
  first arm whose pattern names the value's variant. It reports `Unbound`
  when an arm binds a field the value does not have, which the Rust compiler
  would reject.
- `FieldSets`: `fields_union` and `fields_inter` as methods with the source's
  loops. They are proved equal to the specification functions `NamedUnion`
  and `NamedInter`, and the algebra's laws are proved about those functions.
- `Helpers`: `fold1`, the getter builders, the `iter_uniques` builder, the
  discriminant builders and `snake_case_name`. The loops are methods; the
  expression builders are functions.

Points where the code's behaviour is easy to misread:

- `fields_inter` seeds its accumulator with the *last* named variant
  (`pop()`), not the first. `NamedInter` is written with the first as seed.
  `FieldsInter` is proved equal to it, and `OrderIndependent` shows that
  order never matters.
- `snake_case_name` inserts `_` before any character that is not a lower-case
  letter and follows a lower-case emitted character. Digits and existing
  underscores count too. So `already_snake` becomes `already__snake`
  (`SnakeCaseUnderscore`), and a snake-case name is not a fixed point.
  Names made only of lower-case letters are fixed points
  (`SnakeCaseLowerFixpoint`). Names such as `_x` or `1a` are fixed points
  too, because no letter comes before the `_` or the digit.
- Getters get one arm per variant, tuple and unit variants included. This
  latent defect is reproduced, not hardened:
  - `GetterArmsCoverAllVariants` shows that such an arm binds a field its
    variant does not declare;
  - `GetterUnboundOnNonNamed` shows the arm cannot bind;
  - `UnitVariantBreaksGetter` gives the `A { x }`, `B` instance.
- A tuple or unit variant makes `iter_uniques` generation panic with the
  source's message; there is no typed error.

## Model

| member | source | states |
|---|---|---|
| `FieldSets.FieldsUnion` | src/field_sets.rs:30-41 | the set built by inserting every field of every named variant equals `NamedUnion` |
| `FieldSets.UnionMembership` | src/field_sets.rs:30-41 | a field is in the union iff some named variant declares it; tuple and unit variants contribute nothing |
| `FieldSets.NamedSetsMembers` | src/field_sets.rs:12-18 | the filtered field sets are exactly those of the named variants; there are none iff no variant is named |
| `FieldSets.FieldsInter` | src/field_sets.rs:11-28 | popping the last named set as seed and intersecting the rest yields `NamedInter` (first-named seed) |
| `FieldSets.MeetMembership` | src/field_sets.rs:22-25 | the intersection loop keeps exactly the seed's fields that are in every later set |
| `FieldSets.InterMembership` | src/field_sets.rs:11-28 | a field is in the intersection iff some variant is named and every named variant declares it |
| `FieldSets.InterEmptyWithoutNamed` | src/field_sets.rs:20 | with no named variant the intersection is empty |
| `FieldSets.InterSubsetUnion` | src/field_sets.rs:11-41 | the intersection is contained in the union |
| `FieldSets.FieldsDiff` | src/field_sets.rs:44-49 | the difference is disjoint from the intersection and together with it makes up the union |
| `FieldSets.DiffMembership` | src/field_sets.rs:44-49 | a field is in the difference iff one named variant declares it and another does not |
| `FieldSets.OrderIndependent` | src/field_sets.rs:20-25 | any permutation of the variants gives the same union, intersection and difference |
| `FieldSets.NonNamedTransparent` | src/field_sets.rs:15-17 | inserting or removing a tuple or unit variant anywhere leaves union and intersection unchanged |
| `FieldSets.AppendNamed` | src/field_sets.rs:20-25 | appending a named variant intersects the result with its fields (it can only shrink); from zero named variants it becomes that variant's set |
| `FieldSets.TwoRecordVariants` | src/field_sets.rs:11-49 | for `A { x, y }`, `B { x, z }`: intersection `{x}`, union `{x, y, z}`, difference `{y, z}` |
| `FieldSets.SingleNamedVariant` | src/field_sets.rs:11-49 | one named variant: intersection and union are its fields, difference is empty |
| `Helpers.Fold1` | src/helpers.rs:6-8 | `None` exactly on an empty sequence; a single element is returned as is |
| `Helpers.FoldLeftSnoc` | src/helpers.rs:7 | the fold combines an appended element last |
| `Helpers.Fold1Snoc` | src/helpers.rs:6-8 | after a non-empty prefix, one more element is combined with the prefix's result |
| `Helpers.MkMatchArmOne` | src/helpers.rs:55-61 | the arm accepts exactly variant `V`, binds only the field name and returns that binding |
| `Helpers.GetterArms` | src/helpers.rs:66-67 | arm `i` is written for variant identifier `i`, one per identifier, in order |
| `Helpers.FieldToGetter` | src/helpers.rs:62-79 | panics exactly on a field without identifier; else `get_<name>`, `&self`, returns `&ty`, arms for all variants |
| `Helpers.FieldToMutGetter` | src/helpers.rs:81-98 | as `FieldToGetter`, with `get_mut_<name>`, `&mut self` and `&mut ty` |
| `Helpers.MkCommonFieldGet` | src/helpers.rs:12-31 | panics, with the source's `expect` message, iff an intersection field lacks an identifier; else exactly one getter per intersection field, no field twice |
| `Helpers.MkCommonFieldGetMut` | src/helpers.rs:35-50 | as `MkCommonFieldGet`, with the mutable getters |
| `Helpers.InterFieldsHaveIdents` | src/helpers.rs:63 | on a parsed enum every intersection field has an identifier, so the `expect` never fires |
| `Helpers.GetterArmsCoverAllVariants` | src/helpers.rs:19 | a getter has an arm for every variant; the arm's variant declares the field iff it is a named variant |
| `Helpers.GetterReturnsField` | src/helpers.rs:69-77 | on a value of a named variant, `get_f` and `get_mut_f` return that value's field `f` |
| `Helpers.GetterUnboundOnNonNamed` | src/helpers.rs:66-67 | on a value of a tuple or unit variant the getter's arm binds a field the value lacks |
| `Helpers.UnitVariantBreaksGetter` | src/helpers.rs:19 | `A { x }` with unit `B`: `x` is shared, yet `get_x` cannot bind `x` in `B`'s arm |
| `Helpers.UniquesMembership` | src/helpers.rs:176-180 | a field is unique to the variant iff the variant declares it and it is not in the intersection |
| `Helpers.UniquesAppend` | src/helpers.rs:176-180 | the unique-field filter keeps declared order (it distributes over concatenation) |
| `Helpers.ThisVariantUnique` | src/helpers.rs:172-187 | panics exactly on a tuple or unit variant; otherwise returns the fields outside the intersection, in declared order |
| `Helpers.VariantToArm` | src/helpers.rs:136-169 | no unique fields: `V { .. } => Vec::new()`; else binds exactly the unique idents and clones each in order, as many as there are unique fields; panics only on a missing identifier |
| `Helpers.CollectUniques` | src/helpers.rs:112-114 | panics iff some variant is not named; else each variant's unique fields, in variant order |
| `Helpers.ZipArms` | src/helpers.rs:117-121 | panics iff some variant's unique fields include one without an identifier; else one arm per variant, in order, as `variant_to_arm` builds it |
| `Helpers.MapVariantsForUniqueIter` | src/helpers.rs:110-134 | fails iff some variant is not named (or a unique field lacks an identifier); else `iter_uniques` with one arm per variant, in order, all against one intersection |
| `Helpers.UniquesHaveIdentsOnParsed` | src/helpers.rs:149-152 | on a parsed enum the `unwrap` on unique field identifiers never fires |
| `Helpers.IterUniquesReturnsUniqueValues` | src/helpers.rs:154-167 | on a value of variant `V`, `iter_uniques` returns clones of `V`'s unique fields in declared order |
| `Helpers.UniqueArmCollects` | src/helpers.rs:154-166 | a generated arm, run on a value that has all the unique fields, returns their values in declared order |
| `Helpers.ToAsciiLower` | src/helpers.rs:272 | upper-case ASCII letters move to lower case, everything else is unchanged; the result is lower-case iff the input is a letter |
| `Helpers.SnakeCaseName` | src/helpers.rs:261-277 | the loop that looks at the last emitted char equals `SnakeCase`, which looks only at the previous input char |
| `Helpers.SnakeCaseSnoc` | src/helpers.rs:266-273 | one more input char adds `_` iff the previous char is a letter and the new one is not lower-case, then the new char lower-cased |
| `Helpers.SnakeCaseNoUpper` | src/helpers.rs:272 | the output has no upper-case ASCII letter |
| `Helpers.SnakeCaseFirst` | src/helpers.rs:267 | no underscore goes before the first char |
| `Helpers.SnakeCaseLowerTail` | src/helpers.rs:266-274 | appending lower-case letters to a name appends them unchanged to its snake case: they never start a word |
| `Helpers.SnakeCaseLowerFixpoint` | src/helpers.rs:266-274 | an identifier of lower-case letters is unchanged |
| `Helpers.SnakeCaseLength` | src/helpers.rs:266-273 | the output is exactly as long as the input plus the number of boundary positions (one `_` each), so between `|s|` and `2|s|` |
| `Helpers.SnakeCaseCamel` | src/helpers.rs:266-274 | `CamelCase` becomes `camel_case`; the empty name stays empty |
| `Helpers.SnakeCaseAcronym` | src/helpers.rs:266-274 | `HTTPServer` becomes `h_t_t_p_server` |
| `Helpers.SnakeCaseUnderscore` | src/helpers.rs:266-274 | `already_snake` becomes `already__snake` |
| `Helpers.MkDiscrimOneNamed` | src/helpers.rs:210-225 | `is_<snake>` returning bool, with `E::V { .. } => true, _ => false` |
| `Helpers.MkDiscrimOneUnnamed` | src/helpers.rs:226-240 | `is_<snake>` returning bool, with `E::V(..) => true, _ => false` |
| `Helpers.MkDiscrimOneUnit` | src/helpers.rs:241-258 | `is_<snake>` returning bool, with `E::V => true, _ => false` |
| `Helpers.MkDiscrims` | src/helpers.rs:190-208 | one predicate per variant, in declaration order, built by the variant's shape |
| `Helpers.DiscrimDecides` | src/helpers.rs:216-221 | a variant's predicate holds of a value iff the value is of that variant |
| `Helpers.DiscrimsExactlyOne` | src/helpers.rs:190-208 | for a value of any variant, exactly one generated predicate (its own) returns true |

## Left out

- `src/lib.rs` is not part of this model. It holds the `proc_macro_derive`
  entry points, input parsing, the "Not an enum!" panics and token-stream
  splicing: host-compiler boundary code.
- `syn`/`quote` token construction (`parse_quote!`, `format_ident!`, spans) and
  the printing of generated code. Generated items are abstract datatypes, and
  `format_ident!` is string concatenation.
- The order in which getters are emitted follows `HashSet` iteration, which
  is unspecified. `MkCommonFieldGet` picks fields in an arbitrary order and
  states set properties through its ghost `order`.
- Whether generated code type-checks. This includes the conversion of unique
  fields to the fixed `Vec<ItemIdx>` element type. The evaluator `Generated.Call`
  matches a pattern by variant identifier, does not model types, and models
  a `..`-pattern or tuple pattern on the wrong shape as accepting.
- Dead code: the unused `FieldsSummary` struct; the unused `s`, `union` and
  `diff` computations in the getter builders; the unused `pred_upper_case`
  variable.
- Helpers.IsLower: models `char::is_lowercase` on ASCII only. A non-ASCII
  lower-case letter counts as not lower-case here, while Rust counts it as
  lower-case.
- Helpers.Fold1: takes a sequence and a pure function. A Rust iterator and an
  `FnMut` with side effects are not modelled.
- `Vec::with_capacity` in `mk_discrims` is a capacity hint without
  observable effect.
