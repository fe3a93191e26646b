/** The part of `syn`'s description of an enum that the derive macros read:
    a variant has an identifier and one of three field shapes, and a field has
    an optional identifier, a type and everything else (attributes, visibility),
    which takes part in equality but is otherwise opaque. */
module Schema {
  import opened Wrappers

  /** `syn::Field`; equality is structural over all three components. */
  datatype Field = Field(ident: Option<string>, ty: string, attrs: string)

  /** `syn::Fields`: `V { a: A, .. }`, `V(A, B)` or `V`. */
  datatype Fields = Named(named: seq<Field>) | Unnamed(unnamed: seq<Field>) | Unit

  /** `syn::Variant`. */
  datatype Variant = Variant(ident: string, fields: Fields)

  predicate IsNamed(v: Variant) {
    v.fields.Named?
  }

  /** Every variant has named fields. */
  predicate AllNamed(vs: seq<Variant>) {
    forall i :: 0 <= i < |vs| ==> IsNamed(vs[i])
  }

  /** The identifier of a field that has one, "" for a tuple field. */
  function NameOf(f: Field): string {
    if f.ident.Some? then f.ident.value else ""
  }

  /** The identifiers a variant binds by name: those of its named fields. */
  function DeclaredNames(v: Variant): set<string> {
    if v.fields.Named? then set f | f in v.fields.named && f.ident.Some? :: f.ident.value else {}
  }

  /** What `syn` guarantees of a parsed enum: every field of a named variant
      carries an identifier. */
  predicate NamedFieldsHaveIdents(vs: seq<Variant>) {
    forall i, f :: 0 <= i < |vs| && IsNamed(vs[i]) && f in vs[i].fields.named ==> f.ident.Some?
  }

  /** What the Rust compiler guarantees of an enum declaration: variant
      identifiers are distinct. */
  predicate DistinctVariantIdents(vs: seq<Variant>) {
    forall i, j :: 0 <= i < j < |vs| ==> vs[i].ident != vs[j].ident
  }

  /** The identifiers of the variants, in declaration order
      (`variants.iter().map(|v| v.ident.clone())`). */
  function VariantIdents(vs: seq<Variant>): seq<string> {
    seq(|vs|, i requires 0 <= i < |vs| => vs[i].ident)
  }
}
