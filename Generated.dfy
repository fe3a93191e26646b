/** The code the derive macros emit, as data instead of `syn` syntax trees:
    one `impl` block holding one method whose body is a `match self`, and a
    small evaluator that says what such a method returns on a value of the
    enum, so that properties of the generated code can be stated. */
module Generated {
  import opened Wrappers
  import opened Schema

  /** `E::V` */
  datatype Path = Path(enumIdent: string, variantIdent: string)

  datatype Pattern =
    | Struct(path: Path, bindings: seq<string>)  // `E::V { b1, b2, .. }`; `E::V { .. }` when no bindings
    | TupleStruct(path: Path)                   // `E::V(..)`
    | PathPat(path: Path)                        // `E::V`
    | Wild                                      // `_`

  datatype Expr =
    | Var(name: string)             // a bound field, returned by reference
    | NewVec                        // `Vec::new()`
    | CloneAll(names: seq<string>)  // `{ let mut buf = Vec::new(); buf.push(n.clone()); ... buf }`
    | BoolLit(b: bool)

  datatype Arm = Arm(pat: Pattern, body: Expr)

  datatype Receiver = RefSelf | RefMutSelf  // `&self`, `&mut self`

  datatype RetType = Ref(ty: string) | RefMut(ty: string) | Bool | VecOf(elem: string)

  /** `impl selfTy { pub fn fnName(receiver) -> ret { match self { arms } } }` */
  datatype ItemImpl = ItemImpl(selfTy: string, fnName: string, receiver: Receiver, ret: RetType, arms: seq<Arm>)

  /** The names whose clones a `Vec`-building body collects, in push order. */
  function Pushed(e: Expr): seq<string> {
    match e
    case CloneAll(names) => names
    case _ => []
  }

  // ---------------------------------------------------------------------------
  // Meaning of generated code

  /** A value of the enum: the variant it was built with and the values of its
      named fields (none for a tuple or unit variant). */
  datatype Instance<V> = Instance(variant: string, values: map<string, V>)

  /** `inst` is a value of variant `v`. */
  predicate InstanceOf<V>(inst: Instance<V>, v: Variant) {
    inst.variant == v.ident && inst.values.Keys == DeclaredNames(v)
  }

  /** What a generated method returns. `NoArm`: the match is not exhaustive;
      `Unbound(n)`: an arm names a field `n` the variant does not have. Both
      are rejected by the Rust compiler. */
  datatype Outcome<V> = RefTo(v: V) | BoolIs(b: bool) | VecIs(items: seq<V>) | NoArm | Unbound(name: string)

  /** Pattern `p` accepts a value of the variant named `variant`. */
  predicate Selects(p: Pattern, variant: string) {
    match p
    case Struct(path, _) => path.variantIdent == variant
    case TupleStruct(path) => path.variantIdent == variant
    case PathPat(path) => path.variantIdent == variant
    case Wild => true
  }

  /** The arm a `match` takes: the first whose pattern accepts the variant. */
  function FirstArm(arms: seq<Arm>, variant: string): (r: Option<nat>)
    ensures r.Some? ==> r.value < |arms| && Selects(arms[r.value].pat, variant)
    ensures r.Some? ==> forall k :: 0 <= k < r.value ==> !Selects(arms[k].pat, variant)
    ensures r.None? ==> forall k :: 0 <= k < |arms| ==> !Selects(arms[k].pat, variant)
  {
    if arms == [] then None
    else if Selects(arms[0].pat, variant) then Some(0)
    else match FirstArm(arms[1..], variant)
      case None => None
      case Some(k) => Some(k + 1)
  }

  /** The first name of `names` that `values` lacks. */
  function FirstMissing<V>(names: seq<string>, values: map<string, V>): (r: Option<string>)
    ensures r.None? <==> forall k :: 0 <= k < |names| ==> names[k] in values
    ensures r.Some? ==> r.value in names && r.value !in values
  {
    if names == [] then None
    else if names[0] !in values then Some(names[0])
    else FirstMissing(names[1..], values)
  }

  function EvalBody<V>(e: Expr, values: map<string, V>): Outcome<V> {
    match e
    case Var(n) => if n in values then RefTo(values[n]) else Unbound(n)
    case NewVec => VecIs([])
    case CloneAll(names) =>
      (match FirstMissing(names, values)
       case Some(n) => Unbound(n)
       case None => VecIs(seq(|names|, k requires 0 <= k < |names| => values[names[k]])))
    case BoolLit(b) => BoolIs(b)
  }

  /** An arm binds its pattern's names from the value's fields, then runs its body. */
  function EvalArm<V>(arm: Arm, values: map<string, V>): Outcome<V> {
    var bound := if arm.pat.Struct? then arm.pat.bindings else [];
    match FirstMissing(bound, values)
    case Some(n) => Unbound(n)
    case None => EvalBody(arm.body, values)
  }

  /** Calling the generated method on `inst`. */
  function Call<V>(item: ItemImpl, inst: Instance<V>): Outcome<V> {
    match FirstArm(item.arms, inst.variant)
    case None => NoArm
    case Some(k) => EvalArm(item.arms[k], inst.values)
  }

  /** Arm `i` of `arms` is written for variant `idents[i]` alone. */
  predicate ArmsFollow(arms: seq<Arm>, idents: seq<string>) {
    |arms| == |idents| &&
    forall i :: 0 <= i < |arms| ==> !arms[i].pat.Wild? && arms[i].pat.path.variantIdent == idents[i]
  }

  /** A match with one arm per variant, in declaration order, takes the arm of
      the value's own variant when variant identifiers are distinct. */
  lemma FirstArmOfVariant(arms: seq<Arm>, vs: seq<Variant>, j: nat)
    requires ArmsFollow(arms, VariantIdents(vs))
    requires DistinctVariantIdents(vs)
    requires j < |vs|
    ensures FirstArm(arms, vs[j].ident) == Some(j)
  {
    assert Selects(arms[j].pat, vs[j].ident);
    forall k | 0 <= k < |arms| && k != j
      ensures !Selects(arms[k].pat, vs[j].ident)
    {
      assert arms[k].pat.path.variantIdent == vs[k].ident;
    }
  }
}
