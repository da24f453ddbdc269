/** Schema types as values: a named type definition, or a List / NonNull
    wrapper around another type. Named types are compared by their definition
    (names are unique within a schema), wrappers structurally, which is how
    `Schema::Wrapper#==` compares them (lib/graphql8/schema/wrapper.rb). */
module GraphTypes {
  import opened RubyStrings

  /** `GraphQL8::TypeKinds`: the six kinds of named type and the two wrappers. */
  datatype TypeKind = SCALAR | OBJECT | INTERFACE | UNION | ENUM | INPUT_OBJECT | LIST | NON_NULL
  {
    predicate IsNamed() { !LIST? && !NON_NULL? }
  }

  /** A named type: its kind, the interfaces an object implements and the
      members a union declares. */
  datatype TypeDefn = TypeDefn(name: string, kind: NamedKind, interfaces: seq<TypeDefn>, possibleTypes: seq<TypeDefn>)

  type NamedKind = k: TypeKind | k.IsNamed() witness SCALAR

  datatype GType = Named(defn: TypeDefn) | NonNull(ofType: GType) | ListOf(ofType: GType)
  {
    predicate IsAbstract() { Named? && (defn.kind == UNION || defn.kind == INTERFACE) }
  }

  /** The number of wrappers around the named type. */
  function Depth(t: GType): (d: nat)
    ensures t.Named? <==> d == 0
  {
    match t
    case Named(_) => 0
    case NonNull(inner) => 1 + Depth(inner)
    case ListOf(inner) => 1 + Depth(inner)
  }

  /** `unwrap`: the named type inside all the wrappers. */
  function Unwrap(t: GType): (d: TypeDefn)
  {
    match t
    case Named(defn) => defn
    case NonNull(inner) => Unwrap(inner)
    case ListOf(inner) => Unwrap(inner)
  }

  /** Unwrapping sees through any wrapper, and reaches the same definition
      as unwrapping its inner type (lib/graphql8/schema/wrapper.rb:20-22). */
  lemma UnwrapWrapper(t: GType)
    ensures Unwrap(NonNull(t)) == Unwrap(t) && Unwrap(ListOf(t)) == Unwrap(t)
    ensures exists k: nat :: StripN(t, k) == Named(Unwrap(t))
  {
    StripToUnwrap(t);
  }

  /** The type after peeling `k` wrappers (stopping at the named type). */
  function StripN(t: GType, k: nat): (r: GType)
    ensures Unwrap(r) == Unwrap(t)
  {
    if k == 0 || t.Named? then t else StripN(t.ofType, k - 1)
  }

  lemma {:induction false} StripToUnwrap(t: GType)
    ensures StripN(t, Depth(t)) == Named(Unwrap(t))
  {
    match t
    case Named(_) =>
    case NonNull(inner) => StripToUnwrap(inner);
    case ListOf(inner) => StripToUnwrap(inner);
  }

  /** `kind` */
  function Kind(t: GType): (k: TypeKind)
    ensures t.ListOf? <==> k == LIST
    ensures t.NonNull? <==> k == NON_NULL
  {
    match t
    case Named(defn) => defn.kind
    case NonNull(_) => NON_NULL
    case ListOf(_) => LIST
  }

  /** `list?` */
  predicate IsList(t: GType) {
    t.ListOf?
  }

  /** The number of list wrappers, ignoring non-null ones. */
  function ListDepth(t: GType): nat {
    match t
    case Named(_) => 0
    case NonNull(inner) => ListDepth(inner)
    case ListOf(inner) => 1 + ListDepth(inner)
  }

  /** `to_type_signature`, in the GraphQL type-reference syntax: `[T]` for a
      list, `T!` for a non-null type. */
  function Signature(t: GType): (s: string)
    ensures |s| >= ListDepth(t) + |Unwrap(t).name|
    ensures t.ListOf? ==> |s| >= 2 && s[0] == '[' && s[|s| - 1] == ']'
    ensures t.NonNull? ==> |s| >= 1 && s[|s| - 1] == '!'
  {
    match t
    case Named(defn) => defn.name
    case ListOf(inner) => "[" + Signature(inner) + "]"
    case NonNull(inner) => Signature(inner) + "!"
  }

  /** A signature opens with one `[` per list wrapper, and the named type's
      name follows them. */
  lemma {:induction false} SignatureLayout(t: GType)
    ensures forall i :: 0 <= i < ListDepth(t) ==> Signature(t)[i] == '['
    ensures Signature(t)[ListDepth(t)..ListDepth(t) + |Unwrap(t).name|] == Unwrap(t).name
  {
    match t
    case Named(_) =>
    case ListOf(inner) =>
      SignatureLayout(inner);
      var s, si := Signature(t), Signature(inner);
      assert s == "[" + si + "]";
      assert s[1..|si| + 1] == si;
      assert s[ListDepth(t)..ListDepth(t) + |Unwrap(t).name|] == si[ListDepth(inner)..ListDepth(inner) + |Unwrap(inner).name|];
      forall i | 0 <= i < ListDepth(t) ensures s[i] == '[' {
        if i > 0 {
          assert s[i] == si[i - 1];
        }
      }
    case NonNull(inner) =>
      SignatureLayout(inner);
      var s, si := Signature(t), Signature(inner);
      assert s == si + "!";
      assert s[..|si|] == si;
      assert s[ListDepth(t)..ListDepth(t) + |Unwrap(t).name|] == si[ListDepth(inner)..ListDepth(inner) + |Unwrap(inner).name|];
  }

  /** The built-in scalar types. */
  function Scalar(name: string): GType {
    Named(TypeDefn(name, SCALAR, [], []))
  }
}
