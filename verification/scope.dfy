/** `InternalRepresentation::Scope`: the types that selections may apply to at
    a point of the query, narrowed as fragments with type conditions are
    entered. The query's `possible_types` is `PossibleTypesOf` over the
    schema's object types. */
module Scopes {
  import opened Wrappers
  import opened GraphTypes
  import opened RubyArrays
  import opened PossibleTypes

  /** What a scope is defined by: one type, an array of types, or `nil`. */
  datatype ScopeDefn = TypeDefined(t: GType) | TypeList(ts: seq<GType>) | NoType

  /** The argument of `Scope.new` or `enter`; `Foreign` is any other object. */
  datatype ScopeInput = InType(t: GType) | InArray(ts: seq<GType>) | InNil | Foreign

  class Scope {
    const objectTypes: seq<TypeDefn>
    /** `@type` */
    const typeDefn: ScopeDefn
    /** `@abstract_type`: set whenever the scope is defined by a single type. */
    const abstractType: bool
    /** `@types` (unused when `abstractType`) */
    const types: seq<GType>
    /** `@concrete_types`, filled by the first call of `ConcreteTypes`. */
    var concreteMemo: Option<seq<GType>>

    ghost function Concrete(): seq<GType> {
      if abstractType && typeDefn.TypeDefined? then PossibleTypesOf(objectTypes, typeDefn.t) else types
    }

    ghost predicate Valid()
      reads this
    {
      (abstractType <==> typeDefn.TypeDefined?) &&
      (typeDefn.TypeList? ==> types == typeDefn.ts) &&
      (typeDefn.NoType? ==> types == []) &&
      (concreteMemo.Some? ==> concreteMemo.value == Concrete())
    }

    /** `Scope.new(query, type_defn)` for an input it accepts. */
    constructor(objectTypes: seq<TypeDefn>, defn: ScopeDefn)
      ensures this.objectTypes == objectTypes && typeDefn == defn
      ensures abstractType == defn.TypeDefined?
      ensures types == if defn.TypeList? then defn.ts else []
      ensures concreteMemo.None?
      ensures Valid()
    {
      this.objectTypes := objectTypes;
      typeDefn := defn;
      match defn {
        case TypeList(ts) =>
          abstractType := false;
          types := ts;
        case TypeDefined(_) =>
          abstractType := true;
          types := [];
        case NoType =>
          abstractType := false;
          types := [];
      }
      concreteMemo := None;
    }

    /** The types `each` yields: the defining type itself for a scope defined
        by one type, otherwise the array's elements in order. */
    function Each(): (r: seq<GType>)
      ensures typeDefn.TypeDefined? && abstractType ==> r == [typeDefn.t]
      ensures !abstractType ==> r == types
    {
      if abstractType && typeDefn.TypeDefined? then [typeDefn.t] else types
    }

    /** `concrete_types` */
    method ConcreteTypes() returns (r: seq<GType>)
      requires Valid()
      modifies this
      ensures Valid()
      ensures r == Concrete()
      ensures concreteMemo == Some(r)
    {
      if concreteMemo.None? {
        if abstractType && typeDefn.TypeDefined? {
          concreteMemo := Some(PossibleTypesOf(objectTypes, typeDefn.t));
        } else {
          concreteMemo := Some(types);
        }
      }
      r := concreteMemo.value;
    }

    /** `enter(other_type_defn)`: the scope inside a type condition. The
        concrete types of the result are always among this scope's. */
    method Enter(other: ScopeInput) returns (r: Result<Scope, string>)
      requires Valid()
      modifies this
      ensures Valid()
      ensures r.Failure? <==> other.Foreign? || (other.InArray? && typeDefn != TypeList(other.ts))
      ensures other.InArray? && typeDefn == TypeList(other.ts) ==> r == Success(this)
      ensures other.InNil? ==> r.Success? && fresh(r.value) && r.value.typeDefn == NoType
      ensures other.InType? && typeDefn == TypeDefined(other.t) ==> r == Success(this)
      ensures other.InType? && typeDefn != TypeDefined(other.t) && other.t.IsAbstract() ==>
        r.Success? && fresh(r.value) &&
        r.value.typeDefn == TypeList(Intersect(PossibleTypesOf(objectTypes, other.t), Concrete()))
      ensures other.InType? && typeDefn != TypeDefined(other.t) && !other.t.IsAbstract() ==>
        r.Success? && fresh(r.value) &&
        r.value.typeDefn == if other.t in Concrete() then TypeDefined(other.t) else NoType
      ensures r.Success? ==> r.value.Valid() && r.value.objectTypes == objectTypes
      ensures r.Success? ==> forall t :: t in r.value.Concrete() ==> t in Concrete()
    {
      match other {
        case InNil =>
          var s := new Scope(objectTypes, NoType);
          r := Success(s);
        case InType(t) =>
          if typeDefn == TypeDefined(t) {
            r := Success(this);
          } else if t.IsAbstract() {
            var concrete := ConcreteTypes();
            var s := new Scope(objectTypes, TypeList(Intersect(PossibleTypesOf(objectTypes, t), concrete)));
            r := Success(s);
          } else {
            var concrete := ConcreteTypes();
            if t in concrete {
              var s := new Scope(objectTypes, TypeDefined(t));
              r := Success(s);
            } else {
              var s := new Scope(objectTypes, NoType);
              r := Success(s);
            }
          }
        case InArray(ts) =>
          if typeDefn == TypeList(ts) {
            r := Success(this);
          } else {
            r := Failure("Unexpected scope");
          }
        case Foreign =>
          r := Failure("Unexpected scope");
      }
    }
  }

  /** `Scope.new(query, type_defn)`, which raises for an input that is not a
      type, an array of types or `nil`. */
  method NewScope(objectTypes: seq<TypeDefn>, input: ScopeInput) returns (r: Result<Scope, string>)
    ensures input.Foreign? <==> r.Failure?
    ensures input.InType? ==> r.Success? && fresh(r.value) && r.value.typeDefn == TypeDefined(input.t)
    ensures input.InArray? ==> r.Success? && fresh(r.value) && r.value.typeDefn == TypeList(input.ts)
    ensures input.InNil? ==> r.Success? && fresh(r.value) && r.value.typeDefn == NoType
    ensures r.Success? ==> r.value.Valid() && r.value.objectTypes == objectTypes && r.value.concreteMemo.None?
  {
    match input {
      case InType(t) =>
        var s := new Scope(objectTypes, TypeDefined(t));
        r := Success(s);
      case InArray(ts) =>
        var s := new Scope(objectTypes, TypeList(ts));
        r := Success(s);
      case InNil =>
        var s := new Scope(objectTypes, NoType);
        r := Success(s);
      case Foreign =>
        r := Failure("Unexpected scope type");
    }
  }
}
