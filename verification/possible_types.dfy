/** `Schema::PossibleTypes`: the concrete object types that a union or
    interface may resolve to, with interface implementers computed once per
    interface and kept in a memo. */
module PossibleTypes {
  import opened Wrappers
  import opened RubyStrings
  import opened RubyArrays
  import opened GraphTypes

  /** What `possible_types` may be handed: a type definition, a class-based
      type (which delegates to its `graphql_definition`), or something else. */
  datatype TypeInput = Defn(t: GType) | ClassBased(definition: GType) | Foreign

  function NameOf(d: TypeDefn): string { d.name }

  predicate IsObject(d: TypeDefn) { d.kind == OBJECT }

  /** The object types among the schema's types, in the schema's order. */
  function ObjectTypes(schemaTypes: seq<TypeDefn>): (r: seq<TypeDefn>)
    ensures forall d :: d in r <==> d in schemaTypes && d.kind == OBJECT
  {
    Filter(schemaTypes, IsObject)
  }

  /** The object types that list `iface` among their interfaces, sorted by name. */
  function Implementers(objectTypes: seq<TypeDefn>, iface: TypeDefn): (r: seq<TypeDefn>)
    ensures SortedBy(r, NameOf)
    ensures multiset(r) == multiset(Filter(objectTypes, (d: TypeDefn) => iface in d.interfaces))
    ensures forall d :: d in r <==> d in objectTypes && iface in d.interfaces
  {
    var selected := Filter(objectTypes, (d: TypeDefn) => iface in d.interfaces);
    var r := SortBy(selected, NameOf);
    assert forall d :: d in r <==> d in multiset(r);
    assert forall d :: d in selected <==> d in multiset(selected);
    r
  }

  function AsTypes(ds: seq<TypeDefn>): (r: seq<GType>)
    ensures |r| == |ds|
    ensures forall i :: 0 <= i < |ds| ==> r[i] == Named(ds[i])
  {
    seq(|ds|, i requires 0 <= i < |ds| => Named(ds[i]))
  }

  /** `possible_types(type_defn)` for a type definition. */
  function PossibleTypesOf(objectTypes: seq<TypeDefn>, t: GType): (r: seq<GType>)
    ensures t.Named? && t.defn.kind == UNION ==> r == AsTypes(t.defn.possibleTypes)
    ensures t.Named? && t.defn.kind == INTERFACE ==>
      r == AsTypes(Implementers(objectTypes, t.defn))
    ensures !t.IsAbstract() ==> r == [t]
  {
    if t.Named? && t.defn.kind == UNION then AsTypes(t.defn.possibleTypes)
    else if t.Named? && t.defn.kind == INTERFACE then AsTypes(Implementers(objectTypes, t.defn))
    else [t]
  }

  /** An interface's possible types are exactly its implementers among the
      schema's object types, each once if the schema lists each type once. */
  lemma InterfaceMembers(objectTypes: seq<TypeDefn>, iface: TypeDefn, t: GType)
    requires iface.kind == INTERFACE
    ensures t in PossibleTypesOf(objectTypes, Named(iface)) <==>
      t.Named? && t.defn in objectTypes && iface in t.defn.interfaces
  {
    var impl := Implementers(objectTypes, iface);
    if t in PossibleTypesOf(objectTypes, Named(iface)) {
      var i :| 0 <= i < |impl| && AsTypes(impl)[i] == t;
      assert impl[i] in impl;
    }
  }

  class PossibleTypesCache {
    const objectTypes: seq<TypeDefn>
    /** `@interface_implementers`, filled on first lookup of each interface. */
    var implementers: map<TypeDefn, seq<TypeDefn>>

    ghost predicate Valid()
      reads this
    {
      forall iface :: iface in implementers ==> implementers[iface] == Implementers(objectTypes, iface)
    }

    /** `PossibleTypes.new(schema)`, given the values of `schema.types`. */
    constructor(schemaTypes: seq<TypeDefn>)
      ensures objectTypes == ObjectTypes(schemaTypes)
      ensures implementers == map[]
      ensures Valid()
    {
      objectTypes := ObjectTypes(schemaTypes);
      implementers := map[];
    }

    /** `possible_types(type_defn)`; raises for an input that is not a type. */
    method PossibleTypes(input: TypeInput) returns (r: Result<seq<GType>, string>)
      requires Valid()
      modifies this
      ensures Valid()
      ensures input.Foreign? ==> r.Failure?
      ensures input.Defn? ==> r == Success(PossibleTypesOf(objectTypes, input.t))
      ensures input.ClassBased? ==> r == Success(PossibleTypesOf(objectTypes, input.definition))
      ensures forall iface :: iface in old(implementers) ==> iface in implementers && implementers[iface] == old(implementers)[iface]
      ensures forall iface :: iface in implementers ==>
        iface in old(implementers) || (input.Defn? && input.t == Named(iface)) || (input.ClassBased? && input.definition == Named(iface))
    {
      var t: GType;
      match input {
        case Foreign => return Failure("Unexpected possible_types object");
        case Defn(d) => t := d;
        case ClassBased(d) => t := d;
      }
      if t.Named? && t.defn.kind == UNION {
        r := Success(AsTypes(t.defn.possibleTypes));
      } else if t.Named? && t.defn.kind == INTERFACE {
        if t.defn !in implementers {
          implementers := implementers[t.defn := Implementers(objectTypes, t.defn)];
        }
        r := Success(AsTypes(implementers[t.defn]));
      } else {
        r := Success([t]);
      }
    }
  }
}
