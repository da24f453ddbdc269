/** `Schema::Enum` and `Schema::EnumValue`: an enum class registers its values
    by name, inherits the values of the enum classes above it, and builds a
    runtime `EnumType` from the merged table. */
module Enums {
  import opened Wrappers
  import opened Hashes
  import opened RubyValues

  /** The value class `Schema::Enum` itself sets. */
  const DEFAULT_ENUM_VALUE_CLASS: string := "GraphQL8::Schema::EnumValue"

  /** `GraphQL8::EnumType::EnumValue`, what `EnumValue#to_graphql` builds. */
  datatype EnumValueDefn = EnumValueDefn(name: string, description: Option<string>, value: RValue, deprecationReason: Option<string>)

  /** `GraphQL8::EnumType`, what `Enum.to_graphql` builds: the values in the
      order they were added. */
  datatype EnumTypeDefn = EnumTypeDefn(name: string, description: Option<string>, values: seq<EnumValueDefn>)

  /** The runtime value of an enum value: the given one when it is truthy,
      else the value's own name. */
  function RuntimeValue(graphqlName: string, value: RValue): (r: RValue)
    ensures Truthy(r)
    ensures Truthy(value) ==> r == value
  {
    if Truthy(value) then value else RStr(graphqlName)
  }

  /** A positional description wins over the `description:` keyword. */
  function InitialDescription(desc: Option<string>, description: Option<string>): (r: Option<string>)
    ensures r.None? <==> desc.None? && description.None?
    ensures desc.Some? ==> r == desc
  {
    if desc.Some? then desc else description
  }

  class EnumValue {
    const graphqlName: string
    /** The enum class that defined this value. */
    const owner: EnumType
    var description: Option<string>
    var value: RValue
    var deprecationReason: Option<string>

    /** `EnumValue.new(graphql_name, desc, owner:, description:, value:, deprecation_reason:)`;
        an absent `value:` is `nil`. */
    constructor(graphqlName: string, desc: Option<string>, owner: EnumType,
                description: Option<string>, value: RValue, deprecationReason: Option<string>)
      ensures this.graphqlName == graphqlName && this.owner == owner
      ensures this.description == InitialDescription(desc, description)
      ensures this.value == RuntimeValue(graphqlName, value)
      ensures this.deprecationReason == deprecationReason
    {
      this.graphqlName := graphqlName;
      this.owner := owner;
      this.description := if desc.Some? then desc else description;
      this.value := if Truthy(value) then value else RStr(graphqlName);
      this.deprecationReason := deprecationReason;
    }

    /** `description(new_desc = nil)`: replaces the description only when
        one is given, and answers the current one. */
    method Description(newDesc: Option<string>) returns (r: Option<string>)
      modifies this
      ensures description == if newDesc.Some? then newDesc else old(description)
      ensures r == description
      ensures value == old(value) && deprecationReason == old(deprecationReason)
    {
      if newDesc.Some? {
        description := newDesc;
      }
      r := description;
    }

    /** `value(new_val = nil)`: replaces the value only when the new one is
        truthy, and answers the current one. */
    method Value(newVal: RValue) returns (r: RValue)
      modifies this
      ensures value == if Truthy(newVal) then newVal else old(value)
      ensures r == value
      ensures description == old(description) && deprecationReason == old(deprecationReason)
    {
      if Truthy(newVal) {
        value := newVal;
      }
      r := value;
    }

    /** `to_graphql`: the runtime value carries this value's name,
        description, value and deprecation reason. */
    function ToGraphql(): (r: EnumValueDefn)
      reads this
      ensures r.name == graphqlName && r.description == description
      ensures r.value == value && r.deprecationReason == deprecationReason
    {
      EnumValueDefn(graphqlName, description, value, deprecationReason)
    }
  }

  /** The runtime values of `vs`, in order. */
  function Definitions(vs: seq<EnumValue>): (r: seq<EnumValueDefn>)
    reads set v | v in vs
    ensures |r| == |vs|
    ensures forall i :: 0 <= i < |vs| ==> r[i] == vs[i].ToGraphql()
  {
    if vs == [] then [] else Definitions(vs[..|vs| - 1]) + [vs[|vs| - 1].ToGraphql()]
  }

  /** `values.each { |name, val| enum_type.add_value(val.to_graphql) }` */
  method AddValues(vs: seq<EnumValue>) returns (added: seq<EnumValueDefn>)
    ensures added == Definitions(vs)
  {
    added := [];
    for i := 0 to |vs|
      invariant added == Definitions(vs[..i])
    {
      assert vs[..i + 1][..i] == vs[..i];
      added := added + [vs[i].ToGraphql()];
    }
    assert vs[..|vs|] == vs;
  }

  /** The runtime values of a table whose entries are filed under their
      own names carry those names, in the table's order. */
  lemma DefinitionNames(h: Hash<string, EnumValue>)
    requires h.Valid() && forall k :: k in h.m ==> h.m[k].graphqlName == k
    ensures |Definitions(h.Values())| == |h.keys|
    ensures forall i :: 0 <= i < |h.keys| ==> Definitions(h.Values())[i].name == h.keys[i]
  {
    var vs := h.Values();
    forall i | 0 <= i < |h.keys|
      ensures Definitions(vs)[i].name == h.keys[i]
    {
      assert vs[i] == h.m[h.keys[i]];
    }
  }

  /** Merging two tables of values filed under their names gives one. */
  lemma MergeNamed(a: Hash<string, EnumValue>, b: Hash<string, EnumValue>)
    requires a.Valid() && b.Valid()
    requires forall k :: k in a.m ==> a.m[k].graphqlName == k
    requires forall k :: k in b.m ==> b.m[k].graphqlName == k
    ensures forall k :: k in a.Merge(b).m ==> a.Merge(b).m[k].graphqlName == k
  {
  }

  /** An enum class. `superclass` is the enum class it inherits from; `None`
      for a direct subclass of `Schema::Enum`, whose own table is empty. */
  class EnumType {
    const graphqlName: string
    const description: Option<string>
    const superclass: Option<EnumType>
    /** This class and the enum classes above it. */
    ghost const Repr: set<object>
    ghost const depth: nat
    /** `own_values`: the values defined on this class, by name. */
    var ownValues: Hash<string, EnumValue>
    /** `@enum_value_class` */
    var ownEnumValueClass: Option<string>

    /** Every value is filed under its own name and was defined by this
        class; the classes above are well formed and do not include this one. */
    ghost predicate Valid()
      reads Repr
      decreases depth
    {
      this in Repr && ownValues.Valid() &&
      (forall k :: k in ownValues.m ==> ownValues.m[k].graphqlName == k && ownValues.m[k].owner == this) &&
      match superclass {
        case None => true
        case Some(s) => s in Repr && s.Repr <= Repr && this !in s.Repr && s.depth < depth && s.Valid()
      }
    }

    constructor(graphqlName: string, description: Option<string>, superclass: Option<EnumType>)
      requires superclass.Some? ==> superclass.value.Valid()
      ensures Valid() && fresh(this)
      ensures this.graphqlName == graphqlName && this.superclass == superclass
      ensures ownValues.keys == [] && ownEnumValueClass.None?
    {
      this.graphqlName := graphqlName;
      this.description := description;
      this.superclass := superclass;
      ownValues := Empty();
      ownEnumValueClass := None;
      match superclass {
        case None =>
          Repr := {this};
          depth := 0;
        case Some(s) =>
          Repr := {this} + s.Repr;
          depth := s.depth + 1;
      }
    }

    /** `values`: the inherited values merged with this class's own, which
        take precedence; inherited names keep their place and new names
        follow. */
    function Values(): (r: Hash<string, EnumValue>)
      requires Valid()
      reads Repr
      ensures r.Valid()
      ensures forall k :: k in r.m ==> r.m[k].graphqlName == k
      ensures forall k :: k in ownValues.m ==> r.Get(k) == ownValues.Get(k)
      ensures superclass.Some? ==> |superclass.value.Values().keys| <= |r.keys|
      ensures superclass.Some? ==> r.keys[..|superclass.value.Values().keys|] == superclass.value.Values().keys
      decreases depth
    {
      var inherited := if superclass.Some? then superclass.value.Values() else Empty();
      MergeNamed(inherited, ownValues);
      inherited.Merge(ownValues)
    }

    /** `enum_value_class`: this class's own, else the nearest one above. */
    function EnumValueClass(): (r: string)
      requires Valid()
      reads Repr
      ensures ownEnumValueClass.Some? ==> r == ownEnumValueClass.value
      ensures ownEnumValueClass.None? && superclass.Some? ==> r == superclass.value.EnumValueClass()
      ensures ownEnumValueClass.None? && superclass.None? ==> r == DEFAULT_ENUM_VALUE_CLASS
      decreases depth
    {
      match ownEnumValueClass {
        case Some(c) => c
        case None => if superclass.Some? then superclass.value.EnumValueClass() else DEFAULT_ENUM_VALUE_CLASS
      }
    }

    /** `enum_value_class(new_enum_value_class)`: sets the class when one is
        given and answers the one in effect. */
    method SetEnumValueClass(newClass: Option<string>) returns (r: string)
      requires Valid()
      modifies this
      ensures Valid()
      ensures ownEnumValueClass == if newClass.Some? then newClass else old(ownEnumValueClass)
      ensures ownValues == old(ownValues)
      ensures r == EnumValueClass()
    {
      if newClass.Some? {
        ownEnumValueClass := newClass;
      }
      r := EnumValueClass();
    }

    /** `value(graphql_name, desc, description:, value:, deprecation_reason:)`:
        builds a value owned by this class and files it under its name,
        replacing an earlier value of that name. */
    method DefineValue(graphqlName: string, desc: Option<string>, description: Option<string>,
                       value: RValue, deprecationReason: Option<string>)
      requires Valid()
      modifies this
      ensures Valid()
      ensures graphqlName in ownValues.m && fresh(ownValues.m[graphqlName])
      ensures ownValues == old(ownValues).Put(graphqlName, ownValues.m[graphqlName])
      ensures ownValues.m[graphqlName].ToGraphql() ==
        EnumValueDefn(graphqlName, InitialDescription(desc, description), RuntimeValue(graphqlName, value), deprecationReason)
      ensures ownEnumValueClass == old(ownEnumValueClass)
    {
      var v := new EnumValue(graphqlName, desc, this, description, value, deprecationReason);
      ownValues := ownValues.Put(v.graphqlName, v);
    }

    /** `to_graphql`: one runtime value per entry of `values`, in order, so
        each name once. */
    method ToGraphql() returns (t: EnumTypeDefn)
      requires Valid()
      ensures t.name == graphqlName && t.description == description
      ensures t.values == Definitions(Values().Values())
      ensures |t.values| == |Values().keys|
      ensures forall i :: 0 <= i < |t.values| ==> t.values[i].name == Values().keys[i]
    {
      var values := Values();
      var added := AddValues(values.Values());
      DefinitionNames(values);
      t := EnumTypeDefn(graphqlName, description, added);
    }

    /** A name this class does not define is looked up in the class above;
        a direct subclass of `Schema::Enum` has nothing else. */
    lemma InheritedLookup(k: string)
      requires Valid() && k !in ownValues.m
      ensures superclass.None? ==> Values().Get(k) == None
      ensures superclass.Some? ==> Values().Get(k) == superclass.value.Values().Get(k)
    {
      var inherited := if superclass.Some? then superclass.value.Values() else Empty();
      assert Values() == inherited.Merge(ownValues);
    }

    /** A name is defined on an enum iff this class or a class above defines
        it, and the nearest definition wins. */
    lemma {:induction false} ValuesFromNearest(k: string)
      requires Valid()
      ensures Values().Get(k) == NearestValue(k)
      decreases depth
    {
      if k !in ownValues.m {
        InheritedLookup(k);
        if superclass.Some? {
          superclass.value.ValuesFromNearest(k);
        }
      }
    }

    /** The value named `k` on the nearest class, from this one upwards,
        that defines it. */
    ghost function NearestValue(k: string): (r: Option<EnumValue>)
      requires Valid()
      reads Repr
      ensures r.Some? ==> r.value.graphqlName == k
      decreases depth
    {
      if k in ownValues.m then Some(ownValues.m[k])
      else if superclass.Some? then superclass.value.NearestValue(k)
      else None
    }
  }
}
