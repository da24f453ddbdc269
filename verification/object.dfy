/** `Schema::Object`: an object class declares the interfaces it implements,
    inherits those of the object classes above it, merges the fields of
    legacy interfaces under its own, and builds a runtime `ObjectType`. */
module Objects {
  import opened Wrappers
  import opened Hashes
  import opened ValidationContexts
  import opened RubyArrays

  /** A field of a legacy (`define`-style) interface type. */
  datatype LegacyField = LegacyField(name: string, typeName: string)

  /** What `implements` may be given: a module, which must include
      `Schema::Interface`, or a legacy `InterfaceType` instance, which is not
      a module and carries its fields. */
  datatype InterfaceRef =
    | ModuleInterface(name: string, isInterface: bool)
    | LegacyInterface(name: string, fields: Hash<string, LegacyField>)

  /** A class-based field: one the class defines itself, or one built with
      `field_class.from_options(name, field: legacy_field)`. */
  datatype Field = ClassField(name: string, typeName: string) | FromLegacy(name: string, legacy: LegacyField)

  /** A runtime field definition: the name `to_graphql` gave it and the
      field it was built from. */
  datatype FieldDefn = FieldDefn(name: string, field: Field)

  /** `GraphQL8::ObjectType`, what `to_graphql` builds. */
  datatype ObjectTypeDefn = ObjectTypeDefn(name: string, interfaces: seq<InterfaceRef>, fields: Hash<string, FieldDefn>)

  /** The error `implements` raises for a module that is not an interface. */
  function NotInterfaceMessage(name: string): (r: string)
    ensures |r| == |name| + 97 && r[..|name|] == name
  {
    name + " cannot be implemented since it's not a GraphQL8 Interface." +
    " Use `include` for plain Ruby modules."
  }

  /** The first module among `ints` that is not an interface. */
  function FirstNonInterface(ints: seq<InterfaceRef>): (r: Option<string>)
    ensures r.None? <==> forall i :: 0 <= i < |ints| ==> !(ints[i].ModuleInterface? && !ints[i].isInterface)
    ensures r.Some? ==> exists i :: 0 <= i < |ints| && ints[i] == ModuleInterface(r.value, false)
  {
    if ints == [] then None
    else if ints[0].ModuleInterface? && !ints[0].isInterface then Some(ints[0].name)
    else
      var rest := FirstNonInterface(ints[1..]);
      assert forall i :: 0 < i < |ints| ==> ints[i] == ints[1..][i - 1];
      rest
  }

  /** `int_f`: the legacy interface's fields as class-based fields, under
      the same names in the same order. */
  function LegacyFields(fields: Hash<string, LegacyField>): (r: Hash<string, Field>)
    requires fields.Valid()
    ensures r.Valid() && r.keys == fields.keys
    ensures forall k :: r.Get(k) == if k in fields.m then Some(FromLegacy(k, fields.m[k])) else None
  {
    Hash(fields.keys, map k | k in fields.m :: FromLegacy(k, fields.m[k]))
  }

  /** The fields after folding in the legacy interfaces among `ints`, in
      order: `all_fields = int_f.merge(all_fields)`. */
  function WithLegacy(ints: seq<InterfaceRef>, all: Hash<string, Field>): (r: Hash<string, Field>)
    requires all.Valid()
    requires forall i :: 0 <= i < |ints| && ints[i].LegacyInterface? ==> ints[i].fields.Valid()
    ensures r.Valid()
  {
    if ints == [] then all
    else
      var init := WithLegacy(ints[..|ints| - 1], all);
      match ints[|ints| - 1]
      case LegacyInterface(_, fields) => LegacyFields(fields).Merge(init)
      case ModuleInterface(_, _) => init
  }

  /** The field a name gets from the first legacy interface among `ints`
      that has it. */
  function FirstLegacy(ints: seq<InterfaceRef>, k: string): Option<Field>
  {
    if ints == [] then None
    else if ints[0].LegacyInterface? && k in ints[0].fields.m then Some(FromLegacy(k, ints[0].fields.m[k]))
    else FirstLegacy(ints[1..], k)
  }

  /** The class's own fields win every clash; a name it lacks comes from the
      first legacy interface that has it. */
  lemma {:induction false} WithLegacyGet(ints: seq<InterfaceRef>, all: Hash<string, Field>, k: string)
    requires all.Valid()
    requires forall i :: 0 <= i < |ints| && ints[i].LegacyInterface? ==> ints[i].fields.Valid()
    ensures WithLegacy(ints, all).Get(k) == if k in all.m then all.Get(k) else FirstLegacy(ints, k)
  {
    if ints != [] {
      var init, last := ints[..|ints| - 1], ints[|ints| - 1];
      assert ints == init + [last];
      WithLegacyGet(init, all, k);
      FirstLegacySnoc(init, last, k);
      var prev := WithLegacy(init, all);
      match last {
        case LegacyInterface(_, fields) =>
          assert WithLegacy(ints, all) == LegacyFields(fields).Merge(prev);
        case ModuleInterface(_, _) =>
          assert WithLegacy(ints, all) == prev;
      }
    }
  }

  lemma {:induction false} FirstLegacySnoc(ints: seq<InterfaceRef>, last: InterfaceRef, k: string)
    ensures FirstLegacy(ints + [last], k) ==
      if FirstLegacy(ints, k).Some? then FirstLegacy(ints, k)
      else if last.LegacyInterface? && k in last.fields.m then Some(FromLegacy(k, last.fields.m[k]))
      else None
  {
    if ints == [] {
      assert ([] + [last])[1..] == [];
    } else {
      assert (ints + [last])[0] == ints[0];
      assert (ints + [last])[1..] == ints[1..] + [last];
      FirstLegacySnoc(ints[1..], last, k);
    }
  }

  /** The runtime definitions of `fields`, keyed by the name each
      definition carries (the caller walks the fields' own keys, so the
      lookup always succeeds). */
  function DefinitionsByName(fields: Hash<string, Field>, ks: seq<string>, definitionName: Field -> string): (r: Hash<string, FieldDefn>)
    ensures r.Valid()
  {
    if ks == [] then Empty()
    else
      var init := DefinitionsByName(fields, ks[..|ks| - 1], definitionName);
      match fields.Get(ks[|ks| - 1])
      case None => init
      case Some(f) => init.Put(definitionName(f), FieldDefn(definitionName(f), f))
  }

  lemma DefinitionsByNameSnoc(fields: Hash<string, Field>, ks: seq<string>, i: nat, definitionName: Field -> string)
    requires i < |ks| && ks[i] in fields.m
    ensures var f := fields.m[ks[i]];
      DefinitionsByName(fields, ks[..i + 1], definitionName) ==
      DefinitionsByName(fields, ks[..i], definitionName).Put(definitionName(f), FieldDefn(definitionName(f), f))
  {
    assert ks[..i + 1][..i] == ks[..i];
  }

  /** The loop of `to_graphql`: each field's runtime definition, in the
      fields' order, filed under the name it carries. */
  method BuildDefinitions(fields: Hash<string, Field>, definitionName: Field -> string) returns (defns: Hash<string, FieldDefn>)
    requires fields.Valid()
    ensures defns == DefinitionsByName(fields, fields.keys, definitionName)
  {
    defns := Empty();
    var ks := fields.keys;
    for i := 0 to |ks|
      invariant defns == DefinitionsByName(fields, ks[..i], definitionName)
    {
      DefinitionsByNameSnoc(fields, ks, i, definitionName);
      var fieldDefn := FieldDefn(definitionName(fields.m[ks[i]]), fields.m[ks[i]]);
      defns := defns.Put(fieldDefn.name, fieldDefn);
    }
    assert ks[..|ks|] == ks;
  }

  /** A runtime field is registered under a name iff some field's
      definition carries that name; each entry carries its own key. */
  lemma {:induction false} DefinitionsByNameKeys(fields: Hash<string, Field>, ks: seq<string>, definitionName: Field -> string, n: string)
    requires forall k :: k in ks ==> k in fields.m
    ensures n in DefinitionsByName(fields, ks, definitionName).m <==> exists k :: k in ks && definitionName(fields.m[k]) == n
    ensures n in DefinitionsByName(fields, ks, definitionName).m ==> DefinitionsByName(fields, ks, definitionName).m[n].name == n
  {
    if ks != [] {
      var init := ks[..|ks| - 1];
      DefinitionsByNameKeys(fields, init, definitionName, n);
      assert forall k :: k in ks <==> k in init || k == ks[|ks| - 1];
    }
  }

  /** When every field's definition keeps the field's name, the runtime type
      has exactly the class's fields, in the same order. */
  lemma {:induction false} DefinitionsKeepNames(fields: Hash<string, Field>, ks: seq<string>, definitionName: Field -> string)
    requires forall k :: k in ks ==> k in fields.m && definitionName(fields.m[k]) == k
    requires forall i, j :: 0 <= i < j < |ks| ==> ks[i] != ks[j]
    ensures DefinitionsByName(fields, ks, definitionName).keys == ks
  {
    if ks != [] {
      var init := ks[..|ks| - 1];
      DefinitionsKeepNames(fields, init, definitionName);
      assert ks[|ks| - 1] !in init;
      assert DefinitionsByName(fields, init, definitionName).Valid();
    }
  }

  class ObjectType {
    const graphqlName: string
    const superclass: Option<ObjectType>
    /** This class and the object classes above it. */
    ghost const Repr: set<object>
    ghost const depth: nat
    /** `own_interfaces` */
    var ownInterfaces: seq<InterfaceRef>

    ghost predicate Valid()
      reads Repr
      decreases depth
    {
      this in Repr &&
      match superclass {
        case None => true
        case Some(s) => s in Repr && s.Repr <= Repr && this !in s.Repr && s.depth < depth && s.Valid()
      }
    }

    constructor(graphqlName: string, superclass: Option<ObjectType>)
      requires superclass.Some? ==> superclass.value.Valid()
      ensures Valid() && fresh(this)
      ensures this.graphqlName == graphqlName && this.superclass == superclass
      ensures ownInterfaces == []
    {
      this.graphqlName := graphqlName;
      this.superclass := superclass;
      ownInterfaces := [];
      match superclass {
        case None =>
          Repr := {this};
          depth := 0;
        case Some(s) =>
          Repr := {this} + s.Repr;
          depth := s.depth + 1;
      }
    }

    /** `interfaces`: this class's own, then those of the classes above. */
    function Interfaces(): (r: seq<InterfaceRef>)
      requires Valid()
      reads Repr
      ensures |ownInterfaces| <= |r| && r[..|ownInterfaces|] == ownInterfaces
      ensures superclass.None? ==> r == ownInterfaces
      ensures superclass.Some? ==> r[|ownInterfaces|..] == superclass.value.Interfaces()
      decreases depth
    {
      ownInterfaces + if superclass.Some? then superclass.value.Interfaces() else []
    }

    /** `implements(*new_interfaces)`: raises at the first module that is
        not an interface, leaving the list as it was; otherwise appends all
        of them in the given order. */
    method Implements(newInterfaces: seq<InterfaceRef>) returns (outcome: Outcome)
      requires Valid()
      modifies this
      ensures Valid()
      ensures outcome == match FirstNonInterface(newInterfaces) {
        case Some(name) => Raised(NotInterfaceMessage(name))
        case None => Returned
      }
      ensures outcome.Raised? ==> ownInterfaces == old(ownInterfaces)
      ensures outcome.Returned? ==> ownInterfaces == old(ownInterfaces) + newInterfaces
    {
      var bad := FindNonInterface(newInterfaces);
      if bad.Some? {
        return Raised(NotInterfaceMessage(bad.value));
      }
      ownInterfaces := ownInterfaces + newInterfaces;
      outcome := Returned;
    }

    /** `fields`: `allFields` is what the inherited `fields` answers; the
        fields of each legacy interface are merged under them, in the order
        of `interfaces`. */
    method Fields(allFields: Hash<string, Field>) returns (r: Hash<string, Field>)
      requires Valid() && allFields.Valid()
      requires forall i :: 0 <= i < |Interfaces()| && Interfaces()[i].LegacyInterface? ==> Interfaces()[i].fields.Valid()
      ensures r == WithLegacy(Interfaces(), allFields)
    {
      var ints := Interfaces();
      r := MergeLegacy(ints, allFields);
    }

    /** `to_graphql`: one runtime field per field of `fields` (the inherited
        fields, given as `allFields`, with the legacy interfaces' fields
        merged under them), registered under the name its definition
        carries. `definitionName` gives that name (`Schema::Field#to_graphql`
        is not part of this model). */
    method ToGraphql(allFields: Hash<string, Field>, definitionName: Field -> string) returns (t: ObjectTypeDefn)
      requires Valid() && allFields.Valid()
      requires forall i :: 0 <= i < |Interfaces()| && Interfaces()[i].LegacyInterface? ==> Interfaces()[i].fields.Valid()
      ensures t.name == graphqlName && t.interfaces == Interfaces()
      ensures var fields := WithLegacy(Interfaces(), allFields);
        t.fields == DefinitionsByName(fields, fields.keys, definitionName)
    {
      var fields := Fields(allFields);
      var defns := BuildDefinitions(fields, definitionName);
      t := ObjectTypeDefn(graphqlName, Interfaces(), defns);
    }
  }

  /** `int.fields.each { |name, legacy_field| int_f[name] = ... }` */
  method BuildLegacyFields(fields: Hash<string, LegacyField>) returns (intF: Hash<string, Field>)
    requires fields.Valid()
    ensures intF == LegacyFields(fields)
  {
    intF := Empty();
    var ks := fields.keys;
    for i := 0 to |ks|
      invariant intF.Valid() && intF.keys == ks[..i]
      invariant intF.m == map k | k in ks[..i] :: FromLegacy(k, fields.m[k])
    {
      TakeSnoc(ks, i);
      intF := intF.Put(ks[i], FromLegacy(ks[i], fields.m[ks[i]]));
    }
    assert ks[..|ks|] == ks;
  }

  /** The loop of `fields` over `interfaces`. */
  method MergeLegacy(ints: seq<InterfaceRef>, allFields: Hash<string, Field>) returns (r: Hash<string, Field>)
    requires allFields.Valid()
    requires forall i :: 0 <= i < |ints| && ints[i].LegacyInterface? ==> ints[i].fields.Valid()
    ensures r == WithLegacy(ints, allFields)
  {
    r := allFields;
    for i := 0 to |ints|
      invariant r == WithLegacy(ints[..i], allFields)
    {
      assert ints[..i + 1][..i] == ints[..i];
      match ints[i] {
        case LegacyInterface(_, legacyFields) =>
          var intF := BuildLegacyFields(legacyFields);
          r := intF.Merge(r);
        case ModuleInterface(_, _) =>
      }
    }
    assert ints[..|ints|] == ints;
  }

  /** The check of `implements`, module by module. */
  method FindNonInterface(ints: seq<InterfaceRef>) returns (r: Option<string>)
    ensures r == FirstNonInterface(ints)
  {
    for i := 0 to |ints|
      invariant FirstNonInterface(ints[..i]).None?
    {
      FirstNonInterfaceSnoc(ints[..i], ints[i]);
      TakeSnoc(ints, i);
      if ints[i].ModuleInterface? && !ints[i].isInterface {
        FirstNonInterfaceAppend(ints[..i + 1], ints[i + 1..]);
        TakeDrop(ints, i + 1);
        return Some(ints[i].name);
      }
    }
    assert ints[..|ints|] == ints;
    r := None;
  }

  lemma {:induction false} FirstNonInterfaceSnoc(ints: seq<InterfaceRef>, last: InterfaceRef)
    requires FirstNonInterface(ints).None?
    ensures FirstNonInterface(ints + [last]) == if last.ModuleInterface? && !last.isInterface then Some(last.name) else None
  {
    if ints == [] {
      assert [] + [last] == [last];
    } else {
      assert (ints + [last])[1..] == ints[1..] + [last];
      FirstNonInterfaceSnoc(ints[1..], last);
    }
  }

  lemma {:induction false} FirstNonInterfaceAppend(a: seq<InterfaceRef>, b: seq<InterfaceRef>)
    requires FirstNonInterface(a).Some?
    ensures FirstNonInterface(a + b) == FirstNonInterface(a)
  {
    assert (a + b)[0] == a[0];
    if !(a[0].ModuleInterface? && !a[0].isInterface) {
      assert (a + b)[1..] == a[1..] + b;
      FirstNonInterfaceAppend(a[1..], b);
    }
  }
}
