/** `Schema::Member::HasArguments`: a schema member (a field, a directive, an
    input type) registers its argument definitions by name and inherits those
    of the class it extends. `Schema::Argument` itself is not part of this
    model: an argument is its name, its type expression, its owner and the
    argument class that built it. */
module HasArguments {
  import opened Wrappers
  import opened Hashes

  /** The fallback argument class. */
  const DEFAULT_ARGUMENT_CLASS: string := "GraphQL8::Schema::Argument"

  datatype Argument = Argument(name: string, typeExpr: string, owner: ArgumentOwner, argumentClass: string)

  /** Merging two tables of arguments filed under their names gives one. */
  lemma MergeNamed(a: Hash<string, Argument>, b: Hash<string, Argument>)
    requires a.Valid() && b.Valid()
    requires forall k :: k in a.m ==> a.m[k].name == k
    requires forall k :: k in b.m ==> b.m[k].name == k
    ensures forall k :: k in a.Merge(b).m ==> a.Merge(b).m[k].name == k
  {
  }

  /** A member that has arguments. `superclass` is the class it inherits
      arguments from: `None` for an instance, or for a class whose
      superclass does not respond to `arguments`. */
  class ArgumentOwner {
    const superclass: Option<ArgumentOwner>
    /** This member and the classes above it. */
    ghost const Repr: set<object>
    ghost const depth: nat
    /** `own_arguments`: the arguments added here, by name. */
    var ownArguments: Hash<string, Argument>
    /** `@argument_class` */
    var ownArgumentClass: Option<string>

    /** Every argument is filed under its own name; the classes above are
        well formed and do not include this one. */
    ghost predicate Valid()
      reads Repr
      decreases depth
    {
      this in Repr && ownArguments.Valid() &&
      (forall k :: k in ownArguments.m ==> ownArguments.m[k].name == k) &&
      match superclass {
        case None => true
        case Some(s) => s in Repr && s.Repr <= Repr && this !in s.Repr && s.depth < depth && s.Valid()
      }
    }

    constructor(superclass: Option<ArgumentOwner>)
      requires superclass.Some? ==> superclass.value.Valid()
      ensures Valid() && fresh(this)
      ensures this.superclass == superclass
      ensures ownArguments.keys == [] && ownArgumentClass.None?
    {
      this.superclass := superclass;
      ownArguments := Empty();
      ownArgumentClass := None;
      match superclass {
        case None =>
          Repr := {this};
          depth := 0;
        case Some(s) =>
          Repr := {this} + s.Repr;
          depth := s.depth + 1;
      }
    }

    /** `arguments`: the inherited arguments merged with this member's own,
        which override them; inherited names keep their place. */
    function Arguments(): (r: Hash<string, Argument>)
      requires Valid()
      reads Repr
      ensures r.Valid()
      ensures forall k :: k in r.m ==> r.m[k].name == k
      ensures forall k :: k in ownArguments.m ==> r.Get(k) == ownArguments.Get(k)
      ensures superclass.Some? ==> |superclass.value.Arguments().keys| <= |r.keys|
      ensures superclass.Some? ==> r.keys[..|superclass.value.Arguments().keys|] == superclass.value.Arguments().keys
      decreases depth
    {
      var inherited := if superclass.Some? then superclass.value.Arguments() else Empty();
      MergeNamed(inherited, ownArguments);
      inherited.Merge(ownArguments)
    }

    /** `argument_class`: this member's own, else the nearest class above
        that set one, else `Schema::Argument`. */
    function ArgumentClass(): (r: string)
      requires Valid()
      reads Repr
      ensures ownArgumentClass.Some? ==> r == ownArgumentClass.value
      ensures ownArgumentClass.None? && superclass.Some? ==> r == superclass.value.ArgumentClass()
      ensures ownArgumentClass.None? && superclass.None? ==> r == DEFAULT_ARGUMENT_CLASS
      decreases depth
    {
      match ownArgumentClass {
        case Some(c) => c
        case None => if superclass.Some? then superclass.value.ArgumentClass() else DEFAULT_ARGUMENT_CLASS
      }
    }

    /** `argument_class(new_arg_class)`: sets the class when one is given;
        answers the one in effect. */
    method SetArgumentClass(newClass: Option<string>) returns (r: string)
      requires Valid()
      modifies this
      ensures Valid()
      ensures ownArgumentClass == if newClass.Some? then newClass else old(ownArgumentClass)
      ensures ownArguments == old(ownArguments)
      ensures r == ArgumentClass()
    {
      if newClass.Some? {
        ownArgumentClass := newClass;
      }
      r := ArgumentClass();
    }

    /** `add_argument(arg_defn)`: files the argument under its name,
        replacing one of the same name, and answers it. */
    method AddArgument(argDefn: Argument) returns (r: Argument)
      requires Valid()
      modifies this
      ensures Valid()
      ensures ownArguments == old(ownArguments).Put(argDefn.name, argDefn)
      ensures ownArgumentClass == old(ownArgumentClass)
      ensures r == argDefn
    {
      ownArguments := ownArguments.Put(argDefn.name, argDefn);
      r := argDefn;
    }

    /** `argument(name, type)`: builds an argument owned by this member with
        the argument class in effect, and adds it. */
    method DefineArgument(name: string, typeExpr: string) returns (r: Argument)
      requires Valid()
      modifies this
      ensures Valid()
      ensures r == Argument(name, typeExpr, this, old(ArgumentClass()))
      ensures ownArguments == old(ownArguments).Put(name, r)
      ensures ownArgumentClass == old(ownArgumentClass)
    {
      var argumentClass := ArgumentClass();
      var argDefn := Argument(name, typeExpr, this, argumentClass);
      r := AddArgument(argDefn);
    }

    /** A name this member does not define is looked up in the class
        above; without one there is nothing else. */
    lemma InheritedLookup(k: string)
      requires Valid() && k !in ownArguments.m
      ensures superclass.None? ==> Arguments().Get(k) == None
      ensures superclass.Some? ==> Arguments().Get(k) == superclass.value.Arguments().Get(k)
    {
      var inherited := if superclass.Some? then superclass.value.Arguments() else Empty();
      assert Arguments() == inherited.Merge(ownArguments);
    }

    /** The argument named `k` is the one on the nearest member, from this
        one upwards, that defines it. */
    lemma {:induction false} ArgumentsFromNearest(k: string)
      requires Valid()
      ensures Arguments().Get(k) == NearestArgument(k)
      decreases depth
    {
      if k !in ownArguments.m {
        InheritedLookup(k);
        if superclass.Some? {
          superclass.value.ArgumentsFromNearest(k);
        }
      }
    }

    ghost function NearestArgument(k: string): (r: Option<Argument>)
      requires Valid()
      reads Repr
      ensures r.Some? ==> r.value.name == k
      decreases depth
    {
      if k in ownArguments.m then Some(ownArguments.m[k])
      else if superclass.Some? then superclass.value.NearestArgument(k)
      else None
    }
  }
}
