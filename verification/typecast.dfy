/** `Typecast.subtype?`: whether a value of `child` may be used where
    `parent` is expected. */
module Typecast {
  import opened GraphTypes

  /** Each recursive call strips one wrapper from the child type. A subtype
      never has fewer wrappers than its parent: a non-null wrapper may be
      added, none taken away. */
  predicate Subtype(parent: GType, child: GType)
    ensures Subtype(parent, child) ==> Depth(child) >= Depth(parent)
    decreases Depth(child)
  {
    if parent == child then true
    else if child.NonNull? then
      if parent.NonNull? then Subtype(parent.ofType, child.ofType)
      else Subtype(parent, child.ofType)
    else
      match parent
      case Named(p) =>
        if p.kind == INTERFACE then child.Named? && child.defn.kind == OBJECT && p in child.defn.interfaces
        else if p.kind == UNION then child.Named? && child.defn in p.possibleTypes
        else false
      case ListOf(pInner) =>
        child.ListOf? && Subtype(pInner, child.ofType)
      case NonNull(_) => false
  }

  lemma SubtypeReflexive(t: GType)
    ensures Subtype(t, t)
  {
  }

  /** A nullable child never fits a non-null parent. */
  lemma NullableNotUnderNonNull(parent: GType, child: GType)
    requires parent.NonNull? && !child.NonNull?
    ensures !Subtype(parent, child)
  {
  }

  /** A non-null child fits wherever its nullable form fits, with a non-null
      parent's wrapper matched against the child's. */
  lemma NonNullChild(parent: GType, child: GType)
    ensures Subtype(parent, NonNull(child)) <==>
      Subtype(if parent.NonNull? then parent.ofType else parent, child)
  {
  }

  /** Dropping a non-null wrapper from the parent keeps a subtype a subtype. */
  lemma {:induction false} RelaxParent(parent: GType, child: GType)
    requires Subtype(NonNull(parent), child)
    ensures Subtype(parent, child)
    decreases Depth(child)
  {
    if NonNull(parent) == child {
      BelowItsNonNull(parent);
    } else {
      assert child.NonNull?;
      var c := child.ofType;
      assert Subtype(parent, c);
      if parent.NonNull? && parent != child {
        RelaxParent(parent.ofType, c);
      }
    }
  }

  /** A type accepts its own non-null form. */
  lemma {:induction false} BelowItsNonNull(t: GType)
    ensures Subtype(t, NonNull(t))
    decreases Depth(t)
  {
    if t.NonNull? {
      BelowItsNonNull(t.ofType);
    }
  }

  /** Any subtype stays a subtype when made non-null. */
  lemma StrengthenChild(parent: GType, child: GType)
    requires Subtype(parent, child)
    ensures Subtype(parent, NonNull(child))
  {
    NonNullChild(parent, child);
    if parent.NonNull? {
      RelaxParent(parent.ofType, child);
    }
  }

  /** Lists are covariant. */
  lemma ListCovariant(parent: GType, child: GType)
    ensures Subtype(ListOf(parent), ListOf(child)) <==> Subtype(parent, child)
  {
    if parent == child {
      SubtypeReflexive(parent);
    }
  }

  /** Subtyping never relates types of different list nesting, so a non-list
      child is never a subtype of a list parent. */
  lemma {:induction false} SubtypeKeepsListDepth(parent: GType, child: GType)
    requires Subtype(parent, child)
    ensures ListDepth(parent) == ListDepth(child)
    decreases Depth(child)
  {
    if parent == child {
    } else if child.NonNull? {
      if parent.NonNull? {
        SubtypeKeepsListDepth(parent.ofType, child.ofType);
      } else {
        SubtypeKeepsListDepth(parent, child.ofType);
      }
    } else if parent.ListOf? {
      SubtypeKeepsListDepth(parent.ofType, child.ofType);
    }
  }

  /** Scalar, enum, object and input parents accept only themselves, possibly
      made non-null. */
  lemma {:induction false} ConcreteParentAcceptsOnlyItself(parent: GType, child: GType)
    requires parent.Named? && !parent.IsAbstract()
    requires Subtype(parent, child)
    ensures StripNonNull(child) == parent
    decreases Depth(child)
  {
    if parent != child {
      ConcreteParentAcceptsOnlyItself(parent, child.ofType);
    }
  }

  /** The type under all outer non-null wrappers. */
  function StripNonNull(t: GType): GType {
    if t.NonNull? then StripNonNull(t.ofType) else t
  }

  /** Every union in the type lists only object types as its members. */
  predicate UnionsHoldObjects(t: GType) {
    match t
    case Named(d) => d.kind == UNION ==> forall m :: m in d.possibleTypes ==> m.kind == OBJECT
    case NonNull(inner) => UnionsHoldObjects(inner)
    case ListOf(inner) => UnionsHoldObjects(inner)
  }

  /** In a schema whose unions hold object types, subtyping is transitive. */
  lemma {:induction false} SubtypeTransitive(a: GType, b: GType, c: GType)
    requires UnionsHoldObjects(a)
    requires Subtype(a, b) && Subtype(b, c)
    ensures Subtype(a, c)
    decreases Depth(c)
  {
    if a == b || b == c {
    } else if c.NonNull? {
      if b.NonNull? {
        if a.NonNull? {
          SubtypeTransitive(a.ofType, b.ofType, c.ofType);
          if a == c { SubtypeReflexive(a); }
        } else {
          SubtypeTransitive(a, b.ofType, c.ofType);
        }
      } else {
        assert !a.NonNull?;
        SubtypeTransitive(a, b, c.ofType);
      }
    } else {
      assert !b.NonNull?;
      assert !a.NonNull?;
      match a
      case Named(_) =>
      case ListOf(aInner) =>
        assert b.ListOf? && c.ListOf?;
        SubtypeTransitive(aInner, b.ofType, c.ofType);
    }
  }
}
