/** `Schema::Member::BuildType`: the type-expression parser used by the
    class-based schema definition (`"[T!]!"`, `[T, null: true]`, classes and
    type objects), and the string helpers `to_type_name`, `camelize` and
    `underscore`. */
module BuildType {
  import opened Wrappers
  import opened RubyStrings
  import opened GraphTypes

  const LIST_TYPE_ERROR: string := "Use an array of [T] or [T, null: true] for list types; other arrays are not supported"

  /** What `constantize(name)` finds: nothing (Ruby raises NameError), a type
      object, a class or module that responds to `graphql_definition`, some
      other module, or a constant of another kind. */
  datatype Constant = Undefined | ConstType(t: GType) | ConstClass(t: GType) | ConstModule | ConstOther

  /** Literals that may appear as option values in `[T, null: true]`. */
  datatype Literal = LitTrue | LitOther

  /** The inputs `parse_type` and `to_type_name` receive. `TypeObj` is a
      legacy or late-bound type object; `WrapperObj` a class-based
      `Schema::List` or `Schema::NonNull` instance, which is neither a type
      object nor a module; `ClassWithDefn` a type class or module (it responds
      to `graphql_definition` and `graphql_name`); `ClassPlain` any other
      class, by its name; `Options` a keyword hash such as `null: true`. */
  datatype TypeExpr =
    | Str(s: string)
    | TypeObj(t: GType)
    | WrapperObj(t: GType)
    | ClassWithDefn(t: GType)
    | ClassPlain(name: string)
    | Arr(items: seq<TypeExpr>)
    | Options(entries: seq<(string, Literal)>)
    | FalseExpr
    | OtherExpr

  datatype BuildError =
    | ListTypeError
    | FalseGiven
    | UnexpectedClass(name: string)
    | UnexpectedInput
    | UndefinedConstant(name: string)
    | NoMethod
    | UnhandledInput

  function ErrorMessage(e: BuildError): string {
    match e
    case ListTypeError => LIST_TYPE_ERROR
    case FalseGiven => "Received `false` instead of a type, maybe a `!` should be replaced with `null: true` (for fields) or `required: true` (for arguments)"
    case UnexpectedClass(name) => "Unexpected class/module found for GraphQL8 type: " + name + " (must be type definition class/module)"
    case UnexpectedInput => "Unexpected type input"
    case UndefinedConstant(name) => "uninitialized constant " + name
    case NoMethod => "undefined method"
    case UnhandledInput => "Unhandled to_type_name input"
  }

  /** The built-in scalars named by strings. */
  function BuiltinScalar(s: string): Option<GType> {
    if s == "String" then Some(Scalar("String"))
    else if s == "Int" || s == "Integer" then Some(Scalar("Int"))
    else if s == "Float" then Some(Scalar("Float"))
    else if s == "Boolean" then Some(Scalar("Boolean"))
    else if s == "ID" then Some(Scalar("ID"))
    else None
  }

  /** `/\A\[.*\]\Z/`: `.` excludes a newline and `\Z` also matches before a
      final newline. */
  predicate ListMatch(s: string) {
    |s| >= 2 && s[0] == '[' &&
    ((s[|s| - 1] == ']' && '\n' !in s[1..|s| - 1]) ||
     (|s| >= 3 && s[|s| - 1] == '\n' && s[|s| - 2] == ']' && '\n' !in s[1..|s| - 2]))
  }

  /** `/.*!\Z/` */
  predicate BangMatch(s: string) {
    (|s| >= 1 && s[|s| - 1] == '!') || (|s| >= 2 && s[|s| - 2] == '!' && s[|s| - 1] == '\n')
  }

  /** The end of a `parse_type` call: the list wrapper first, then non-null. */
  function Finish(base: Result<GType, BuildError>, listType: bool, nullable: bool): (r: Result<GType, BuildError>)
    ensures r.Failure? <==> base.Failure?
    ensures r.Failure? ==> r.error == base.error
    ensures r.Success? ==> Unwrap(r.value) == Unwrap(base.value)
    ensures r.Success? && !nullable ==> r.value.NonNull?
  {
    match base
    case Failure(e) => Failure(e)
    case Success(t) =>
      var t1 := if listType then ListOf(t) else t;
      Success(if !nullable then NonNull(t1) else t1)
  }

  /** The type a constant stands for in the String branch. */
  function FromConstant(s: string, c: Constant): Result<GType, BuildError> {
    match c
    case Undefined => Failure(UndefinedConstant(s))
    case ConstType(t) => Success(t)
    case ConstClass(t) => Success(t)
    case ConstModule => Failure(UnexpectedClass(s))
    case ConstOther => Failure(UnexpectedInput)
  }

  /** `parse_type(type_expr, null:)` for a String. With `null: false` the
      type is non-null; the string form raises only for a name that does not
      resolve to a type. */
  function ParseStr(s: string, nullable: bool, constantize: string -> Constant): (r: Result<GType, BuildError>)
    ensures r.Success? && !nullable ==> r.value.NonNull?
    ensures r.Failure? ==> r.error.UndefinedConstant? || r.error.UnexpectedClass? || r.error == UnexpectedInput
    decreases |s|
  {
    if BuiltinScalar(s).Some? then Finish(Success(BuiltinScalar(s).value), false, nullable)
    else if ListMatch(s) then Finish(ParseStr(s[1..|s| - 1], false, constantize), true, nullable)
    else if BangMatch(s) then Finish(ParseStr(s[..|s| - 1], true, constantize), false, false)
    else Finish(FromConstant(s, constantize(s)), false, nullable)
  }

  /** `parse_type(type_expr, null:)`. With `null: false` the type is
      non-null; a type object or type class always parses, to a type around
      its own named type; an array parses to a list; a class-based wrapper
      instance and `false` raise. */
  function ParseType(e: TypeExpr, nullable: bool, constantize: string -> Constant): (r: Result<GType, BuildError>)
    ensures r.Success? && !nullable ==> r.value.NonNull?
    ensures e.TypeObj? || e.ClassWithDefn? ==> r.Success? && Unwrap(r.value) == Unwrap(e.t)
    ensures r.Success? && e.Arr? ==> (if nullable then r.value else r.value.ofType).ListOf?
    ensures e.WrapperObj? ==> r == Failure(UnexpectedInput)
    ensures e.FalseExpr? ==> r == Failure(FalseGiven)
  {
    match e
    case Str(s) => ParseStr(s, nullable, constantize)
    case TypeObj(t) => Finish(Success(t), false, nullable)
    case Arr(items) =>
      if |items| == 1 then Finish(ParseType(items[0], false, constantize), true, nullable)
      else if |items| == 2 then
        match items[1]
        case Options(entries) =>
          if entries != [("null", LitTrue)] then Failure(ListTypeError)
          else Finish(ParseType(items[0], true, constantize), true, nullable)
        case _ => Failure(NoMethod)
      else Failure(ListTypeError)
    case ClassWithDefn(t) => Finish(Success(t), false, nullable)
    case ClassPlain(name) => Finish(ParseStr(name, true, constantize), false, nullable)
    case FalseExpr => Failure(FalseGiven)
    case WrapperObj(_) => Failure(UnexpectedInput)
    case Options(_) => Failure(UnexpectedInput)
    case OtherExpr => Failure(UnexpectedInput)
  }

  /** `parse_type` on a String, written as the source writes it: the locals
      `list_type`, `null` and `return_type` are set by the case analysis and
      then the wrappers are applied. */
  method ParseStringType(s: string, nullArg: bool, constantize: string -> Constant) returns (r: Result<GType, BuildError>)
    ensures r == ParseStr(s, nullArg, constantize)
    decreases |s|
  {
    var listType := false;
    var nullable := nullArg;
    var returnType: Result<GType, BuildError>;
    var builtin := BuiltinScalar(s);
    if builtin.Some? {
      returnType := Success(builtin.value);
    } else if ListMatch(s) {
      listType := true;
      returnType := ParseStringType(s[1..|s| - 1], false, constantize);
    } else if BangMatch(s) {
      nullable := false;
      returnType := ParseStringType(s[..|s| - 1], true, constantize);
    } else {
      returnType := FromConstant(s, constantize(s));
    }
    if returnType.Failure? {
      return Failure(returnType.error);
    }
    var t := returnType.value;
    if listType {
      t := ListOf(t);
    }
    if !nullable {
      t := NonNull(t);
    }
    r := Success(t);
  }

  /** `parse_type` on any input, as the source writes it. */
  method ParseTypeExpr(e: TypeExpr, nullArg: bool, constantize: string -> Constant) returns (r: Result<GType, BuildError>)
    ensures r == ParseType(e, nullArg, constantize)
  {
    var listType := false;
    var returnType: Result<GType, BuildError>;
    match e {
      case Str(s) =>
        r := ParseStringType(s, nullArg, constantize);
        return;
      case TypeObj(t) =>
        returnType := Success(t);
      case Arr(items) =>
        if |items| == 1 {
          listType := true;
          returnType := ParseTypeExpr(items[0], false, constantize);
        } else if |items| == 2 {
          if !items[1].Options? {
            return Failure(NoMethod);
          }
          if items[1].entries != [("null", LitTrue)] {
            return Failure(ListTypeError);
          }
          listType := true;
          returnType := ParseTypeExpr(items[0], true, constantize);
        } else {
          return Failure(ListTypeError);
        }
      case ClassWithDefn(t) =>
        returnType := Success(t);
      case ClassPlain(name) =>
        returnType := ParseStringType(name, true, constantize);
      case FalseExpr =>
        return Failure(FalseGiven);
      case WrapperObj(_) =>
        returnType := Failure(UnexpectedInput);
      case Options(_) =>
        returnType := Failure(UnexpectedInput);
      case OtherExpr =>
        returnType := Failure(UnexpectedInput);
    }
    if returnType.Failure? {
      return Failure(returnType.error);
    }
    var t := returnType.value;
    if listType {
      t := ListOf(t);
    }
    if !nullArg {
      t := NonNull(t);
    }
    r := Success(t);
  }

  /** Every built-in scalar name resolves to its scalar without constant
      lookup (`"Integer"` is an alias of `Int`), non-null unless
      `null: true`; a trailing `!` makes it non-null either way. */
  lemma BuiltinNames(s: string, nullable: bool, constantize: string -> Constant)
    requires s in ["String", "Int", "Integer", "Float", "Boolean", "ID"]
    ensures ParseStr(s, nullable, constantize) ==
      Success(if nullable then Scalar(if s == "Integer" then "Int" else s) else NonNull(Scalar(if s == "Integer" then "Int" else s)))
    ensures ParseStr(s + "!", true, constantize) == Success(NonNull(Scalar(if s == "Integer" then "Int" else s)))
  {
    var bang := s + "!";
    assert bang[..|bang| - 1] == s;
    assert bang[|bang| - 1] == '!';
    assert BuiltinScalar(bang).None? by {
      assert |bang| == |s| + 1;
    }
    assert !ListMatch(bang) by {
      assert bang[0] == s[0];
    }
  }

  /** `null: false` adds exactly one non-null wrapper, except for a string
      ending in `!`, which is non-null either way. */
  lemma NullArgument(s: string, constantize: string -> Constant)
    ensures !BangMatch(s) || BuiltinScalar(s).Some? || ListMatch(s) ==>
      ParseStr(s, false, constantize) == Finish(ParseStr(s, true, constantize), false, false)
    ensures BangMatch(s) && BuiltinScalar(s).None? && !ListMatch(s) ==>
      ParseStr(s, false, constantize) == ParseStr(s, true, constantize)
  {
  }

  /** No character of `s` is a newline. */
  predicate SingleLine(s: string) {
    forall i :: 0 <= i < |s| ==> s[i] != '\n'
  }

  /** `"[T]"` is a list of the non-null `T`, made non-null itself when
      `null: false`. */
  lemma ListString(x: string, nullable: bool, constantize: string -> Constant)
    requires SingleLine(x)
    ensures ParseStr("[" + x + "]", nullable, constantize) ==
      Finish(ParseStr(x, false, constantize), true, nullable)
  {
    var s := "[" + x + "]";
    assert s[0] == '[';
    assert BuiltinScalar(s).None?;
    assert s[1..|s| - 1] == x;
    assert ListMatch(s);
  }

  /** The array form: `[T]` has non-null members, `[T, null: true]` nullable
      ones, and any other array raises. */
  lemma ArrayForms(e: TypeExpr, items: seq<TypeExpr>, nullable: bool, constantize: string -> Constant)
    ensures ParseType(Arr([e]), nullable, constantize) ==
      Finish(ParseType(e, false, constantize), true, nullable)
    ensures ParseType(Arr([e, Options([("null", LitTrue)])]), nullable, constantize) ==
      Finish(ParseType(e, true, constantize), true, nullable)
    ensures |items| != 1 && |items| != 2 ==> ParseType(Arr(items), nullable, constantize) == Failure(ListTypeError)
    ensures |items| == 2 && items[1] != Options([("null", LitTrue)]) ==> ParseType(Arr(items), nullable, constantize).Failure?
  {
  }

  /** A character that may appear in a type name. */
  predicate NameChar(c: char) {
    c != '[' && c != ']' && c != '!' && c != '\n'
  }

  /** Types that the string form can express: a list's members are always
      non-null in it. */
  predicate StringExpressible(t: GType) {
    match t
    case Named(_) => true
    case NonNull(inner) => StringExpressible(inner)
    case ListOf(inner) => inner.NonNull? && StringExpressible(inner)
  }

  /** The named type's name is a plain name that reads back as that type:
      a built-in scalar by its name, any other type through `constantize`. */
  predicate ResolvesBack(d: TypeDefn, constantize: string -> Constant) {
    (forall i :: 0 <= i < |d.name| ==> NameChar(d.name[i])) &&
    (if BuiltinScalar(d.name).Some? then BuiltinScalar(d.name).value == Named(d)
     else constantize(d.name) == ConstType(Named(d)) || constantize(d.name) == ConstClass(Named(d)))
  }

  lemma {:induction false} SignatureChars(t: GType)
    requires forall i :: 0 <= i < |Unwrap(t).name| ==> NameChar(Unwrap(t).name[i])
    ensures SingleLine(Signature(t))
    ensures t.Named? ==> !ListMatch(Signature(t)) && !BangMatch(Signature(t))
  {
    match t
    case Named(d) =>
      assert Unwrap(t) == d;
      if |d.name| > 0 {
        assert NameChar(d.name[0]) && NameChar(d.name[|d.name| - 1]);
      }
    case NonNull(inner) =>
      assert Unwrap(t) == Unwrap(inner);
      SignatureChars(inner);
    case ListOf(inner) =>
      assert Unwrap(t) == Unwrap(inner);
      SignatureChars(inner);
  }

  /** `"T!"` is the non-null `T`, whatever `null:` says. */
  lemma BangString(x: string, nullable: bool, constantize: string -> Constant)
    ensures ParseStr(x + "!", nullable, constantize) == Finish(ParseStr(x, true, constantize), false, false)
  {
    var s := x + "!";
    assert s[|s| - 1] == '!';
    assert BuiltinScalar(s).None?;
    assert !ListMatch(s);
    assert s[..|s| - 1] == x;
  }

  /** The type signature of a string-expressible type parses back to it. */
  lemma {:induction false} SignatureRoundTrip(t: GType, constantize: string -> Constant)
    requires StringExpressible(t)
    requires ResolvesBack(Unwrap(t), constantize)
    ensures ParseStr(Signature(t), true, constantize) == Success(t)
  {
    match t
    case Named(d) =>
      SignatureChars(t);
    case NonNull(inner) =>
      BangString(Signature(inner), true, constantize);
      SignatureRoundTrip(inner, constantize);
    case ListOf(inner) =>
      SignatureChars(inner);
      ListString(Signature(inner), true, constantize);
      BangString(Signature(inner.ofType), false, constantize);
      SignatureRoundTrip(inner.ofType, constantize);
  }

  /** `to_type_name(something)`: the name of the named type inside. `None` is
      Ruby's `nil`, which the String branch gives for a string with no
      segment left. */
  function ToTypeName(e: TypeExpr): (r: Result<Option<string>, BuildError>)
    ensures r.Failure? ==> r.error == UnhandledInput
    ensures e.Str? || e.ClassPlain? || e.TypeObj? || e.ClassWithDefn? || e.WrapperObj? ==> r.Success?
    ensures e.TypeObj? || e.ClassWithDefn? || e.WrapperObj? ==> r == Success(Some(Unwrap(e.t).name))
  {
    match e
    case TypeObj(t) => Success(Some(Unwrap(t).name))
    case Arr(items) => if items == [] then Failure(UnhandledInput) else ToTypeName(items[0])
    case ClassWithDefn(t) => Success(Some(Unwrap(t).name))
    case ClassPlain(name) => Success(StringTypeName(name))
    case Str(s) => Success(StringTypeName(s))
    case WrapperObj(t) => Success(Some(Unwrap(t).name))
    case _ => Failure(UnhandledInput)
  }

  /** The String branch: `gsub(/\]\[\!/, "")` deletes the three-character
      sequence `][!` wherever it occurs, then the last `::` segment is kept. */
  function StringTypeName(s: string): Option<string> {
    LastOf(Split(Concat(Fields(s, "][!")), "::"))
  }

  function LastOf(parts: seq<string>): (r: Option<string>)
    ensures r.Some? <==> parts != []
    ensures r.Some? ==> r.value == parts[|parts| - 1]
  {
    if parts == [] then None else Some(parts[|parts| - 1])
  }

  /** As written, the String branch keeps list brackets and `!` marks: the
      signature `[Foo]` is read as the name `[Foo]`, although the list type it
      denotes has the name `Foo`. */
  lemma ToTypeNameKeepsBrackets(d: TypeDefn)
    requires d.name == "Foo"
    ensures ToTypeName(TypeObj(ListOf(Named(d)))) == Success(Some("Foo"))
    ensures ToTypeName(Str("[Foo]")) == Success(Some("[Foo]"))
  {
    assert Unwrap(ListOf(Named(d))) == d;
    var s := "[Foo]";
    NotFound(s, "][!");
    assert Fields(s, "][!") == [s];
    assert Concat([s]) == s;
    NotFound(s, "::");
    assert Fields(s, "::") == [s];
    assert Split(s, "::") == [s];
  }

  /** The type-object forms: a type object or type class, possibly inside
      `[...]` or `[..., null: true]`. */
  predicate ObjectForm(e: TypeExpr) {
    match e
    case TypeObj(_) => true
    case ClassWithDefn(_) => true
    case Arr(items) =>
      (|items| == 1 || (|items| == 2 && items[1] == Options([("null", LitTrue)]))) && ObjectForm(items[0])
    case _ => false
  }

  /** For the type-object forms, `to_type_name` names the named type inside
      what `parse_type` builds, whatever `null:` says. */
  lemma {:induction false} TypeNameOfParsed(e: TypeExpr, nullable: bool, constantize: string -> Constant)
    requires ObjectForm(e)
    ensures ParseType(e, nullable, constantize).Success?
    ensures ToTypeName(e) == Success(Some(Unwrap(ParseType(e, nullable, constantize).value).name))
  {
    match e
    case TypeObj(_) =>
    case ClassWithDefn(_) =>
    case Arr(items) =>
      TypeNameOfParsed(items[0], |items| == 2, constantize);
  }

  /** A separator whose first character never occurs early enough is not found. */
  lemma NotFound(s: string, sep: string)
    requires |sep| > 0
    requires forall j :: 0 <= j && j + |sep| <= |s| ==> s[j] != sep[0]
    ensures Find(s, sep).None?
  {
    forall j: nat ensures !OccursAt(s, sep, j) {
      if j + |sep| <= |s| {
        assert s[j + 0] != sep[0];
      }
    }
  }

  /** The evidently intended String branch: every `[`, `]` and `!` deleted. */
  function StringTypeNameIntended(s: string): Option<string> {
    LastOf(Split(Without(Without(Without(s, '['), ']'), '!'), "::"))
  }

  function ToTypeNameIntended(e: TypeExpr): (r: Result<Option<string>, BuildError>)
  {
    match e
    case TypeObj(t) => Success(Some(Unwrap(t).name))
    case WrapperObj(t) => Success(Some(Unwrap(t).name))
    case Arr(items) => if items == [] then Failure(UnhandledInput) else ToTypeNameIntended(items[0])
    case ClassWithDefn(t) => Success(Some(Unwrap(t).name))
    case ClassPlain(name) => Success(StringTypeNameIntended(name))
    case Str(s) => Success(StringTypeNameIntended(s))
    case _ => Failure(UnhandledInput)
  }

  function StripMarks(s: string): string {
    Without(Without(Without(s, '['), ']'), '!')
  }

  lemma StripMarksAppend(a: string, b: string)
    ensures StripMarks(a + b) == StripMarks(a) + StripMarks(b)
  {
    WithoutAppend(a, b, '[');
    WithoutAppend(Without(a, '['), Without(b, '['), ']');
    WithoutAppend(Without(Without(a, '['), ']'), Without(Without(b, '['), ']'), '!');
  }

  lemma StripMarksName(name: string)
    requires forall i :: 0 <= i < |name| ==> NameChar(name[i])
    ensures StripMarks(name) == name
  {
    assert '[' !in name;
    assert ']' !in name;
    assert '!' !in name;
  }

  lemma StripMarksMarks()
    ensures StripMarks("[") == [] && StripMarks("]") == [] && StripMarks("!") == []
  {
    assert Without("[", '[') == [];
    assert Without("]", '[') == "]";
    assert Without("!", '[') == "!";
    assert Without("]", ']') == [];
    assert Without("!", ']') == "!";
    assert Without("!", '!') == [];
  }

  /** Deleting the marks from a signature leaves the type's name. */
  lemma {:induction false} StripMarksSignature(t: GType)
    requires forall i :: 0 <= i < |Unwrap(t).name| ==> NameChar(Unwrap(t).name[i])
    ensures StripMarks(Signature(t)) == Unwrap(t).name
  {
    match t
    case Named(d) =>
      assert Unwrap(t) == d;
      StripMarksName(d.name);
    case NonNull(inner) =>
      assert Unwrap(t) == Unwrap(inner);
      StripMarksSignature(inner);
      StripMarksAppend(Signature(inner), "!");
      StripMarksMarks();
    case ListOf(inner) =>
      assert Unwrap(t) == Unwrap(inner);
      StripMarksSignature(inner);
      StripMarksAppend("[", Signature(inner));
      StripMarksAppend("[" + Signature(inner), "]");
      StripMarksMarks();
  }

  /** With the intended String branch, a type signature names the same type
      as the type object it denotes, whenever the name is a plain name
      without a `::` namespace. */
  lemma IntendedNameOfSignature(t: GType)
    requires forall i :: 0 <= i < |Unwrap(t).name| ==> NameChar(Unwrap(t).name[i]) && Unwrap(t).name[i] != ':'
    requires Unwrap(t).name != []
    ensures ToTypeNameIntended(Str(Signature(t))) == ToTypeNameIntended(TypeObj(t))
  {
    var name := Unwrap(t).name;
    StripMarksSignature(t);
    NotFound(name, "::");
    assert Fields(name, "::") == [name];
  }

  /** `s.split("_").map(&:capitalize)` */
  function CapitalizeAll(parts: seq<string>): (r: seq<string>)
    ensures |r| == |parts|
    ensures forall i :: 0 <= i < |parts| ==> r[i] == Capitalize(parts[i])
  {
    seq(|parts|, i requires 0 <= i < |parts| => Capitalize(parts[i]))
  }

  /** `camelize(string)`: a string with no `_` is returned unchanged;
      otherwise the `_`-separated words are capitalized and joined, the first
      character is lower-cased in place, and a leading run of `_` is kept. A
      string of underscores only leaves nothing to lower-case, and Ruby
      raises NoMethodError on `nil.downcase`. */
  function Camelize(s: string): (r: Result<string, BuildError>)
    ensures '_' !in s ==> r == Success(s)
    ensures r.Failure? ==> r.error == NoMethod
  {
    if '_' !in s then Success(s)
    else
      var camelized := Concat(CapitalizeAll(Split(s, "_")));
      if camelized == [] then Failure(NoMethod)
      else
        var camelized := camelized[0 := Downcase(camelized[0])];
        Success(LeadingRun(s, '_') + camelized)
  }

  /** Equal once lower-cased, character by character. */
  ghost predicate SameUpToCase(a: string, b: string) {
    |a| == |b| && forall i :: 0 <= i < |a| ==> Downcase(a[i]) == Downcase(b[i])
  }

  lemma SameUpToCaseFacts(a: string, b: string)
    requires SameUpToCase(a, b)
    ensures DowncaseStr(a) == DowncaseStr(b)
    ensures '_' in a <==> '_' in b
  {
    assert forall i :: 0 <= i < |a| ==> (a[i] == '_' <==> b[i] == '_') by {
      forall i | 0 <= i < |a| ensures a[i] == '_' <==> b[i] == '_' {
        assert Downcase(a[i]) == Downcase(b[i]);
      }
    }
  }

  lemma {:induction false} CapitalizeAllSameUpToCase(parts: seq<string>)
    ensures SameUpToCase(Concat(CapitalizeAll(parts)), Concat(parts))
    decreases |parts|
  {
    if parts != [] {
      CapitalizeAllSameUpToCase(parts[1..]);
      assert CapitalizeAll(parts)[1..] == CapitalizeAll(parts[1..]);
      CapitalizeSameUpToCase(parts[0]);
      SameUpToCaseAppend(Capitalize(parts[0]), Concat(CapitalizeAll(parts[1..])), parts[0], Concat(parts[1..]));
    }
  }

  lemma CapitalizeSameUpToCase(s: string)
    ensures SameUpToCase(Capitalize(s), s)
  {
    if s != [] {
      DowncaseUpcase(s[0]);
    }
  }

  lemma SameUpToCaseAppend(a: string, b: string, c: string, d: string)
    requires SameUpToCase(a, c) && SameUpToCase(b, d)
    ensures SameUpToCase(a + b, c + d)
  {
    forall i | 0 <= i < |a + b| ensures Downcase((a + b)[i]) == Downcase((c + d)[i]) {
      if i >= |a| {
        assert (a + b)[i] == b[i - |a|] && (c + d)[i] == d[i - |c|];
      }
    }
  }

  /** The facts about a camelized string: unchanged without `_`; raises only
      for a string of underscores; otherwise the leading underscores, then a
      non-empty word part with no `_` whose first character is not upper
      case; and apart from case and underscores the characters are the
      input's. */
  lemma CamelizeFacts(s: string)
    ensures '_' !in s ==> Camelize(s) == Success(s)
    ensures '_' in s ==> (Camelize(s).Failure? <==> Without(s, '_') == [])
    ensures Camelize(s).Success? && '_' in s ==>
      var p := LeadingRun(s, '_');
      var r := Camelize(s).value;
      |p| < |r| && r[..|p|] == p && '_' !in r[|p|..] && !IsUpper(r[|p|])
    ensures Camelize(s).Success? ==>
      DowncaseStr(Without(Camelize(s).value, '_')) == DowncaseStr(Without(s, '_'))
  {
    if '_' in s {
      var joined := Concat(CapitalizeAll(Split(s, "_")));
      JoinedWords(s);
      if joined != [] {
        var camelized := joined[0 := Downcase(joined[0])];
        CamelizedWords(joined, Without(s, '_'));
        var p := LeadingRun(s, '_');
        assert Camelize(s) == Success(p + camelized);
        PrefixThenWords(p, camelized);
      }
    }
  }

  /** The capitalized words, joined, are the input without `_` up to case. */
  lemma JoinedWords(s: string)
    ensures SameUpToCase(Concat(CapitalizeAll(Split(s, "_"))), Without(s, '_'))
  {
    ConcatDropTrailingEmpty(Fields(s, "_"));
    ConcatFields(s, '_');
    CapitalizeAllSameUpToCase(Split(s, "_"));
  }

  lemma CamelizedWords(joined: string, plain: string)
    requires SameUpToCase(joined, plain) && joined != [] && '_' !in plain
    ensures var camelized := joined[0 := Downcase(joined[0])];
      SameUpToCase(camelized, plain) && '_' !in camelized && !IsUpper(camelized[0]) &&
      DowncaseStr(camelized) == DowncaseStr(plain)
  {
    var camelized := joined[0 := Downcase(joined[0])];
    assert SameUpToCase(camelized, plain);
    SameUpToCaseFacts(camelized, plain);
  }

  lemma PrefixThenWords(p: string, camelized: string)
    requires forall i :: 0 <= i < |p| ==> p[i] == '_'
    requires '_' !in camelized
    ensures Without(p + camelized, '_') == camelized
    ensures (p + camelized)[|p|..] == camelized && (p + camelized)[..|p|] == p
  {
    WithoutAppend(p, camelized, '_');
    WithoutAllSame(p, '_');
  }

  lemma {:induction false} WithoutAllSame(s: string, c: char)
    requires forall i :: 0 <= i < |s| ==> s[i] == c
    ensures Without(s, c) == []
    decreases |s|
  {
    if s != [] {
      WithoutAllSame(s[1..], c);
    }
  }

  /** `gsub(/([A-Z]+)([A-Z][a-z])/, '\1_\2')`: an underscore goes before the
      last capital of a run of two or more capitals followed by a lower-case
      letter (`URLDecoder` to `URL_Decoder`). */
  function SplitAcronyms(s: string): string {
    if |s| < 3 then s
    else if IsUpper(s[0]) && IsUpper(s[1]) && IsLower(s[2]) then [s[0], '_'] + SplitAcronyms(s[1..])
    else [s[0]] + SplitAcronyms(s[1..])
  }

  function SplitWords(s: string): string {
    if |s| < 2 then s
    else if (IsLower(s[0]) || IsDigit(s[0])) && IsUpper(s[1]) then [s[0], '_'] + SplitWords(s[1..])
    else [s[0]] + SplitWords(s[1..])
  }

  /** Inserting an underscore after the first character keeps everything but
      underscores unchanged. */
  lemma InsertUnderscore(s: string, rest: string)
    requires |s| > 0 && Without(rest, '_') == Without(s[1..], '_')
    ensures Without([s[0], '_'] + rest, '_') == Without(s, '_')
    ensures Without([s[0]] + rest, '_') == Without(s, '_')
  {
    WithoutAppend([s[0], '_'], rest, '_');
    WithoutAppend([s[0]], rest, '_');
    WithoutAppend([s[0]], s[1..], '_');
    assert s == [s[0]] + s[1..];
    assert Without([s[0], '_'], '_') == Without([s[0]], '_');
  }

  lemma {:induction false} SplitAcronymsKeeps(s: string)
    ensures Without(SplitAcronyms(s), '_') == Without(s, '_')
    decreases |s|
  {
    if |s| >= 3 {
      SplitAcronymsKeeps(s[1..]);
      InsertUnderscore(s, SplitAcronyms(s[1..]));
    }
  }

  lemma {:induction false} SplitWordsKeeps(s: string)
    ensures Without(SplitWords(s), '_') == Without(s, '_')
    decreases |s|
  {
    if |s| >= 2 {
      SplitWordsKeeps(s[1..]);
      InsertUnderscore(s, SplitWords(s[1..]));
    }
  }

  /** `underscore(string)`: the result has no capital letter. */
  function Underscore(s: string): (r: string)
    ensures forall i :: 0 <= i < |r| ==> !IsUpper(r[i])
  {
    DowncaseStr(SplitWords(SplitAcronyms(s)))
  }

  /** `underscore` leaves no capital letters, and only inserts underscores:
      without them, the result is the input lower-cased. */
  lemma UnderscoreFacts(s: string)
    ensures forall i :: 0 <= i < |Underscore(s)| ==> !IsUpper(Underscore(s)[i])
    ensures Without(Underscore(s), '_') == DowncaseStr(Without(s, '_'))
  {
    SplitAcronymsKeeps(s);
    SplitWordsKeeps(SplitAcronyms(s));
    DowncaseWithout(SplitWords(SplitAcronyms(s)), '_');
  }

  lemma AcronymsSomeThing()
    ensures SplitAcronyms("someThing") == "someThing"
  {
    var w := "someThing";
    assert SplitAcronyms(w[6..]) == w[6..];
    assert SplitAcronyms(w[5..]) == w[5..];
    assert SplitAcronyms(w[4..]) == w[4..];
    assert SplitAcronyms(w[3..]) == w[3..];
    assert SplitAcronyms(w[2..]) == w[2..];
    assert SplitAcronyms(w[1..]) == w[1..];
  }

  lemma WordsSomeThing()
    ensures SplitWords("someThing") == "some_Thing"
  {
    var w := "someThing";
    assert SplitWords(w[8..]) == w[8..];
    assert SplitWords(w[7..]) == w[7..];
    assert SplitWords(w[6..]) == w[6..];
    assert SplitWords(w[5..]) == w[5..];
    assert SplitWords(w[4..]) == w[4..];
    assert w[3] == 'e' && IsLower(w[3]) && w[4] == 'T' && IsUpper(w[4]);
    assert SplitWords(w[3..]) == ['e', '_'] + SplitWords(w[4..]);
    assert SplitWords(w[3..]) == "e_Thing";
    assert SplitWords(w[2..]) == ['m'] + SplitWords(w[3..]);
    assert SplitWords(w[1..]) == ['o'] + SplitWords(w[2..]);
    assert SplitWords(w) == ['s'] + SplitWords(w[1..]);
  }

  /** An acronym is split from the capitalised word that follows it:
      `"ABc".underscore` is `"a_bc"`. */
  lemma UnderscoreAcronym()
    ensures Underscore("ABc") == "a_bc"
  {
    var w := "ABc";
    assert SplitAcronyms(w[1..]) == w[1..];
    assert IsUpper(w[0]) && IsUpper(w[1]) && IsLower(w[2]);
    assert SplitAcronyms(w) == "A_Bc";
    var v := "A_Bc";
    assert SplitWords(v[2..]) == v[2..];
    assert SplitWords(v[1..]) == v[1..];
    assert SplitWords(v) == v;
  }

  /** `"someThing".underscore` is `"some_thing"`. */
  lemma UnderscoreSomeThing()
    ensures Underscore("someThing") == "some_thing"
  {
    AcronymsSomeThing();
    WordsSomeThing();
    UnderscoreOf("someThing", "some_Thing");
    DowncaseSomeThing();
  }

  lemma UnderscoreOf(s: string, w: string)
    requires SplitWords(SplitAcronyms(s)) == w
    ensures Underscore(s) == DowncaseStr(w)
  {
  }

  lemma DowncaseSomeThing()
    ensures DowncaseStr("some_Thing") == "some_thing"
  {
    var r := DowncaseStr("some_Thing");
    assert r[5] == 't';
    assert r == ['s', 'o', 'm', 'e', '_', 't', 'h', 'i', 'n', 'g'];
  }
}
