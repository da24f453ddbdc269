/** `GraphQL8::NameValidator`: GraphQL names (section 2.1.9 of the GraphQL
    specification, June 2018) are `[_a-zA-Z][_a-zA-Z0-9]*`. */
module NameValidator {
  import opened Wrappers
  import opened RubyStrings

  predicate NameStart(c: char) { c == '_' || IsLetter(c) }
  predicate NameContinue(c: char) { NameStart(c) || IsDigit(c) }

  /** The pattern's `[_a-zA-Z0-9]*` part, matched character by character. */
  predicate MatchesRest(s: string) {
    s == [] || (NameContinue(s[0]) && MatchesRest(s[1..]))
  }

  /** `valid?(name)`: the whole string matches the pattern. */
  predicate IsValid(name: string) {
    |name| > 0 && NameStart(name[0]) && MatchesRest(name[1..])
  }

  lemma {:induction false} MatchesRestAll(s: string)
    ensures MatchesRest(s) <==> forall i :: 0 <= i < |s| ==> NameContinue(s[i])
  {
    if s != [] {
      MatchesRestAll(s[1..]);
      assert forall i :: 1 <= i < |s| ==> s[i] == s[1..][i - 1];
    }
  }

  /** The matcher agrees with the character-class reading of the pattern. */
  lemma IsValidChars(name: string)
    ensures IsValid(name) <==>
      |name| > 0 && NameStart(name[0]) && forall i :: 1 <= i < |name| ==> NameContinue(name[i])
  {
    if |name| > 0 {
      MatchesRestAll(name[1..]);
      assert forall i :: 1 <= i < |name| ==> name[i] == name[1..][i - 1];
    }
  }

  lemma EmptyIsInvalid()
    ensures !IsValid("")
  {
  }

  lemma DigitStartIsInvalid(name: string)
    requires |name| > 0 && IsDigit(name[0])
    ensures !IsValid(name)
  {
  }

  /** `InvalidNameError`: the rejected name. */
  datatype InvalidNameError = InvalidNameError(name: string)

  /** `validate!(name)` */
  function Validate(name: string): (r: Result<(), InvalidNameError>)
    ensures r.Success? <==> IsValid(name)
    ensures r.Failure? ==> r.error == InvalidNameError(name)
  {
    if IsValid(name) then Success(()) else Failure(InvalidNameError(name))
  }

  /** `^` matches at the start of the string or after a newline, `$` at the
      end of the string or before a newline. */
  predicate LineStart(s: string, i: int) { i == 0 || (0 < i <= |s| && s[i - 1] == '\n') }
  predicate LineEnd(s: string, j: int) { j == |s| || (0 <= j < |s| && s[j] == '\n') }

  /** `name =~ VALID_NAME_REGEX` as written: the line anchors let any one
      line of the name match. */
  predicate MatchesAsWritten(name: string) {
    exists i, j :: 0 <= i <= j <= |name| && LineStart(name, i) && LineEnd(name, j) && IsValid(name[i..j])
  }

  /** `validate!(name)` as written. */
  function ValidateAsWritten(name: string): (r: Result<(), InvalidNameError>)
    ensures r.Success? <==> MatchesAsWritten(name)
    ensures r.Failure? ==> r.error == InvalidNameError(name)
  {
    if MatchesAsWritten(name) then Success(()) else Failure(InvalidNameError(name))
  }

  /** Every valid name also passes the check as written ... */
  lemma ValidPassesAsWritten(name: string)
    requires IsValid(name)
    ensures ValidateAsWritten(name).Success?
  {
    assert name[0..|name|] == name;
  }

  /** ... but so does a name with a newline whose last line is valid. */
  lemma MultilineNamePassesAsWritten()
    ensures ValidateAsWritten("1\nok").Success?
    ensures Validate("1\nok").Failure?
  {
    var name := "1\nok";
    assert name[2..4] == "ok";
    assert IsValid(name[2..4]);
    assert LineStart(name, 2) && LineEnd(name, 4);
  }
}
