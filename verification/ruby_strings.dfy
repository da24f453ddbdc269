/** The parts of Ruby's String that the core relies on: ASCII case mapping,
    `split` with a literal separator (trailing empty fields dropped), `join`,
    `capitalize`, and byte-wise ordering. */
module RubyStrings {
  import opened Wrappers

  predicate IsUpper(c: char) { 'A' <= c <= 'Z' }
  predicate IsLower(c: char) { 'a' <= c <= 'z' }
  predicate IsDigit(c: char) { '0' <= c <= '9' }
  predicate IsLetter(c: char) { IsUpper(c) || IsLower(c) }

  function Downcase(c: char): (d: char)
    ensures !IsUpper(d)
    ensures IsUpper(c) ==> IsLower(d)
    ensures !IsUpper(c) ==> d == c
  {
    if IsUpper(c) then (c as int + 32) as char else c
  }

  function Upcase(c: char): (u: char)
    ensures !IsLower(u)
    ensures IsLower(c) ==> IsUpper(u)
    ensures !IsLower(c) ==> u == c
  {
    if IsLower(c) then (c as int - 32) as char else c
  }

  lemma DowncaseUpcase(c: char)
    ensures Downcase(Upcase(c)) == Downcase(c)
  {
  }

  /** `s.downcase` */
  function DowncaseStr(s: string): (r: string)
    ensures |r| == |s|
    ensures forall i :: 0 <= i < |s| ==> r[i] == Downcase(s[i])
  {
    seq(|s|, i requires 0 <= i < |s| => Downcase(s[i]))
  }

  /** `s.upcase` */
  function UpcaseStr(s: string): (r: string)
    ensures |r| == |s|
    ensures forall i :: 0 <= i < |s| ==> r[i] == Upcase(s[i])
  {
    seq(|s|, i requires 0 <= i < |s| => Upcase(s[i]))
  }

  /** `s.capitalize`: the first character upcased, the rest downcased. */
  function Capitalize(s: string): (r: string)
    ensures |r| == |s|
    ensures |s| > 0 ==> r[0] == Upcase(s[0])
    ensures forall i :: 0 < i < |s| ==> r[i] == Downcase(s[i])
  {
    if s == [] then [] else [Upcase(s[0])] + DowncaseStr(s[1..])
  }

  /** `sep` occurs in `s` starting at index `j`. */
  predicate OccursAt(s: string, sep: string, j: nat) {
    j + |sep| <= |s| && forall k :: 0 <= k < |sep| ==> s[j + k] == sep[k]
  }

  /** The first index at which `sep` occurs in `s`, scanning from the left. */
  function Find(s: string, sep: string): (r: Option<nat>)
    requires |sep| > 0
    ensures r.Some? ==> OccursAt(s, sep, r.value)
    ensures r.Some? ==> forall j: nat :: j < r.value ==> !OccursAt(s, sep, j)
    ensures r.None? ==> forall j: nat :: !OccursAt(s, sep, j)
    decreases |s|
  {
    if |s| < |sep| then None
    else if OccursAt(s, sep, 0) then Some(0)
    else
      var r := Find(s[1..], sep);
      forall j: nat | 0 < j ensures OccursAt(s, sep, j) <==> OccursAt(s[1..], sep, j - 1) {
      }
      if r.None? then None else Some(r.value + 1)
  }

  /** The fields of `s` between occurrences of `sep`, found left to right,
      before Ruby drops the trailing empty ones. */
  function Fields(s: string, sep: string): (r: seq<string>)
    requires |sep| > 0
    ensures |r| > 0
    decreases |s|
  {
    match Find(s, sep)
    case None => [s]
    case Some(i) => [s[..i]] + Fields(s[i + |sep|..], sep)
  }

  /** `parts.join(sep)` */
  function Join(parts: seq<string>, sep: string): (r: string)
  {
    if parts == [] then []
    else if |parts| == 1 then parts[0]
    else parts[0] + sep + Join(parts[1..], sep)
  }

  function DropTrailingEmpty(parts: seq<string>): (r: seq<string>)
    ensures |r| <= |parts| && r == parts[..|r|]
    ensures r == [] || r[|r| - 1] != []
    ensures forall i :: |r| <= i < |parts| ==> parts[i] == []
  {
    if parts == [] then []
    else if parts[|parts| - 1] == [] then DropTrailingEmpty(parts[..|parts| - 1])
    else parts
  }

  /** `s.split(sep)` for a literal separator. */
  function Split(s: string, sep: string): (r: seq<string>)
    requires |sep| > 0
  {
    DropTrailingEmpty(Fields(s, sep))
  }

  /** Joining the fields with the separator gives back the string. */
  lemma {:induction false} JoinFields(s: string, sep: string)
    requires |sep| > 0
    ensures Join(Fields(s, sep), sep) == s
    decreases |s|
  {
    match Find(s, sep)
    case None =>
    case Some(i) =>
      JoinFields(s[i + |sep|..], sep);
      assert s[i..i + |sep|] == sep;
      assert s == s[..i] + sep + s[i + |sep|..];
  }

  /** Splitting what was joined gives back the parts, when the separator's
      first character occurs in none of them. */
  lemma {:induction false} FieldsJoin(parts: seq<string>, sep: string)
    requires |sep| > 0 && parts != []
    requires forall i :: 0 <= i < |parts| ==> sep[0] !in parts[i]
    ensures Fields(Join(parts, sep), sep) == parts
    decreases |parts|
  {
    if |parts| == 1 {
      var s := Join(parts, sep);
      assert s == parts[0] && sep[0] !in s;
      NoOccurrenceBefore(s, s, sep);
      assert Find(s, sep).None?;
    } else {
      FieldsJoin(parts[1..], sep);
      FieldsJoinStep(parts, sep);
    }
  }

  lemma FieldsJoinStep(parts: seq<string>, sep: string)
    requires |sep| > 0 && |parts| > 1 && sep[0] !in parts[0]
    requires Fields(Join(parts[1..], sep), sep) == parts[1..]
    ensures Fields(Join(parts, sep), sep) == parts
  {
    var p, rest := parts[0], parts[1..];
    var tail := Join(rest, sep);
    var s := p + sep + tail;
    assert Join(parts, sep) == s;
    FindAfterPrefix(p, sep, tail);
    FieldsAt(s, sep, |p|);
    assert s[..|p|] == p && s[|p| + |sep|..] == tail;
    assert parts == [p] + rest;
  }

  /** The separator right after a prefix that lacks its first character is
      the first occurrence. */
  lemma FindAfterPrefix(p: string, sep: string, tail: string)
    requires |sep| > 0 && sep[0] !in p
    ensures Find(p + sep + tail, sep) == Some(|p|)
  {
    var s := p + sep + tail;
    NoOccurrenceBefore(s, p, sep);
    forall k | 0 <= k < |sep| ensures s[|p| + k] == sep[k] {
    }
    FindFirst(s, sep, |p|);
  }

  /** One step of `Fields` at the first occurrence. */
  lemma {:induction false} FieldsAt(s: string, sep: string, i: nat)
    requires |sep| > 0 && Find(s, sep) == Some(i)
    ensures Fields(s, sep) == [s[..i]] + Fields(s[i + |sep|..], sep)
  {
    match Find(s, sep)
    case Some(j) =>
      assert j == i;
  }

  /** An occurrence with none before it is the one `Find` reports. */
  lemma FindFirst(s: string, sep: string, i: nat)
    requires |sep| > 0 && OccursAt(s, sep, i)
    requires forall j: nat :: j < i ==> !OccursAt(s, sep, j)
    ensures Find(s, sep) == Some(i)
  {
    var r := Find(s, sep);
    assert r.Some?;
    assert !(r.value < i) && !(i < r.value);
  }

  /** No occurrence of `sep` starts inside a prefix of `s` that lacks the
      separator's first character. */
  lemma NoOccurrenceBefore(s: string, p: string, sep: string)
    requires |sep| > 0 && sep[0] !in p && p <= s
    ensures forall j: nat :: j < |p| ==> !OccursAt(s, sep, j)
    ensures s == p ==> forall j: nat :: !OccursAt(s, sep, j)
  {
    forall j: nat | j < |p|
      ensures !OccursAt(s, sep, j)
    {
      assert s[j] == p[j];
    }
  }

  /** A one-character separator never occurs inside a field. */
  lemma {:induction false} FieldsAvoidSeparator(s: string, c: char)
    ensures forall f :: f in Fields(s, [c]) ==> c !in f
    decreases |s|
  {
    match Find(s, [c])
    case None =>
      forall j | 0 <= j < |s| ensures s[j] != c {
        assert !OccursAt(s, [c], j);
      }
    case Some(i) =>
      FieldsAvoidSeparator(s[i + 1..], c);
      forall j | 0 <= j < i ensures s[j] != c {
        assert !OccursAt(s, [c], j);
      }
  }

  /** Ruby's `String#<=>` on the characters the core uses: byte-wise
      lexicographic, a proper prefix first. */
  predicate LessEq(a: string, b: string) {
    if a == [] then true
    else if b == [] then false
    else if a[0] != b[0] then a[0] < b[0]
    else LessEq(a[1..], b[1..])
  }

  lemma {:induction false} LessEqTotal(a: string, b: string)
    ensures LessEq(a, b) || LessEq(b, a)
    decreases |a|
  {
    if a != [] && b != [] && a[0] == b[0] {
      LessEqTotal(a[1..], b[1..]);
    }
  }

  lemma {:induction false} LessEqTrans(a: string, b: string, c: string)
    requires LessEq(a, b) && LessEq(b, c)
    ensures LessEq(a, c)
    decreases |a|
  {
    if a != [] && b != [] && c != [] && a[0] == b[0] && b[0] == c[0] {
      LessEqTrans(a[1..], b[1..], c[1..]);
    }
  }

  /** `parts.join` with no separator. */
  function Concat(parts: seq<string>): (r: string)
  {
    if parts == [] then [] else parts[0] + Concat(parts[1..])
  }

  lemma {:induction false} ConcatAppend(a: seq<string>, b: seq<string>)
    ensures Concat(a + b) == Concat(a) + Concat(b)
    decreases |a|
  {
    if a != [] {
      assert (a + b)[1..] == a[1..] + b;
      ConcatAppend(a[1..], b);
    } else {
      assert a + b == b;
    }
  }

  /** Dropping trailing empty parts does not change their concatenation. */
  lemma {:induction false} ConcatDropTrailingEmpty(parts: seq<string>)
    ensures Concat(DropTrailingEmpty(parts)) == Concat(parts)
    decreases |parts|
  {
    if parts != [] && parts[|parts| - 1] == [] {
      var init := parts[..|parts| - 1];
      ConcatDropTrailingEmpty(init);
      assert parts == init + [[]];
      ConcatAppend(init, [[]]);
    }
  }

  /** `s.delete(c)`: `s` without any occurrence of `c`. */
  function Without(s: string, c: char): (r: string)
    ensures c !in r
    ensures c !in s ==> r == s
    ensures |r| <= |s|
  {
    if s == [] then []
    else (if s[0] == c then [] else [s[0]]) + Without(s[1..], c)
  }

  lemma {:induction false} WithoutAppend(a: string, b: string, c: char)
    ensures Without(a + b, c) == Without(a, c) + Without(b, c)
    decreases |a|
  {
    if a != [] {
      assert (a + b)[1..] == a[1..] + b;
      WithoutAppend(a[1..], b, c);
    } else {
      assert a + b == b;
    }
  }

  /** Concatenating the fields around a one-character separator gives the
      string without that character. */
  lemma {:induction false} ConcatFields(s: string, c: char)
    ensures Concat(Fields(s, [c])) == Without(s, c)
    decreases |s|
  {
    match Find(s, [c])
    case None =>
      NoOccurrenceNotIn(s, c);
      assert Concat([s]) == s + [];
    case Some(i) =>
      ConcatFields(s[i + 1..], c);
      FirstOccurrence(s, c, i);
      assert Fields(s, [c]) == [s[..i]] + Fields(s[i + 1..], [c]);
      ConcatFieldsStep(s, c, i);
  }

  lemma NoOccurrenceNotIn(s: string, c: char)
    requires Find(s, [c]).None?
    ensures c !in s
  {
    forall j | 0 <= j < |s| ensures s[j] != c {
      assert !OccursAt(s, [c], j);
    }
  }

  lemma FirstOccurrence(s: string, c: char, i: nat)
    requires Find(s, [c]) == Some(i)
    ensures i < |s| && s[i] == c
    ensures forall j :: 0 <= j < i ==> s[j] != c
  {
    assert s[i] == c by {
      assert OccursAt(s, [c], i);
      assert s[i + 0] == [c][0];
    }
    forall j | 0 <= j < i ensures s[j] != c {
      assert !OccursAt(s, [c], j);
    }
  }

  lemma ConcatFieldsStep(s: string, c: char, i: nat)
    requires i < |s| && s[i] == c && forall j :: 0 <= j < i ==> s[j] != c
    requires Fields(s, [c]) == [s[..i]] + Fields(s[i + 1..], [c])
    requires Concat(Fields(s[i + 1..], [c])) == Without(s[i + 1..], c)
    ensures Concat(Fields(s, [c])) == Without(s, c)
  {
    var pre, rest := s[..i], s[i + 1..];
    assert c !in pre;
    assert s == (pre + [c]) + rest;
    var fs := Fields(rest, [c]);
    assert ([pre] + fs)[1..] == fs;
    assert Concat([pre] + fs) == pre + Concat(fs);
    WithoutAppend(pre + [c], rest, c);
    WithoutAppend(pre, [c], c);
    assert Without([c], c) == [];
    assert Without(pre + [c], c) == pre;
  }

  lemma DowncaseAppend(a: string, b: string)
    ensures DowncaseStr(a + b) == DowncaseStr(a) + DowncaseStr(b)
  {
    assert forall i :: 0 <= i < |a + b| ==> DowncaseStr(a + b)[i] == (DowncaseStr(a) + DowncaseStr(b))[i];
  }

  /** Lower-casing commutes with deleting a character that is not a letter. */
  lemma {:induction false} DowncaseWithout(s: string, c: char)
    requires !IsLetter(c)
    ensures DowncaseStr(Without(s, c)) == Without(DowncaseStr(s), c)
    decreases |s|
  {
    if s != [] {
      var tail := s[1..];
      DowncaseWithout(tail, c);
      var d := DowncaseStr(s);
      assert d[1..] == DowncaseStr(tail);
      assert Without(d, c) == (if d[0] == c then [] else [d[0]]) + Without(DowncaseStr(tail), c);
      var head := if s[0] == c then [] else [s[0]];
      assert d[0] == c <==> s[0] == c;
      DowncaseAppend(head, Without(tail, c));
    }
  }

  /** `s` with a leading run of `c` removed, and that run. */
  function LeadingRun(s: string, c: char): (r: string)
    ensures |r| <= |s| && r == s[..|r|]
    ensures forall i :: 0 <= i < |r| ==> r[i] == c
    ensures |r| < |s| ==> s[|r|] != c
  {
    if s != [] && s[0] == c then [c] + LeadingRun(s[1..], c) else []
  }
}
