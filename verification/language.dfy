/** `Language.serialize`: the compact printer used in error messages. Hashes
    print as `{k:v,...}` and arrays as `[a,b,...]`, with nothing between the
    separators; every other value prints as its JSON encoding. */
module Language {
  import opened Hashes
  import opened RubyStrings
  import opened RubyValues

  /** `Language.serialize(value)`; `json` is `JSON.generate` on a value that
      is neither a hash nor an array. */
  function Serialize(v: RValue, json: RValue -> string): (r: string)
    ensures v.RHash? ==> |r| >= 2 && r[0] == '{' && r[|r| - 1] == '}'
    ensures v.RList? ==> |r| >= 2 && r[0] == '[' && r[|r| - 1] == ']'
    ensures !v.RHash? && !v.RList? ==> r == json(v)
    decreases v, 1, 0
  {
    match v
    case RHash(h) => "{" + Join(Pairs(v, h.keys, json), ",") + "}"
    case RList(items) => "[" + Join(Items(v, items, json), ",") + "]"
    case _ => json(v)
  }

  /** The `"k:v"` strings of a hash, in its iteration order (a key missing
      from the table, which a valid hash never has, prints as `nil`). */
  function Pairs(parent: RValue, ks: seq<string>, json: RValue -> string): (r: seq<string>)
    requires parent.RHash?
    ensures |r| == |ks|
    ensures forall i :: 0 <= i < |ks| && ks[i] in parent.h.m ==>
      r[i] == ks[i] + ":" + (assert parent.h.m[ks[i]] in parent.h.m.Values; Serialize(parent.h.m[ks[i]], json))
    ensures forall i :: 0 <= i < |ks| && ks[i] !in parent.h.m ==> r[i] == ks[i] + ":" + json(RNil)
    decreases parent, 0, |ks|
  {
    if ks == [] then []
    else
      var k := ks[0];
      var printed := if k in parent.h.m then
        assert parent.h.m[k] in parent.h.m.Values;
        Serialize(parent.h.m[k], json)
      else json(RNil);
      [k + ":" + printed] + Pairs(parent, ks[1..], json)
  }

  /** The printed elements of an array, in order. */
  function Items(parent: RValue, items: seq<RValue>, json: RValue -> string): (r: seq<string>)
    requires forall x :: x in items ==> x < parent
    ensures |r| == |items|
    ensures forall i :: 0 <= i < |items| ==> r[i] == (assert items[i] in items; Serialize(items[i], json))
    decreases parent, 0, |items|
  {
    if items == [] then []
    else
      assert items[0] in items && forall x :: x in items[1..] ==> x in items;
      [Serialize(items[0], json)] + Items(parent, items[1..], json)
  }

  predicate IsSpace(c: char) {
    c == ' ' || c == '\t' || c == '\n' || c == '\r'
  }

  predicate NoSpace(s: string) {
    forall i :: 0 <= i < |s| ==> !IsSpace(s[i])
  }

  /** Every hash inside `v` is a valid hash whose keys satisfy `p`. */
  ghost predicate KeysAll(v: RValue, p: string -> bool)
    decreases v
  {
    match v
    case RHash(h) =>
      h.Valid() &&
      forall k :: k in h.m ==> p(k) && (assert h.m[k] in h.m.Values; KeysAll(h.m[k], p))
    case RList(items) => forall i :: 0 <= i < |items| ==> KeysAll(items[i], p)
    case _ => true
  }

  lemma {:induction false} JoinNoSpace(parts: seq<string>, sep: string)
    requires NoSpace(sep) && forall i :: 0 <= i < |parts| ==> NoSpace(parts[i])
    ensures NoSpace(Join(parts, sep))
  {
    if |parts| > 1 {
      JoinNoSpace(parts[1..], sep);
      var rest := Join(parts[1..], sep);
      var s := parts[0] + sep + rest;
      forall i | 0 <= i < |s| ensures !IsSpace(s[i]) {
        if i < |parts[0]| {
          assert s[i] == parts[0][i];
        } else if i < |parts[0]| + |sep| {
          assert s[i] == sep[i - |parts[0]|];
        } else {
          assert s[i] == rest[i - |parts[0]| - |sep|];
        }
      }
    }
  }

  /** No whitespace is inserted: the output holds whitespace only where a
      key or a JSON-encoded value does. */
  lemma {:induction false} SerializeNoSpace(v: RValue, json: RValue -> string)
    requires forall x :: NoSpace(json(x))
    requires KeysAll(v, NoSpace)
    ensures NoSpace(Serialize(v, json))
    decreases v, 1, 0
  {
    match v
    case RHash(h) =>
      PairsNoSpace(v, h.keys, json);
      JoinNoSpace(Pairs(v, h.keys, json), ",");
      BracketedNoSpace("{", Join(Pairs(v, h.keys, json), ","), "}");
    case RList(items) =>
      ItemsNoSpace(v, items, json);
      JoinNoSpace(Items(v, items, json), ",");
      BracketedNoSpace("[", Join(Items(v, items, json), ","), "]");
    case _ =>
  }

  lemma BracketedNoSpace(open: string, inner: string, close: string)
    requires NoSpace(open) && NoSpace(inner) && NoSpace(close)
    ensures NoSpace(open + inner + close)
  {
    var s := open + inner + close;
    forall i | 0 <= i < |s| ensures !IsSpace(s[i]) {
      if i < |open| {
        assert s[i] == open[i];
      } else if i < |open| + |inner| {
        assert s[i] == inner[i - |open|];
      } else {
        assert s[i] == close[i - |open| - |inner|];
      }
    }
  }

  lemma {:induction false} PairsNoSpace(parent: RValue, ks: seq<string>, json: RValue -> string)
    requires parent.RHash?
    requires forall x :: NoSpace(json(x))
    requires KeysAll(parent, NoSpace) && forall k :: k in ks ==> k in parent.h.m
    ensures forall i :: 0 <= i < |ks| ==> NoSpace(Pairs(parent, ks, json)[i])
    decreases parent, 0, |ks|
  {
    if ks != [] {
      var k := ks[0];
      assert k in parent.h.m;
      assert parent.h.m[k] in parent.h.m.Values;
      SerializeNoSpace(parent.h.m[k], json);
      var printed := Serialize(parent.h.m[k], json);
      var s := k + ":" + printed;
      forall i | 0 <= i < |s| ensures !IsSpace(s[i]) {
        if i < |k| {
          assert s[i] == k[i];
        } else if i > |k| {
          assert s[i] == printed[i - |k| - 1];
        }
      }
      PairsNoSpace(parent, ks[1..], json);
      assert forall i :: 1 <= i < |ks| ==> Pairs(parent, ks, json)[i] == Pairs(parent, ks[1..], json)[i - 1];
    }
  }

  lemma {:induction false} ItemsNoSpace(parent: RValue, items: seq<RValue>, json: RValue -> string)
    requires forall x :: x in items ==> x < parent
    requires forall x :: NoSpace(json(x))
    requires forall i :: 0 <= i < |items| ==> KeysAll(items[i], NoSpace)
    ensures forall i :: 0 <= i < |items| ==> NoSpace(Items(parent, items, json)[i])
    decreases parent, 0, |items|
  {
    if items != [] {
      assert items[0] in items && forall x :: x in items[1..] ==> x in items;
      SerializeNoSpace(items[0], json);
      ItemsNoSpace(parent, items[1..], json);
      assert forall i :: 1 <= i < |items| ==> Items(parent, items, json)[i] == Items(parent, items[1..], json)[i - 1];
    }
  }

  /** `serialize({"a" => [1, 2]})` is `{a:[1,2]}`. */
  lemma SerializeExample(json: RValue -> string)
    requires json(RInt(1)) == "1" && json(RInt(2)) == "2"
    ensures Serialize(RHash(Hash(["a"], map["a" := RList([RInt(1), RInt(2)])])), json) == "{a:[1,2]}"
  {
    var list := RList([RInt(1), RInt(2)]);
    assert Items(list, [RInt(2)], json) == ["2"];
    assert Items(list, list.items, json) == ["1", "2"];
    assert Join(["1", "2"], ",") == "1,2" by {
      assert ["1", "2"][1..] == ["2"];
    }
    assert Serialize(list, json) == "[1,2]";
    var v := RHash(Hash(["a"], map["a" := list]));
    assert Pairs(v, ["a"], json) == ["a:[1,2]"] by {
      assert "a" in v.h.m && v.h.m["a"] == list;
      assert ["a"][1..] == [];
      assert Pairs(v, ["a"], json) == ["a" + ":" + Serialize(list, json)] + Pairs(v, [], json);
      assert Pairs(v, [], json) == [];
      assert "a" + ":" + "[1,2]" == "a:[1,2]";
    }
  }
}
