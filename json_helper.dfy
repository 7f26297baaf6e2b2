/**
 * The key and dot-path accessors of Crypto::Utils::JSONHelper
 * (backend/src/utils/JSONHelper.cpp). Every accessor is total: where the
 * source would throw inside a try block it returns the default or null.
 */
module JsonHelper {
  import opened Wrappers
  import opened JsonValue
  import opened Tokenizer

  /** JSONHelper::hasKey: `contains`, so false for anything that is not an object. */
  function HasKey(j: Json, key: string): (r: bool)
    ensures r <==> j.JObject? && key in j.members
  {
    Contains(j, key)
  }

  /** JSONHelper::getString: the stored string when key holds a string, otherwise the default. */
  function GetString(j: Json, key: string, defaultValue: string): (r: string)
    ensures HasKey(j, key) && j.members[key].JString? ==> r == j.members[key].str
    ensures !(HasKey(j, key) && j.members[key].JString?) ==> r == defaultValue
  {
    if Contains(j, key) && j.members[key].JString? then j.members[key].str else defaultValue
  }

  /** JSONHelper::getInt: the stored integer, converted to int, when key holds one; otherwise the default. */
  function GetInt(j: Json, key: string, defaultValue: int32): (r: int32)
    ensures HasKey(j, key) && j.members[key].JInt? ==> r == ToInt32(j.members[key].i)
    ensures !(HasKey(j, key) && j.members[key].JInt?) ==> r == defaultValue
  {
    if Contains(j, key) && j.members[key].JInt? then ToInt32(j.members[key].i) else defaultValue
  }

  /** JSONHelper::getBool: the stored boolean when key holds one, otherwise the default. */
  function GetBool(j: Json, key: string, defaultValue: bool): (r: bool)
    ensures HasKey(j, key) && j.members[key].JBool? ==> r == j.members[key].b
    ensures !(HasKey(j, key) && j.members[key].JBool?) ==> r == defaultValue
  {
    if Contains(j, key) && j.members[key].JBool? then j.members[key].b else defaultValue
  }

  /** A getter returns what was stored under a key with the matching type, whatever else the object holds. */
  lemma GettersReadStoredValues(m: map<string, Json>, key: string, s: string, n: int, flag: bool, dS: string, dI: int32, dB: bool)
    ensures GetString(JObject(m[key := JString(s)]), key, dS) == s
    ensures GetInt(JObject(m[key := JInt(n)]), key, dI) == ToInt32(n)
    ensures GetBool(JObject(m[key := JBool(flag)]), key, dB) == flag
    ensures GetString(JObject(m[key := JInt(n)]), key, dS) == dS
    ensures GetInt(JObject(m[key := JString(s)]), key, dI) == dI
    ensures GetBool(JObject(m[key := JNull]), key, dB) == dB
  {
  }

  /** The non-empty strings of ts, in order. */
  function NonEmpty(ts: seq<string>): (r: seq<string>)
    ensures forall t :: t in r ==> t != [] && t in ts
  {
    if ts == [] then []
    else (if ts[0] == [] then [] else [ts[0]]) + NonEmpty(ts[1..])
  }

  lemma {:induction false} NonEmptyConcat(a: seq<string>, b: seq<string>)
    ensures NonEmpty(a + b) == NonEmpty(a) + NonEmpty(b)
  {
    if a == [] {
      assert a + b == b;
    } else {
      assert (a + b)[0] == a[0];
      assert (a + b)[1..] == a[1..] + b;
      NonEmptyConcat(a[1..], b);
    }
  }

  lemma {:induction false} ConcatNonEmpty(ts: seq<string>)
    ensures Concat(NonEmpty(ts)) == Concat(ts)
  {
    if ts != [] {
      ConcatNonEmpty(ts[1..]);
      var head := if ts[0] == [] then [] else [ts[0]];
      ConcatAppend(head, NonEmpty(ts[1..]));
      assert Concat([ts[0]]) == ts[0] + Concat([]);
    }
  }

  /** The parts JSONHelper::splitPath returns: the getline tokens with the empty ones dropped. */
  function SplitPathOf(path: string): (parts: seq<string>)
    ensures forall t :: t in parts ==> t != "" && '.' !in t
  {
    TokensDotFree(path);
    NonEmpty(Tokens(path))
  }

  /** JSONHelper::splitPath: reads tokens with getline and keeps the non-empty ones. */
  method SplitPath(path: string) returns (parts: seq<string>)
    ensures parts == SplitPathOf(path)
    ensures forall t :: t in parts ==> t != "" && '.' !in t
  {
    parts := [];
    var pos := 0;
    assert path[pos..] == path;
    while true
      invariant pos <= |path|
      invariant SplitPathOf(path) == parts + NonEmpty(Tokens(path[pos..]))
      decreases |path| - pos
    {
      var ok, token, next := Getline(path, pos);
      if !ok {
        break;
      }
      var later := Tokens(path[next..]);
      NonEmptyConcat([token], later);
      assert NonEmpty([token]) == if token == "" then [] else [token] by {
        assert [token][1..] == [];
      }
      assert NonEmpty(Tokens(path[pos..])) == NonEmpty([token]) + NonEmpty(later);
      if token != "" {
        assert parts + ([token] + NonEmpty(later)) == (parts + [token]) + NonEmpty(later);
        parts := parts + [token];
      } else {
        assert [] + NonEmpty(later) == NonEmpty(later);
      }
      pos := next;
    }
  }

  /** splitPath loses nothing but dots: its parts concatenate to the path with every '.' removed. */
  lemma SplitPathConcat(path: string)
    ensures Concat(SplitPathOf(path)) == RemoveDots(path)
  {
    ConcatNonEmpty(Tokens(path));
    TokensConcat(path);
  }

  /** splitPath splits at every dot: the parts of a + "." + b are those of a, then those of b. */
  lemma SplitPathJoin(a: string, b: string)
    ensures SplitPathOf(a + "." + b) == SplitPathOf(a) + SplitPathOf(b)
  {
    var fa, ta, tb := Fields(a), Tokens(a), Tokens(b);
    var tail: seq<string> := if a == [] || EndsWithDot(a) then [""] else [];
    assert Tokens(a + "." + b) == fa + tb by {
      TokensJoin(a, b);
    }
    assert fa == ta + tail by {
      FieldsTokens(a);
    }
    assert NonEmpty(tail) == [] by {
      NonEmptySingle("");
    }
    NonEmptyConcat(fa, tb);
    NonEmptyConcat(ta, tail);
    assert NonEmpty(ta) + [] == NonEmpty(ta);
  }

  lemma NonEmptySingle(t: string)
    ensures NonEmpty([t]) == if t == "" then [] else [t]
  {
    assert [t][1..] == [];
  }

  /** A path without dots is a single part, or none when it is empty. */
  lemma SplitPathOfSegment(a: string)
    requires '.' !in a
    ensures SplitPathOf(a) == if a == "" then [] else [a]
  {
    TokensOfSegment(a);
    if a != "" {
      assert Tokens(a) == [a];
      assert [a][1..] == [];
      assert NonEmpty([a]) == [a] + NonEmpty([]);
    }
  }

  /** JSONHelper::navigateToPath: moves `current` one key at a time, returning null at the first absent key. */
  method NavigateToPath(j: Json, pathParts: seq<string>) returns (r: Json)
    ensures r == Navigate(j, pathParts)
  {
    var current := j;
    for i := 0 to |pathParts|
      invariant Navigate(j, pathParts) == Navigate(current, pathParts[i..])
    {
      assert pathParts[i..][1..] == pathParts[i + 1..];
      if !Contains(current, pathParts[i]) {
        return JNull;
      }
      current := current.members[pathParts[i]];
    }
    return current;
  }

  /** JSONHelper::getNestedValue: navigates along the parts of the dot path. */
  function GetNestedValue(j: Json, path: string): (r: Json)
    ensures path == "" ==> r == j
    ensures r == Lookup(j, SplitPathOf(path)).GetOr(JNull)
  {
    NavigateIsLookup(j, SplitPathOf(path));
    Navigate(j, SplitPathOf(path))
  }

  /** JSONHelper::hasNestedKey: true exactly when the path exists and its value is not null. */
  function HasNestedKey(j: Json, path: string): (r: bool)
    ensures r <==> Lookup(j, SplitPathOf(path)).Some? && Lookup(j, SplitPathOf(path)).value != JNull
  {
    !GetNestedValue(j, path).JNull?
  }

  /** A leading dot adds only an empty token, which splitPath drops. */
  lemma SplitPathIgnoresLeadingDot(a: string)
    ensures SplitPathOf("." + a) == SplitPathOf(a)
  {
    var ta := Tokens(a);
    assert Tokens("." + a) == [""] + ta by {
      TokensJoin("", a);
      assert "" + "." + a == "." + a;
    }
    NonEmptyConcat([""], ta);
    NonEmptySingle("");
    assert [] + NonEmpty(ta) == NonEmpty(ta);
  }

  /** A trailing dot adds no token at all. */
  lemma SplitPathIgnoresTrailingDot(a: string)
    ensures SplitPathOf(a + ".") == SplitPathOf(a)
  {
    assert SplitPathOf("") == [] by {
      SplitPathOfSegment("");
    }
    SplitPathJoin(a, "");
    assert a + "." + "" == a + ".";
    assert SplitPathOf(a) + [] == SplitPathOf(a);
  }

  /** A doubled dot adds only an empty token between the parts. */
  lemma SplitPathIgnoresDoubledDot(a: string, b: string)
    ensures SplitPathOf(a + ".." + b) == SplitPathOf(a + "." + b)
  {
    SplitPathJoin(a, "." + b);
    assert a + "." + ("." + b) == a + ".." + b;
    SplitPathIgnoresLeadingDot(b);
    SplitPathJoin(a, b);
  }

  /** Extra dots do not matter to getNestedValue: leading, trailing and doubled dots resolve like single ones. */
  lemma GetNestedValueIgnoresExtraDots(j: Json, a: string, b: string)
    ensures GetNestedValue(j, "." + a) == GetNestedValue(j, a)
    ensures GetNestedValue(j, a + ".") == GetNestedValue(j, a)
    ensures GetNestedValue(j, a + ".." + b) == GetNestedValue(j, a + "." + b)
  {
    SplitPathIgnoresLeadingDot(a);
    SplitPathIgnoresTrailingDot(a);
    SplitPathIgnoresDoubledDot(a, b);
  }

  /** A one-segment path reads the member directly, as getString and the other getters do. */
  lemma GetNestedValueOfKey(j: Json, key: string)
    requires key != "" && '.' !in key
    ensures GetNestedValue(j, key) == if HasKey(j, key) then j.members[key] else JNull
  {
    SplitPathOfSegment(key);
    assert [key][1..] == [];
    assert Navigate(j, [key]) == if Contains(j, key) then j.members[key] else JNull;
  }

  /** What JSONHelper::validateRequiredFields throws: a JSONException naming the field. */
  datatype JsonError = MissingField(field: string)

  /** The exception's what() text: JSONException prefixes its message with "JSON Error: ". */
  function Message(e: JsonError): string {
    "JSON Error: " + "Missing required field: " + e.field
  }

  /** JSONHelper::validateRequiredFields: checks the fields in order and stops at the first missing one. */
  method ValidateRequiredFields(j: Json, requiredFields: seq<string>) returns (r: Outcome<JsonError>)
    ensures r.Pass? <==> forall f :: f in requiredFields ==> HasKey(j, f)
    ensures r.Fail? ==>
      exists k :: 0 <= k < |requiredFields| && r.error == MissingField(requiredFields[k]) &&
        !HasKey(j, requiredFields[k]) && forall i :: 0 <= i < k ==> HasKey(j, requiredFields[i])
    ensures r.Fail? ==> Message(r.error) == "JSON Error: Missing required field: " + r.error.field
  {
    for k := 0 to |requiredFields|
      invariant forall i :: 0 <= i < k ==> HasKey(j, requiredFields[i])
    {
      if !HasKey(j, requiredFields[k]) {
        var e := MissingField(requiredFields[k]);
        assert Message(e) == "JSON Error: Missing required field: " + e.field;
        return Fail(e);
      }
    }
    return Pass;
  }
}
