/**
 * The part of nlohmann::json the dot-path readers of backend/src/utils rely
 * on: a value type, `contains(key)`, which is false whenever the value is not
 * an object, `operator[]` after a successful `contains`, and `get<int>()`.
 */
module JsonValue {
  import opened Wrappers

  /** A JSON value (floating-point numbers are not modelled). */
  datatype Json =
    | JNull
    | JBool(b: bool)
    | JInt(i: int)
    | JString(str: string)
    | JArray(elems: seq<Json>)
    | JObject(members: map<string, Json>)

  /** A C++ `int`. */
  type int32 = x: int | -0x8000_0000 <= x < 0x8000_0000

  /** nlohmann's `contains(key)`: only an object holding key contains it. */
  predicate Contains(j: Json, key: string) {
    j.JObject? && key in j.members
  }

  /** `get<int>()` on a stored integer: the conversion to a 32-bit int keeps the value modulo 2^32. */
  function ToInt32(i: int): (r: int32)
    ensures (r - i) % 0x1_0000_0000 == 0
    ensures -0x8000_0000 <= i < 0x8000_0000 ==> r == i
  {
    (i + 0x8000_0000) % 0x1_0000_0000 - 0x8000_0000
  }

  /**
   * Following a path of keys: each step checks `contains` and then indexes;
   * null as soon as one key is absent.
   */
  function Navigate(j: Json, path: seq<string>): (r: Json)
    decreases |path|
  {
    if path == [] then j
    else if Contains(j, path[0]) then Navigate(j.members[path[0]], path[1..])
    else JNull
  }

  /** The value stored at the end of a path, or None when some key on the way is absent. */
  function Lookup(j: Json, path: seq<string>): (r: Option<Json>)
    decreases |path|
  {
    if path == [] then Some(j)
    else if Contains(j, path[0]) then Lookup(j.members[path[0]], path[1..])
    else None
  }

  /** Navigation gives the stored value, or null for a missing path: the two are conflated. */
  lemma {:induction false} NavigateIsLookup(j: Json, path: seq<string>)
    ensures Navigate(j, path) == Lookup(j, path).GetOr(JNull)
    decreases |path|
  {
    if path != [] && Contains(j, path[0]) {
      NavigateIsLookup(j.members[path[0]], path[1..]);
    }
  }

  lemma {:induction false} NavigateNull(path: seq<string>)
    ensures Navigate(JNull, path) == JNull
  {
  }

  /** Navigating a concatenated path is navigating the first part, then the second from there. */
  lemma {:induction false} NavigateAppend(j: Json, a: seq<string>, b: seq<string>)
    ensures Navigate(j, a + b) == Navigate(Navigate(j, a), b)
    decreases |a|
  {
    if a == [] {
      assert a + b == b;
    } else {
      assert (a + b)[0] == a[0];
      assert (a + b)[1..] == a[1..] + b;
      if Contains(j, a[0]) {
        NavigateAppend(j.members[a[0]], a[1..], b);
      } else {
        NavigateNull(b);
      }
    }
  }

  lemma {:induction false} LookupAppend(j: Json, a: seq<string>, b: seq<string>)
    ensures Lookup(j, a + b) == match Lookup(j, a) case None => None case Some(v) => Lookup(v, b)
    decreases |a|
  {
    if a == [] {
      assert a + b == b;
    } else {
      assert (a + b)[0] == a[0];
      assert (a + b)[1..] == a[1..] + b;
      if Contains(j, a[0]) {
        LookupAppend(j.members[a[0]], a[1..], b);
      }
    }
  }

  /** Navigation stops at the first absent key: whatever follows it, the result is null. */
  lemma StopsAtMissingKey(j: Json, path: seq<string>, k: nat)
    requires k < |path| && Lookup(j, path[..k]).Some?
    requires !Contains(Lookup(j, path[..k]).value, path[k])
    ensures Lookup(j, path) == None && Navigate(j, path) == JNull
  {
    assert path == path[..k] + path[k..];
    LookupAppend(j, path[..k], path[k..]);
    NavigateIsLookup(j, path);
  }
}
