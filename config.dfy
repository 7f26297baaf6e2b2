/**
 * The key lookup of Crypto::Utils::Config (backend/src/utils/config.cpp),
 * taken as functions of the configuration value instead of the singleton
 * that holds it. Unlike JSONHelper, a key is split with getline and its
 * empty segments are kept: each one looks up the member named "".
 */
module Config {
  import opened JsonValue
  import opened Tokenizer
  import JsonHelper

  /** The value Config::getValueByKey returns. */
  function ValueByKey(config: Json, key: string): (r: Json)
    ensures key == "" ==> r == config
  {
    Navigate(config, Tokens(key))
  }

  /**
   * Config::getValueByKey: a getline loop that moves a cursor into the
   * configuration, returning null as soon as the cursor's value does not
   * contain the segment. `operator[]` is reached only after `contains`
   * succeeds, so nothing is inserted; the configuration is a value here and
   * cannot change.
   */
  method GetValueByKey(config: Json, key: string) returns (r: Json)
    ensures r == ValueByKey(config, key)
  {
    var current := config;
    var pos := 0;
    assert key[pos..] == key;
    while true
      invariant pos <= |key|
      invariant ValueByKey(config, key) == Navigate(current, Tokens(key[pos..]))
      decreases |key| - pos
    {
      var ok, part, next := Getline(key, pos);
      if !ok {
        break;
      }
      if !Contains(current, part) {
        return JNull;
      }
      assert ([part] + Tokens(key[next..]))[1..] == Tokens(key[next..]);
      current := current.members[part];
      pos := next;
    }
    return current;
  }

  /** Config::getString: the resolved value when it is a string, otherwise "". */
  function GetString(config: Json, key: string): (r: string)
    ensures ValueByKey(config, key).JString? ==> r == ValueByKey(config, key).str
    ensures !ValueByKey(config, key).JString? ==> r == ""
  {
    match ValueByKey(config, key)
    case JString(s) => s
    case _ => ""
  }

  /** Config::getInt: the resolved value, converted to int, when it is an integer, otherwise 0. */
  function GetInt(config: Json, key: string): (r: int32)
    ensures ValueByKey(config, key).JInt? ==> r == ToInt32(ValueByKey(config, key).i)
    ensures !ValueByKey(config, key).JInt? ==> r == 0
  {
    match ValueByKey(config, key)
    case JInt(i) => ToInt32(i)
    case _ => 0
  }

  /** Config::getBool: the resolved value when it is a boolean, otherwise false. */
  function GetBool(config: Json, key: string): (r: bool)
    ensures ValueByKey(config, key).JBool? ==> r == ValueByKey(config, key).b
    ensures !ValueByKey(config, key).JBool? ==> r == false
  {
    match ValueByKey(config, key)
    case JBool(b) => b
    case _ => false
  }

  /** A key without dots reads the member of that name, or null when there is none. */
  lemma ValueByKeyOfSegment(config: Json, key: string)
    requires key != "" && '.' !in key
    ensures ValueByKey(config, key) == if Contains(config, key) then config.members[key] else JNull
  {
    TokensOfSegment(key);
    assert Tokens(key) == [key];
    assert [key][1..] == [];
    assert Navigate(config, [key]) == if Contains(config, key) then config.members[key] else JNull;
  }

  /**
   * Each dot-separated segment is looked up in turn, the empty one included:
   * the segment before the first dot must be a member of the configuration,
   * and the rest of the key is read from that member.
   */
  lemma ValueByKeyStep(config: Json, segment: string, rest: string)
    requires '.' !in segment
    ensures ValueByKey(config, segment + "." + rest) ==
      if Contains(config, segment) then ValueByKey(config.members[segment], rest) else JNull
  {
    TokensJoin(segment, rest);
    TokensOfSegment(segment);
    assert Tokens(segment + "." + rest) == [segment] + Tokens(rest);
    assert ([segment] + Tokens(rest))[1..] == Tokens(rest);
  }

  /** A leading dot makes the first segment the empty key "". */
  lemma LeadingDotLooksUpEmptyKey(config: Json, rest: string)
    ensures ValueByKey(config, "." + rest) ==
      if Contains(config, "") then ValueByKey(config.members[""], rest) else JNull
  {
    ValueByKeyStep(config, "", rest);
    assert "" + "." + rest == "." + rest;
  }

  /**
   * The two readers part ways on a doubled dot: in {a: {b: v}} the
   * configuration reader finds v at a.b but nothing at a..b, because there
   * it looks for the key "" inside a; it finds v at a..b only in
   * {a: {"": {b: v}}}.
   */
  lemma DoubledDotDiffers(a: string, b: string, v: Json)
    requires a != "" && '.' !in a && b != "" && '.' !in b
    ensures ValueByKey(JObject(map[a := JObject(map[b := v])]), a + "." + b) == v
    ensures ValueByKey(JObject(map[a := JObject(map[b := v])]), a + ".." + b) == JNull
    ensures ValueByKey(JObject(map[a := JObject(map["" := JObject(map[b := v])])]), a + ".." + b) == v
  {
    var inner := JObject(map[b := v]);
    var config := JObject(map[a := inner]);
    assert a + ".." + b == a + "." + ("." + b);
    ValueByKeyOfSegment(inner, b);
    assert ValueByKey(config, a + "." + b) == v by {
      ValueByKeyStep(config, a, b);
    }
    assert ValueByKey(config, a + ".." + b) == JNull by {
      ValueByKeyStep(config, a, "." + b);
      LeadingDotLooksUpEmptyKey(inner, b);
      assert !Contains(inner, "");
    }
    var config2 := JObject(map[a := JObject(map["" := inner])]);
    assert ValueByKey(config2, a + ".." + b) == v by {
      ValueByKeyStep(config2, a, "." + b);
      LeadingDotLooksUpEmptyKey(JObject(map["" := inner]), b);
    }
  }

  /** JSONHelper, by contrast, resolves a..b in {a: {b: v}} like a.b. */
  lemma HelperSkipsDoubledDot(a: string, b: string, v: Json)
    requires a != "" && '.' !in a && b != "" && '.' !in b
    ensures JsonHelper.GetNestedValue(JObject(map[a := JObject(map[b := v])]), a + ".." + b) == v
  {
    var inner := JObject(map[b := v]);
    var config := JObject(map[a := inner]);
    assert JsonHelper.SplitPathOf(a + ".." + b) == [a, b] by {
      JsonHelper.SplitPathIgnoresDoubledDot(a, b);
      JsonHelper.SplitPathJoin(a, b);
      JsonHelper.SplitPathOfSegment(a);
      JsonHelper.SplitPathOfSegment(b);
    }
    assert Navigate(config, [a, b]) == v by {
      assert [a, b][0] == a && [a, b][1..] == [b];
      assert Contains(config, a) && config.members[a] == inner;
      assert [b][1..] == [];
      assert Navigate(inner, [b]) == Navigate(v, []);
    }
  }
}
