/**
 * The path tokenizer both dot-path readers use: `std::getline(stream, token,
 * '.')` over a std::stringstream holding the path. Each call extracts the
 * characters up to the next '.', which it consumes, or up to the end of the
 * text; it fails only when nothing is left to read. A trailing '.' therefore
 * yields no final empty token, the empty text yields no token at all, and a
 * leading or doubled '.' yields an empty token.
 */
module Tokenizer {

  /** Everything between the dots of s, in order: always one field more than s has dots. */
  function Fields(s: string): (fs: seq<string>)
    ensures |fs| >= 1
  {
    if s == [] then [""]
    else
      var rest := Fields(s[1..]);
      if s[0] == '.' then [""] + rest else [[s[0]] + rest[0]] + rest[1..]
  }

  predicate EndsWithDot(s: string) {
    s != [] && s[|s| - 1] == '.'
  }

  /**
   * The tokens that successive getline calls read from s, in order: the
   * fields of s without a final empty one, which getline never reads,
   * since it fails once nothing is left.
   */
  function Tokens(s: string): seq<string> {
    DropFinalEmpty(Fields(s))
  }

  function DropFinalEmpty(fs: seq<string>): seq<string>
    requires |fs| >= 1
  {
    if fs[|fs| - 1] == "" then fs[..|fs| - 1] else fs
  }

  lemma DropFinalEmptyAppend(x: seq<string>, y: seq<string>)
    requires |y| >= 1
    ensures DropFinalEmpty(x + y) == x + DropFinalEmpty(y)
  {
    assert (x + y)[|x + y| - 1] == y[|y| - 1];
    assert (x + y)[..|x + y| - 1] == x + y[..|y| - 1];
  }

  /**
   * One getline call on the stream positioned at pos: it succeeds exactly
   * when text is left, and then reads the first of Tokens(s[pos..]).
   */
  method Getline(s: string, pos: nat) returns (ok: bool, token: string, next: nat)
    requires pos <= |s|
    ensures ok <==> pos < |s|
    ensures ok ==> pos < next <= |s| && '.' !in token
    ensures ok ==> Tokens(s[pos..]) == [token] + Tokens(s[next..])
    ensures !ok ==> Tokens(s[pos..]) == []
  {
    if pos == |s| {
      return false, "", pos;
    }
    var i := pos;
    token := "";
    while i < |s| && s[i] != '.'
      invariant pos <= i <= |s|
      invariant token == s[pos..i]
      invariant '.' !in token
    {
      token := token + [s[i]];
      i := i + 1;
    }
    ok := true;
    next := if i < |s| then i + 1 else i;
    assert token == s[pos..i] && '.' !in s[pos..i];
    TokenAt(s, pos, i);
    assert Tokens(s[pos..]) == [token] + Tokens(s[next..]);
  }

  /** The token read at pos ends at the first dot after pos, or at the end. */
  lemma TokenAt(s: string, pos: nat, i: nat)
    requires pos < |s| && pos <= i <= |s|
    requires i < |s| ==> s[i] == '.'
    requires '.' !in s[pos..i]
    ensures Tokens(s[pos..]) == [s[pos..i]] + Tokens(s[if i < |s| then i + 1 else i..])
  {
    var token := s[pos..i];
    if i < |s| {
      assert s[pos..] == token + "." + s[i + 1..];
      TokensJoin(token, s[i + 1..]);
      FieldsOfSegment(token);
    } else {
      assert s[pos..] == token;
      assert s[i..] == [];
      TokensOfSegment(token);
    }
  }

  /** A dot-free text is a single field. */
  lemma {:induction false} FieldsOfSegment(a: string)
    requires '.' !in a
    ensures Fields(a) == [a]
  {
    if a != [] {
      assert a[0] in a;
      assert '.' !in a[1..] by {
        forall c | c in a[1..] ensures c in a { }
      }
      FieldsOfSegment(a[1..]);
      assert [a[0]] + a[1..] == a;
    }
  }

  /** A dot-free text is one token, or none when it is empty. */
  lemma TokensOfSegment(a: string)
    requires '.' !in a
    ensures Tokens(a) == if a == [] then [] else [a]
    ensures Fields(a) == [a]
  {
    FieldsOfSegment(a);
    assert [a][..0] == [];
  }

  /** No field, and so no token, contains the delimiter. */
  lemma {:induction false} FieldsDotFree(s: string)
    ensures forall t :: t in Fields(s) ==> '.' !in t
  {
    if s != [] {
      FieldsDotFree(s[1..]);
      var rest := Fields(s[1..]);
      if s[0] != '.' {
        assert rest[0] in rest;
        forall t | t in rest[1..] ensures t in rest { }
      }
    }
  }

  lemma TokensDotFree(s: string)
    ensures forall t :: t in Tokens(s) ==> '.' !in t
  {
    FieldsDotFree(s);
    var fs := Fields(s);
    forall t | t in fs[..|fs| - 1] ensures t in fs { }
  }

  /** Splitting a + "." + b: the fields of a, then those of b. */
  lemma {:induction false} FieldsJoin(a: string, b: string)
    ensures Fields(a + "." + b) == Fields(a) + Fields(b)
  {
    if a == [] {
      assert (a + "." + b)[1..] == b;
    } else {
      var c, a' := a[0], a[1..];
      var fa, fb := Fields(a'), Fields(b);
      var head := if c == '.' then [""] + fa else [[c] + fa[0]] + fa[1..];
      assert Fields([c] + (a' + "." + b)) == head + fb by {
        FieldsJoin(a', b);
        FieldsConsAppend(c, a' + "." + b, fa, fb);
      }
      assert Fields([c] + a') == head by {
        FieldsCons(c, a');
      }
      assert [c] + a' == a;
      assert [c] + (a' + "." + b) == a + "." + b;
    }
  }

  /** A first character in front of a text whose fields end with fb leaves fb at the end. */
  lemma FieldsConsAppend(c: char, t: string, r: seq<string>, fb: seq<string>)
    requires Fields(t) == r + fb && |r| >= 1
    ensures Fields([c] + t) == (if c == '.' then [""] + r else [[c] + r[0]] + r[1..]) + fb
  {
    FieldsCons(c, t);
    if c == '.' {
      assert [""] + (r + fb) == ([""] + r) + fb;
    } else {
      MergeHead([c], r, fb);
    }
  }

  /** How a first character extends the fields of the rest of the text. */
  lemma FieldsCons(c: char, t: string)
    ensures Fields([c] + t) == if c == '.' then [""] + Fields(t) else [[c] + Fields(t)[0]] + Fields(t)[1..]
  {
    assert ([c] + t)[1..] == t;
  }

  lemma MergeHead(h: string, r: seq<string>, fb: seq<string>)
    requires |r| >= 1
    ensures [h + (r + fb)[0]] + (r + fb)[1..] == ([h + r[0]] + r[1..]) + fb
  {
    assert (r + fb)[0] == r[0];
    assert (r + fb)[1..] == r[1..] + fb;
  }

  /** Reading past a dot: the fields before it, then the tokens after it. */
  lemma TokensJoin(a: string, b: string)
    ensures Tokens(a + "." + b) == Fields(a) + Tokens(b)
  {
    FieldsJoin(a, b);
    DropFinalEmptyAppend(Fields(a), Fields(b));
  }

  /** A text with a dot in it has at least two fields. */
  lemma {:induction false} FieldsOfDotted(s: string)
    requires '.' in s
    ensures |Fields(s)| >= 2
  {
    if s[0] != '.' {
      assert '.' in s[1..] by {
        var k :| 0 <= k < |s| && s[k] == '.';
        assert s[1..][k - 1] == '.';
      }
      FieldsOfDotted(s[1..]);
    }
  }

  /** The last field is empty exactly when the text is empty or ends with a dot. */
  lemma {:induction false} LastFieldEmpty(s: string)
    ensures var fs := Fields(s); fs[|fs| - 1] == "" <==> s == [] || EndsWithDot(s)
  {
    if s != [] {
      var t := s[1..];
      LastFieldEmpty(t);
      var ft := Fields(t);
      if t != [] {
        assert s[|s| - 1] == t[|t| - 1];
      }
      if s[0] != '.' && |ft| == 1 && t != [] && EndsWithDot(t) {
        assert t[|t| - 1] in t;
        FieldsOfDotted(t);
      }
    }
  }

  /** The tokens are the fields without a final empty one. */
  lemma FieldsTokens(a: string)
    ensures Fields(a) == Tokens(a) + (if a == [] || EndsWithDot(a) then [""] else [])
  {
    var fs := Fields(a);
    var last := fs[|fs| - 1] == "";
    assert last <==> a == [] || EndsWithDot(a) by {
      LastFieldEmpty(a);
    }
    if last {
      assert Tokens(a) == fs[..|fs| - 1];
      assert fs == fs[..|fs| - 1] + [""];
    } else {
      assert Tokens(a) == fs;
      assert fs + [] == fs;
    }
  }

  /** The text with every '.' removed. */
  function RemoveDots(s: string): string {
    if s == [] then [] else (if s[0] == '.' then [] else [s[0]]) + RemoveDots(s[1..])
  }

  /** The concatenation of a sequence of strings. */
  function Concat(ts: seq<string>): string {
    if ts == [] then [] else ts[0] + Concat(ts[1..])
  }

  lemma {:induction false} FieldsConcat(s: string)
    ensures Concat(Fields(s)) == RemoveDots(s)
  {
    if s != [] {
      FieldsConcat(s[1..]);
      var rest := Fields(s[1..]);
      if s[0] == '.' {
        assert ([""] + rest)[1..] == rest;
      } else {
        var fs := [[s[0]] + rest[0]] + rest[1..];
        assert fs[1..] == rest[1..];
        assert ([s[0]] + rest[0]) + Concat(rest[1..]) == [s[0]] + (rest[0] + Concat(rest[1..]));
      }
    }
  }

  lemma {:induction false} ConcatAppend(a: seq<string>, b: seq<string>)
    ensures Concat(a + b) == Concat(a) + Concat(b)
  {
    if a == [] {
      assert a + b == b;
    } else {
      assert (a + b)[0] == a[0];
      assert (a + b)[1..] == a[1..] + b;
      ConcatAppend(a[1..], b);
    }
  }

  /** Nothing but the dots is lost: the tokens concatenate to the text without its dots. */
  lemma TokensConcat(s: string)
    ensures Concat(Tokens(s)) == RemoveDots(s)
  {
    FieldsConcat(s);
    var fs := Fields(s);
    if fs[|fs| - 1] == "" {
      var init := fs[..|fs| - 1];
      assert fs == init + [""];
      ConcatAppend(init, [""]);
      assert Concat([""]) == "" + Concat([]);
      assert Concat(init) + "" == Concat(init);
    }
  }
}
