/**
 * The base-16 codec of backend/src/crypto/hash.cpp: Hash::bytesToHex, which
 * prints every byte as two lowercase, zero-padded hex digits, and
 * Hash::hexToBytes, which rejects odd lengths and parses every two-character
 * chunk with std::stoul(chunk, nullptr, 16) followed by a cast to uint8_t.
 */
module Hex {
  import opened Wrappers

  /** An unsigned 8-bit value (uint8_t). */
  type byte = x: int | 0 <= x < 256

  /** The digit std::hex prints for a nibble (lowercase, since std::uppercase is never set). */
  function HexDigit(n: int): (c: char)
    requires 0 <= n < 16
    ensures IsLowerHexDigit(c)
    ensures DigitValue(c) == Some(n)
  {
    if n < 10 then ('0' as int + n) as char else ('a' as int + n - 10) as char
  }

  predicate IsLowerHexDigit(c: char) {
    '0' <= c <= '9' || 'a' <= c <= 'f'
  }

  predicate IsLowerHex(s: string) {
    forall i :: 0 <= i < |s| ==> IsLowerHexDigit(s[i])
  }

  /** The value of a base-16 digit of either case, as strtoul reads it; None for any other character. */
  function DigitValue(c: char): (v: Option<int>)
    ensures v.Some? ==> 0 <= v.value < 16
  {
    if '0' <= c <= '9' then Some(c as int - '0' as int)
    else if 'a' <= c <= 'f' then Some(c as int - 'a' as int + 10)
    else if 'A' <= c <= 'F' then Some(c as int - 'A' as int + 10)
    else None
  }

  predicate IsHexDigit(c: char) {
    DigitValue(c).Some?
  }

  /** The value of a digit known to be a hex digit. */
  function Nibble(c: char): (n: int)
    requires IsHexDigit(c)
    ensures 0 <= n < 16
  {
    DigitValue(c).value
  }

  predicate IsHex(s: string) {
    forall i :: 0 <= i < |s| ==> IsHexDigit(s[i])
  }

  /** isspace in the "C" locale. */
  predicate IsSpace(c: char) {
    c == ' ' || c == '\t' || c == '\n' || c == 11 as char || c == 12 as char || c == '\r'
  }

  /** std::tolower in the "C" locale. */
  function LowerChar(c: char): char {
    if 'A' <= c <= 'Z' then (c as int - 'A' as int + 'a' as int) as char else c
  }

  function Lower(s: string): (r: string)
    ensures |r| == |s|
    ensures forall i :: 0 <= i < |s| ==> r[i] == LowerChar(s[i])
  {
    seq(|s|, i requires 0 <= i < |s| => LowerChar(s[i]))
  }

  /** The two characters printed for one byte: `ss << std::setw(2) << static_cast<int>(byte)` with fill '0'. */
  function ByteHex(b: byte): string {
    [HexDigit(b / 16), HexDigit(b % 16)]
  }

  /** The text Hash::bytesToHex returns. */
  function ToHex(bytes: seq<byte>): (s: string)
    ensures |s| == 2 * |bytes|
    ensures IsLowerHex(s)
  {
    if bytes == [] then "" else ByteHex(bytes[0]) + ToHex(bytes[1..])
  }

  /** Byte k of the input is printed at offsets 2k and 2k + 1, high nibble first. */
  lemma {:induction false} ToHexDigits(bytes: seq<byte>, k: nat)
    requires k < |bytes|
    ensures ToHex(bytes)[2 * k] == HexDigit(bytes[k] / 16)
    ensures ToHex(bytes)[2 * k + 1] == HexDigit(bytes[k] % 16)
  {
    if k > 0 {
      ToHexDigits(bytes[1..], k - 1);
      assert bytes[1..][k - 1] == bytes[k];
      assert ToHex(bytes)[2 * k] == ToHex(bytes[1..])[2 * (k - 1)];
      assert ToHex(bytes)[2 * k + 1] == ToHex(bytes[1..])[2 * (k - 1) + 1];
    }
  }

  lemma ToHexAt(bytes: seq<byte>, k: nat)
    requires k < |bytes|
    ensures 2 * k + 1 < |ToHex(bytes)|
    ensures 16 * Nibble(ToHex(bytes)[2 * k]) + Nibble(ToHex(bytes)[2 * k + 1]) == bytes[k]
  {
    ToHexDigits(bytes, k);
  }

  lemma {:induction false} ToHexConcat(a: seq<byte>, b: seq<byte>)
    ensures ToHex(a + b) == ToHex(a) + ToHex(b)
  {
    if a == [] {
      assert a + b == b;
    } else {
      assert (a + b)[0] == a[0];
      assert (a + b)[1..] == a[1..] + b;
      ToHexConcat(a[1..], b);
    }
  }

  /** Hash::bytesToHex: appends the two digits of every byte, in order, to a stream. */
  method BytesToHex(bytes: seq<byte>) returns (s: string)
    ensures s == ToHex(bytes)
    ensures |s| == 2 * |bytes| && IsLowerHex(s)
  {
    s := "";
    for i := 0 to |bytes|
      invariant s == ToHex(bytes[..i])
    {
      ToHexConcat(bytes[..i], [bytes[i]]);
      assert bytes[..i + 1] == bytes[..i] + [bytes[i]];
      s := s + ByteHex(bytes[i]);
    }
    assert bytes[..|bytes|] == bytes;
  }

  /**
   * std::stoul(chunk, nullptr, 16) on the two-character chunk c1 c2, cast to
   * uint8_t. strtoul skips leading white space, accepts one sign, reads as
   * many hex digits as follow (a "0x" prefix followed by nothing reads as the
   * single digit 0) and negates modulo 2^64 after a '-'. None where no digit
   * is read, which is where std::stoul throws std::invalid_argument. Two
   * characters cannot overflow an unsigned long.
   */
  function StoulByte(c1: char, c2: char): (r: Option<byte>)
    ensures r.Some? <==> IsHexDigit(c1) || ((IsSpace(c1) || c1 == '+' || c1 == '-') && IsHexDigit(c2))
  {
    match DigitValue(c1)
    case Some(d1) =>
      (match DigitValue(c2)
       case Some(d2) => Some(16 * d1 + d2)
       case None => Some(d1))
    case None =>
      (match DigitValue(c2)
       case Some(d2) =>
         if IsSpace(c1) || c1 == '+' then Some(d2)
         else if c1 == '-' then Some((256 - d2) % 256)
         else None
       case None => None)
  }

  /** Why Hash::hexToBytes throws std::invalid_argument: an odd length, or a chunk stoul cannot read. */
  datatype HexError = OddLength | BadChunk(offset: nat)

  /** Decodes the chunks of hex from chunk k, at offset 2k, on. */
  function DecodeFrom(hex: string, k: nat): (r: Result<seq<byte>, HexError>)
    requires |hex| % 2 == 0 && 2 * k <= |hex|
    ensures r.Ok? ==> 2 * |r.value| == |hex| - 2 * k
    ensures r.Err? ==> r.error.BadChunk? && 2 * k <= r.error.offset && r.error.offset + 1 < |hex|
                       && r.error.offset % 2 == 0
                       && StoulByte(hex[r.error.offset], hex[r.error.offset + 1]).None?
    decreases |hex| - 2 * k
  {
    if 2 * k == |hex| then Ok([])
    else match StoulByte(hex[2 * k], hex[2 * k + 1])
      case None => Err(BadChunk(2 * k))
      case Some(b) =>
        match DecodeFrom(hex, k + 1)
        case Err(e) => Err(e)
        case Ok(rest) => Ok([b] + rest)
  }

  /** The result of Hash::hexToBytes. */
  function FromHex(hex: string): (r: Result<seq<byte>, HexError>)
    ensures r == Err(OddLength) <==> |hex| % 2 != 0
    ensures r.Ok? ==> 2 * |r.value| == |hex|
  {
    if |hex| % 2 != 0 then Err(OddLength) else DecodeFrom(hex, 0)
  }

  function Prepend(bytes: seq<byte>, r: Result<seq<byte>, HexError>): Result<seq<byte>, HexError> {
    match r
    case Ok(rest) => Ok(bytes + rest)
    case Err(e) => Err(e)
  }

  lemma PrependEmpty(r: Result<seq<byte>, HexError>)
    ensures Prepend([], r) == r
  {
    if r.Ok? {
      assert [] + r.value == r.value;
    }
  }

  lemma PrependTwice(x: seq<byte>, y: seq<byte>, r: Result<seq<byte>, HexError>)
    ensures Prepend(x, Prepend(y, r)) == Prepend(x + y, r)
  {
    if r.Ok? {
      assert x + (y + r.value) == (x + y) + r.value;
    }
  }

  /** Hash::hexToBytes: checks the length first, then parses and pushes one chunk at a time. */
  method HexToBytes(hex: string) returns (r: Result<seq<byte>, HexError>)
    ensures r == FromHex(hex)
    ensures |hex| % 2 != 0 ==> r == Err(OddLength)
  {
    if |hex| % 2 != 0 {
      return Err(OddLength);
    }
    var bytes: seq<byte> := [];
    var i := 0;
    ghost var k := 0;
    PrependEmpty(DecodeFrom(hex, 0));
    while i < |hex|
      invariant 0 <= i <= |hex| && i == 2 * k
      invariant FromHex(hex) == Prepend(bytes, DecodeFrom(hex, k))
      decreases |hex| - i
    {
      var b := StoulByte(hex[i], hex[i + 1]);
      assert b == StoulByte(hex[2 * k], hex[2 * k + 1]);
      if b.None? {
        assert DecodeFrom(hex, k) == Err(BadChunk(i));
        return Err(BadChunk(i));
      }
      DecodeStep(hex, k, b.value);
      PrependTwice(bytes, [b.value], DecodeFrom(hex, k + 1));
      bytes := bytes + [b.value];
      i, k := i + 2, k + 1;
    }
    assert bytes + [] == bytes;
    return Ok(bytes);
  }

  /** A chunk stoul reads puts its byte in front of the bytes of the chunks after it. */
  lemma DecodeStep(hex: string, k: nat, b: byte)
    requires |hex| % 2 == 0 && 2 * k < |hex|
    requires StoulByte(hex[2 * k], hex[2 * k + 1]) == Some(b)
    ensures DecodeFrom(hex, k) == Prepend([b], DecodeFrom(hex, k + 1))
  {
  }

  /** On a string of hex digits, every chunk is read as two digits, high nibble first, in either case. */
  lemma DecodeHexDigits(hex: string, k: nat)
    requires |hex| % 2 == 0 && 2 * k <= |hex|
    requires forall j :: 2 * k <= j < |hex| ==> IsHexDigit(hex[j])
    ensures DecodeFrom(hex, k).Ok?
    ensures forall m :: 0 <= m && 2 * k + 2 * m + 1 < |hex| ==>
      DecodeFrom(hex, k).value[m] == 16 * Nibble(hex[2 * k + 2 * m]) + Nibble(hex[2 * k + 2 * m + 1])
  {
    DecodeHexDigitsOk(hex, k);
    forall m | 0 <= m && 2 * k + 2 * m + 1 < |hex|
      ensures DecodeFrom(hex, k).value[m] == 16 * Nibble(hex[2 * k + 2 * m]) + Nibble(hex[2 * k + 2 * m + 1])
    {
      DecodeHexDigitAt(hex, k, m);
    }
  }

  /** On hex digits every chunk is readable, so decoding succeeds. */
  lemma {:induction false} DecodeHexDigitsOk(hex: string, k: nat)
    requires |hex| % 2 == 0 && 2 * k <= |hex|
    requires forall j :: 2 * k <= j < |hex| ==> IsHexDigit(hex[j])
    ensures DecodeFrom(hex, k).Ok?
    decreases |hex| - 2 * k
  {
    if 2 * k < |hex| {
      DecodeHexDigitsOk(hex, k + 1);
    }
  }

  /** Byte m decoded from chunk k on is read from chunk k + m. */
  lemma {:induction false} DecodeHexDigitAt(hex: string, k: nat, m: nat)
    requires |hex| % 2 == 0 && 2 * k + 2 * m + 1 < |hex|
    requires forall j :: 2 * k <= j < |hex| ==> IsHexDigit(hex[j])
    ensures DecodeFrom(hex, k).Ok? && m < |DecodeFrom(hex, k).value|
    ensures DecodeFrom(hex, k).value[m] == 16 * Nibble(hex[2 * k + 2 * m]) + Nibble(hex[2 * k + 2 * m + 1])
    decreases m
  {
    var b := 16 * Nibble(hex[2 * k]) + Nibble(hex[2 * k + 1]);
    DecodeHexDigitsOk(hex, k + 1);
    var rest := DecodeFrom(hex, k + 1).value;
    assert DecodeFrom(hex, k) == Ok([b] + rest);
    if m > 0 {
      DecodeHexDigitAt(hex, k + 1, m - 1);
      assert 2 * (k + 1) + 2 * (m - 1) == 2 * k + 2 * m;
    }
  }

  /** Well-formed input: an even-length string of hex digits decodes to half as many bytes, chunk by chunk. */
  lemma FromHexDigits(hex: string)
    requires |hex| % 2 == 0 && IsHex(hex)
    ensures FromHex(hex).Ok? && 2 * |FromHex(hex).value| == |hex|
    ensures forall k :: 0 <= k && 2 * k + 1 < |hex| ==>
      FromHex(hex).value[k] == 16 * Nibble(hex[2 * k]) + Nibble(hex[2 * k + 1])
  {
    DecodeHexDigits(hex, 0);
    forall k | 0 <= k && 2 * k + 1 < |hex|
      ensures FromHex(hex).value[k] == 16 * Nibble(hex[2 * k]) + Nibble(hex[2 * k + 1])
    {
      assert 2 * 0 + 2 * k == 2 * k;
    }
  }

  /** Round trip: decoding what bytesToHex prints gives back the bytes. */
  lemma HexRoundTrip(bytes: seq<byte>)
    ensures FromHex(ToHex(bytes)) == Ok(bytes)
  {
    var s := ToHex(bytes);
    LowerHexIsHex(s);
    FromHexDigits(s);
    var r := FromHex(s).value;
    assert |r| == |bytes|;
    forall k | 0 <= k < |bytes| ensures r[k] == bytes[k] {
      ToHexAt(bytes, k);
      assert 2 * k + 1 < |s|;
    }
    assert r == bytes;
  }

  lemma LowerHexIsHex(s: string)
    requires IsLowerHex(s)
    ensures IsHex(s)
  {
    forall j | 0 <= j < |s| ensures IsHexDigit(s[j]) {
      assert IsLowerHexDigit(s[j]);
    }
  }

  lemma DigitLower(c: char)
    requires IsHexDigit(c)
    ensures HexDigit(Nibble(c)) == LowerChar(c)
  {
  }

  /** The byte read from two hex digits prints as the same two digits in lowercase. */
  lemma ReencodeByte(c1: char, c2: char, b: byte)
    requires IsHexDigit(c1) && IsHexDigit(c2)
    requires b == 16 * Nibble(c1) + Nibble(c2)
    ensures HexDigit(b / 16) == LowerChar(c1)
    ensures HexDigit(b % 16) == LowerChar(c2)
  {
    var d1, d2 := Nibble(c1), Nibble(c2);
    assert b / 16 == d1 && b % 16 == d2;
    DigitLower(c1);
    DigitLower(c2);
  }

  /** Round trip the other way: re-encoding decoded hex digits gives the input in lowercase. */
  lemma HexRoundTripLower(hex: string)
    requires |hex| % 2 == 0 && IsHex(hex)
    ensures FromHex(hex).Ok? && ToHex(FromHex(hex).value) == Lower(hex)
  {
    FromHexDigits(hex);
    var r := FromHex(hex).value;
    var s, t := ToHex(r), Lower(hex);
    forall k | 0 <= k && 2 * k + 1 < |s| ensures s[2 * k] == t[2 * k] && s[2 * k + 1] == t[2 * k + 1] {
      ReencodeAt(hex, r, k);
    }
    PairsEqual(s, t);
  }

  /** Two texts of the same even length that agree on every pair of characters are equal. */
  lemma PairsEqual(s: string, t: string)
    requires |s| == |t| && |s| % 2 == 0
    requires forall k :: 0 <= k && 2 * k + 1 < |s| ==> s[2 * k] == t[2 * k] && s[2 * k + 1] == t[2 * k + 1]
    ensures s == t
  {
    forall j | 0 <= j < |s| ensures s[j] == t[j] {
      var k := j / 2;
      assert j == 2 * k || j == 2 * k + 1;
    }
  }

  lemma ReencodeAt(hex: string, r: seq<byte>, k: nat)
    requires 2 * |r| == |hex| && k < |r|
    requires IsHexDigit(hex[2 * k]) && IsHexDigit(hex[2 * k + 1])
    requires r[k] == 16 * Nibble(hex[2 * k]) + Nibble(hex[2 * k + 1])
    ensures ToHex(r)[2 * k] == LowerChar(hex[2 * k]) && ToHex(r)[2 * k + 1] == LowerChar(hex[2 * k + 1])
  {
    ToHexDigits(r, k);
    ReencodeByte(hex[2 * k], hex[2 * k + 1], r[k]);
  }

  lemma StoulIgnoresCase(c1: char, c2: char)
    ensures StoulByte(LowerChar(c1), LowerChar(c2)) == StoulByte(c1, c2)
  {
  }

  lemma {:induction false} DecodeIgnoresCase(hex: string, k: nat)
    requires |hex| % 2 == 0 && 2 * k <= |hex|
    ensures DecodeFrom(Lower(hex), k) == DecodeFrom(hex, k)
    decreases |hex| - 2 * k
  {
    if 2 * k < |hex| {
      StoulIgnoresCase(hex[2 * k], hex[2 * k + 1]);
      DecodeIgnoresCase(hex, k + 1);
    }
  }

  /** hexToBytes reads digits case-insensitively: lowering the input never changes the result. */
  lemma FromHexIgnoresCase(hex: string)
    ensures FromHex(Lower(hex)) == FromHex(hex)
  {
    if |hex| % 2 == 0 {
      DecodeIgnoresCase(hex, 0);
    }
  }

  /** Canonical form: two lowercase hex strings that decode to the same bytes are equal. */
  lemma LowerHexInjective(a: string, b: string)
    requires IsLowerHex(a) && IsLowerHex(b)
    requires FromHex(a).Ok? && FromHex(a) == FromHex(b)
    ensures a == b
  {
    LowerHexIsHex(a);
    LowerHexIsHex(b);
    HexRoundTripLower(a);
    HexRoundTripLower(b);
    forall j | 0 <= j < |a| ensures Lower(a)[j] == a[j] { assert IsLowerHexDigit(a[j]); }
    forall j | 0 <= j < |b| ensures Lower(b)[j] == b[j] { assert IsLowerHexDigit(b[j]); }
  }

  /**
   * Hash::hexToBytes as written accepts chunks that are not two hex digits
   * wherever stoul reads a prefix of them.
   */
  lemma LaxChunksAccepted()
    ensures FromHex("0z") == Ok([0])
    ensures FromHex(" f") == Ok([15])
    ensures FromHex("-1") == Ok([255])
    ensures FromHex("+a0x") == Ok([10, 0])
  {
    OneChunk("0z", 0);
    OneChunk(" f", 15);
    OneChunk("-1", 255);
    var s := "+a0x";
    assert |s| == 4 && s[0] == '+' && s[1] == 'a' && s[2] == '0' && s[3] == 'x';
    assert StoulByte(s[2], s[3]) == Some(0);
    assert DecodeFrom(s, 2) == Ok([]);
    assert DecodeFrom(s, 1) == Ok([0]);
    assert StoulByte(s[0], s[1]) == Some(10);
    assert [10] + [0] == [10, 0];
    assert DecodeFrom(s, 0) == Ok([10, 0]);
  }

  lemma OneChunk(s: string, b: byte)
    requires |s| == 2 && StoulByte(s[0], s[1]) == Some(b)
    ensures FromHex(s) == Ok([b])
  {
    assert DecodeFrom(s, 1) == Ok([]);
    assert [b] + [] == [b];
    assert DecodeFrom(s, 0) == Ok([b]);
  }

  /** The offset of the first character of s, from i on, that is not a hex digit. */
  function FirstNonHex(s: string, i: nat): (r: Option<nat>)
    requires i <= |s|
    ensures r.Some? ==> i <= r.value < |s| && !IsHexDigit(s[r.value])
    ensures r.Some? ==> forall j :: i <= j < r.value ==> IsHexDigit(s[j])
    ensures r.None? <==> forall j :: i <= j < |s| ==> IsHexDigit(s[j])
    decreases |s| - i
  {
    if i == |s| then None
    else if !IsHexDigit(s[i]) then Some(i)
    else FirstNonHex(s, i + 1)
  }

  /**
   * The decoder hexToBytes is evidently meant to be: an odd length or any
   * character that is not a hex digit is rejected, naming the chunk that
   * holds the first such character.
   */
  function FromHexStrict(hex: string): (r: Result<seq<byte>, HexError>)
    ensures r.Ok? <==> |hex| % 2 == 0 && IsHex(hex)
    ensures r == Err(OddLength) <==> |hex| % 2 != 0
    ensures r.Ok? ==> r == FromHex(hex) && 2 * |r.value| == |hex|
    ensures r.Err? && r.error.BadChunk? ==>
      r.error.offset % 2 == 0 && r.error.offset + 1 < |hex| &&
      !(IsHexDigit(hex[r.error.offset]) && IsHexDigit(hex[r.error.offset + 1]))
    ensures r.Err? && r.error.BadChunk? ==> forall j :: 0 <= j < r.error.offset ==> IsHexDigit(hex[j])
  {
    if |hex| % 2 != 0 then Err(OddLength)
    else match FirstNonHex(hex, 0)
      case Some(j) => Err(BadChunk(j - j % 2))
      case None => FromHexDigits(hex); FromHex(hex)
  }

  /** Round trip for the corrected decoder. */
  lemma StrictHexRoundTrip(bytes: seq<byte>)
    ensures FromHexStrict(ToHex(bytes)) == Ok(bytes)
  {
    HexRoundTrip(bytes);
    LowerHexIsHex(ToHex(bytes));
  }
}
