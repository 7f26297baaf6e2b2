/**
 * The digest compositions and the Merkle-root reduction of
 * backend/src/crypto/hash.cpp (class Crypto::SHA256::Hash). The two OpenSSL
 * primitives, Hash::sha256Raw and Hash::ripemd160Raw, are not modelled: they
 * are parameters, promised only to return digests of SHA256_DIGEST_LENGTH (32)
 * and RIPEMD160_DIGEST_LENGTH (20) bytes.
 */
module Hash {
  import opened Wrappers
  import opened Hex

  /** A SHA-256 digest: SHA256_DIGEST_LENGTH bytes. */
  type Digest32 = d: seq<byte> | |d| == 32 witness seq(32, _ => 0)

  /** A RIPEMD-160 digest: RIPEMD160_DIGEST_LENGTH bytes. */
  type Digest20 = d: seq<byte> | |d| == 20 witness seq(20, _ => 0)

  /** Any SHA-256 implementation: a total function that always yields a 32-byte digest. */
  type Sha256Fn = seq<byte> -> Digest32

  /** Any RIPEMD-160 implementation: a total function that always yields a 20-byte digest. */
  type Ripemd160Fn = seq<byte> -> Digest20

  /** The two digest primitives the hash functions are built on. */
  datatype Primitives = Primitives(sha256Raw: Sha256Fn, ripemd160Raw: Ripemd160Fn)

  /**
   * `std::vector<uint8_t> bytes(data.begin(), data.end())`: every char is
   * converted to uint8_t, that is, taken modulo 256.
   */
  function TextBytes(s: string): (b: seq<byte>)
    ensures |b| == |s|
    ensures forall i :: 0 <= i < |s| && s[i] as int < 256 ==> b[i] == s[i] as int
  {
    seq(|s|, i requires 0 <= i < |s| => s[i] as int % 256)
  }

  /** Hash::sha256(bytes): the lowercase hex of the SHA-256 digest. */
  function Sha256(p: Primitives, data: seq<byte>): (r: string)
    ensures |r| == 64 && IsLowerHex(r)
    ensures FromHexStrict(r) == Ok(p.sha256Raw(data))
  {
    StrictHexRoundTrip(p.sha256Raw(data));
    ToHex(p.sha256Raw(data))
  }

  /** Hash::sha256(string): the same, over the string's bytes. */
  function Sha256Str(p: Primitives, s: string): (r: string)
    ensures |r| == 64 && IsLowerHex(r)
    ensures FromHexStrict(r) == Ok(p.sha256Raw(TextBytes(s)))
  {
    Sha256(p, TextBytes(s))
  }

  /** Hash::sha256d(bytes): the second SHA-256 pass runs on the raw 32-byte digest, not on its hex. */
  function Sha256d(p: Primitives, data: seq<byte>): (r: string)
    ensures |r| == 64 && IsLowerHex(r)
    ensures FromHexStrict(r) == Ok(p.sha256Raw(p.sha256Raw(data)))
    ensures r == Sha256(p, p.sha256Raw(data))
  {
    var firstHash := p.sha256Raw(data);
    var secondHash := p.sha256Raw(firstHash);
    StrictHexRoundTrip(secondHash);
    ToHex(secondHash)
  }

  /** Hash::sha256d(string): converts to bytes and delegates to the byte overload. */
  function Sha256dStr(p: Primitives, s: string): (r: string)
    ensures |r| == 64 && IsLowerHex(r)
    ensures FromHexStrict(r) == Ok(p.sha256Raw(p.sha256Raw(TextBytes(s))))
  {
    Sha256d(p, TextBytes(s))
  }

  /** Hash::ripemd160(bytes): the lowercase hex of the RIPEMD-160 digest. */
  function Ripemd160(p: Primitives, data: seq<byte>): (r: string)
    ensures |r| == 40 && IsLowerHex(r)
    ensures FromHexStrict(r) == Ok(p.ripemd160Raw(data))
  {
    StrictHexRoundTrip(p.ripemd160Raw(data));
    ToHex(p.ripemd160Raw(data))
  }

  /** Hash::ripemd160(string): the same, over the string's bytes. */
  function Ripemd160Str(p: Primitives, s: string): (r: string)
    ensures |r| == 40 && IsLowerHex(r)
    ensures FromHexStrict(r) == Ok(p.ripemd160Raw(TextBytes(s)))
  {
    Ripemd160(p, TextBytes(s))
  }

  /** Hash::hash160(string): RIPEMD-160 of the raw SHA-256 digest of the string's bytes. */
  function Hash160Str(p: Primitives, s: string): (r: string)
    ensures |r| == 40 && IsLowerHex(r)
    ensures FromHexStrict(r) == Ok(p.ripemd160Raw(p.sha256Raw(TextBytes(s))))
    ensures r == Ripemd160(p, p.sha256Raw(TextBytes(s)))
  {
    var sha256Hash := p.sha256Raw(TextBytes(s));
    var ripemdHash := p.ripemd160Raw(sha256Hash);
    StrictHexRoundTrip(ripemdHash);
    ToHex(ripemdHash)
  }

  /** The text hashed for entry k of the next level: left then right, the left repeated when it has no sibling. */
  function PairText(hashes: seq<string>, k: nat): string
    requires 2 * k < |hashes|
  {
    hashes[2 * k] + (if 2 * k + 1 < |hashes| then hashes[2 * k + 1] else hashes[2 * k])
  }

  /** One level of the Merkle reduction, pair by pair from the left. */
  function NextLevel(p: Primitives, hashes: seq<string>): (next: seq<string>)
    ensures |next| == (|hashes| + 1) / 2
    ensures forall k :: 0 <= k < |next| ==> next[k] == Sha256dStr(p, PairText(hashes, k))
  {
    if |hashes| == 0 then []
    else if |hashes| == 1 then [Sha256dStr(p, hashes[0] + hashes[0])]
    else
      var rest := NextLevel(p, hashes[2..]);
      PairTextShift(hashes);
      [Sha256dStr(p, hashes[0] + hashes[1])] + rest
  }

  /** Dropping the first pair shifts every later pair down by one. */
  lemma PairTextShift(hashes: seq<string>)
    requires |hashes| >= 2
    ensures forall k :: 1 <= k < (|hashes| + 1) / 2 ==> PairText(hashes, k) == PairText(hashes[2..], k - 1)
  {
  }

  /** The root Hash::merkleRoot computes. */
  function MerkleRootOf(p: Primitives, hashes: seq<string>): (root: string)
    ensures |hashes| == 0 ==> root == ""
    ensures |hashes| == 1 ==> root == hashes[0]
    ensures |hashes| >= 2 ==> |root| == 64 && IsLowerHex(root)
    decreases |hashes|
  {
    if |hashes| == 0 then ""
    else if |hashes| == 1 then hashes[0]
    else MerkleRootOf(p, NextLevel(p, hashes))
  }

  /** The loop of Hash::merkleRoot that builds nextLevel, stepping i by 2. */
  method BuildNextLevel(p: Primitives, hashes: seq<string>) returns (nextLevel: seq<string>)
    ensures nextLevel == NextLevel(p, hashes)
  {
    nextLevel := [];
    var i := 0;
    while i < |hashes|
      invariant i % 2 == 0 && 0 <= i <= |hashes| + 1
      invariant |nextLevel| == i / 2
      invariant forall k :: 0 <= k < |nextLevel| ==> nextLevel[k] == Sha256dStr(p, PairText(hashes, k))
      decreases |hashes| - i
    {
      var left := hashes[i];
      var right;
      if i + 1 < |hashes| {
        right := hashes[i + 1];
      } else {
        right := left;
      }
      var combined := left + right;
      assert combined == PairText(hashes, i / 2);
      var hashedPair := Sha256dStr(p, combined);
      nextLevel := nextLevel + [hashedPair];
      i := i + 2;
    }
  }

  /** Hash::merkleRoot: builds the next level and recurses until one hash is left. */
  method MerkleRoot(p: Primitives, hashes: seq<string>) returns (root: string)
    ensures root == MerkleRootOf(p, hashes)
    decreases |hashes|
  {
    if |hashes| == 0 {
      return "";
    }
    if |hashes| == 1 {
      return hashes[0];
    }
    var nextLevel := BuildNextLevel(p, hashes);
    root := MerkleRoot(p, nextLevel);
  }

  /** Two hashes: the root is the double hash of their concatenated hex text. */
  lemma MerkleRootOfTwo(p: Primitives, a: string, b: string)
    ensures MerkleRootOf(p, [a, b]) == Sha256dStr(p, a + b)
  {
    var next := NextLevel(p, [a, b]);
    assert next == [Sha256dStr(p, PairText([a, b], 0))];
  }

  /** Three hashes: the last one is paired with itself. */
  lemma MerkleRootOfThree(p: Primitives, a: string, b: string, c: string)
    ensures MerkleRootOf(p, [a, b, c]) == MerkleRootOf(p, [Sha256dStr(p, a + b), Sha256dStr(p, c + c)])
  {
    var next := NextLevel(p, [a, b, c]);
    assert PairText([a, b, c], 0) == a + b;
    assert PairText([a, b, c], 1) == c + c;
    assert next == [Sha256dStr(p, a + b), Sha256dStr(p, c + c)];
  }

  /** From two hashes on, the root is a double SHA-256: its hex decodes to SHA(SHA(x)) for some text x. */
  lemma {:induction false} MerkleRootIsDoubleHash(p: Primitives, hashes: seq<string>)
    requires |hashes| >= 2
    ensures exists x :: MerkleRootOf(p, hashes) == Sha256dStr(p, x)
    decreases |hashes|
  {
    var next := NextLevel(p, hashes);
    if |next| == 1 {
      assert MerkleRootOf(p, hashes) == Sha256dStr(p, PairText(hashes, 0));
    } else {
      MerkleRootIsDoubleHash(p, next);
    }
  }
}
