/**
 * SHA-512 (FIPS 180-4, section 6.4) enters the model as a parameter: a total function
 * from octet strings to 64-octet digests. Both hashlib.sha512() and
 * MessageDigest.getInstance("SHA-512") are streaming accumulators; what they hold is
 * the concatenation of everything fed to them, and the digest is the hash of that.
 */
module Sha512 {

  import opened Bytes
  import Hex

  const DIGEST_LENGTH := 64

  type Digest = d: seq<uint8> | |d| == DIGEST_LENGTH witness seq(64, i => 0)

  type HashFunction = seq<uint8> -> Digest

  /** A running hash: hashlib's object, or a MessageDigest behind a DigestInputStream. */
  class Accumulator {
    const hash: HashFunction
    /** Every byte passed to update(), in call order. */
    var fed: seq<uint8>
    /** The arguments of the update() calls, in call order. */
    ghost var updates: seq<seq<uint8>>

    ghost predicate Valid()
      reads this
    {
      fed == Flatten(updates)
    }

    constructor (hash: HashFunction)
      ensures this.hash == hash && fed == [] && updates == [] && Valid()
    {
      this.hash := hash;
      fed := [];
      updates := [];
    }

    method Update(chunk: seq<uint8>)
      requires Valid()
      modifies this
      ensures fed == old(fed) + chunk && updates == old(updates) + [chunk] && Valid()
    {
      FlattenSnoc(updates, chunk);
      fed := fed + chunk;
      updates := updates + [chunk];
    }

    /** digest(): the hash of everything fed so far. */
    function Digest(): Digest
      reads this
    {
      hash(fed)
    }

    /** hexdigest() */
    function HexDigest(): (s: string)
      reads this
      ensures |s| == 2 * DIGEST_LENGTH
      ensures forall k :: 0 <= k < |s| ==> Hex.IsHexChar(s[k])
    {
      var d := hash(fed);
      Hex.SignedHexIsHexDigest(d);
      Hex.HexDigest(d)
    }
  }

  function Flatten(chunks: seq<seq<uint8>>): seq<uint8> {
    if chunks == [] then [] else chunks[0] + Flatten(chunks[1..])
  }

  lemma {:induction false} FlattenSnoc(chunks: seq<seq<uint8>>, c: seq<uint8>)
    ensures Flatten(chunks + [c]) == Flatten(chunks) + c
  {
    if chunks == [] {
      assert chunks + [c] == [c];
    } else {
      assert (chunks + [c])[1..] == chunks[1..] + [c];
      FlattenSnoc(chunks[1..], c);
    }
  }

  lemma {:induction false} FlattenAppend(a: seq<seq<uint8>>, b: seq<seq<uint8>>)
    ensures Flatten(a + b) == Flatten(a) + Flatten(b)
  {
    if a == [] {
      assert a + b == b;
    } else {
      assert (a + b)[1..] == a[1..] + b;
      FlattenAppend(a[1..], b);
    }
  }
}
