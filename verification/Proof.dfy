/** Proofs of possession: the range check on a challenge, and what the digest binds (lease/lease.go). */
module Proof {
  import opened Bytes
  import opened Messages
  import Canon
  import Instants

  datatype ProofChallenge = ProofChallenge(leaseID: Text, offset: int64, length: int64, nonce: Bytes16)

  type Hash = bytes -> Bytes32

  /** What is hashed: the nonce, the range as two words, then the bytes of the range. */
  function Preimage(nonce: Bytes16, offset: int64, length: int64, rangeBytes: bytes): bytes {
    nonce + Word(AsUint64(offset)) + Word(AsUint64(length)) + rangeBytes
  }

  /** The bytes are the nonce, the offset and the length as big-endian words, in this order, and the range; of a
      negative number the word holds its remainder modulo 2^64. */
  predicate Laid(p: bytes, nonce: Bytes16, offset: int64, length: int64, rangeBytes: bytes) {
    && |p| == 32 + |rangeBytes| && p[..16] == nonce
    && FromBigEndian(p[16..24]) == offset % TWO_64
    && FromBigEndian(p[24..32]) == length % TWO_64
    && p[32..] == rangeBytes
  }

  lemma WordReads(v: int64, w: bytes)
    requires |w| == 8
    ensures FromBigEndian(w) == v % TWO_64 <==> w == Word(AsUint64(v))
  {
    hide BigEndian, FromBigEndian;
    WordRange();
    assert AsUint64(v) == v % TWO_64 by { if v < 0 { assert v % TWO_64 == (v + TWO_64) % TWO_64; } }
    FromBigEndianRoundTrip(w);
    BigEndianRoundTrip(AsUint64(v), 8);
  }

  /** Only the preimage is laid out so. */
  lemma LaidExactly(p: bytes, nonce: Bytes16, offset: int64, length: int64, rangeBytes: bytes)
    ensures Laid(p, nonce, offset, length, rangeBytes) <==> p == Preimage(nonce, offset, length, rangeBytes)
  {
    hide Word, FromBigEndian;
    var q := Preimage(nonce, offset, length, rangeBytes);
    assert q[..16] == nonce && q[32..] == rangeBytes;
    assert q[16..24] == Word(AsUint64(offset)) && q[24..32] == Word(AsUint64(length));
    if |p| >= 32 {
      assert p == p[..16] + p[16..24] + p[24..32] + p[32..];
      WordReads(offset, p[16..24]);
      WordReads(length, p[24..32]);
    }
  }

  /** A running hash: Write appends, Sum digests all that was written. */
  class HashState {
    var written: bytes

    constructor ()
      ensures written == []
    {
      written := [];
    }

    method Write(p: bytes)
      modifies this
      ensures written == old(written) + p
    {
      written := written + p;
    }
  }

  method ProofDigest(sha256: Hash, nonce: Bytes16, offset: int64, length: int64, rangeBytes: bytes)
    returns (out: Bytes32)
    ensures exists p :: Laid(p, nonce, offset, length, rangeBytes) && out == sha256(p)
    ensures out == sha256(Preimage(nonce, offset, length, rangeBytes))
  {
    hide Laid;
    var h := new HashState();
    h.Write(nonce);
    var params := new byte[16];
    Canon.PutUint64(params, 0, AsUint64(offset));
    Canon.PutUint64(params, 8, AsUint64(length));
    assert params[..] == params[0..8] + params[8..16];
    h.Write(params[..]);
    h.Write(rangeBytes);
    assert h.written == Preimage(nonce, offset, length, rangeBytes);
    LaidExactly(h.written, nonce, offset, length, rangeBytes);
    out := sha256(h.written);
  }

  /** The window lies inside the shard and is not empty. */
  predicate InShard(shard: bytes, ch: ProofChallenge) {
    0 <= ch.offset && 1 <= ch.length && ch.offset + ch.length <= |shard|
  }

  /** The preimage behind the answer to a challenge. */
  function Asked(shard: Slice<byte>, ch: ProofChallenge): bytes
    requires InShard(shard, ch)
  {
    Preimage(ch.nonce, ch.offset, ch.length, shard[ch.offset..ch.offset + ch.length])
  }

  /** None is ErrChallengeRange. Both int64 steps are the wrapping ones, and neither ever wraps. */
  method ProofOverShard(sha256: Hash, sealed: Slice<byte>, ch: ProofChallenge) returns (r: Option<Bytes32>)
    ensures r.Some? <==> 0 <= ch.offset && 1 <= ch.length && ch.offset + ch.length <= |sealed|
    ensures r.Some? ==> exists p ::
      Laid(p, ch.nonce, ch.offset, ch.length, sealed[ch.offset..ch.offset + ch.length]) && r.value == sha256(p)
    ensures InShard(sealed, ch) ==> r == Some(sha256(Asked(sealed, ch)))
  {
    hide Laid;
    GuardExact(sealed, ch);
    if ch.offset < 0 || ch.length < 1 || ch.offset > Wrap64(|sealed| - ch.length) { return None; }
    var end := Wrap64(ch.offset + ch.length);
    var digest := ProofDigest(sha256, ch.nonce, ch.offset, ch.length, sealed[ch.offset..end]);
    r := Some(digest);
  }

  /** The guard, in int64 arithmetic with short-circuit evaluation, is the range condition over the integers;
      once it passes, the end of the slice is computed exactly. */
  lemma GuardExact(sealed: Slice<byte>, ch: ProofChallenge)
    ensures ch.offset < 0 || ch.length < 1 || ch.offset > Wrap64(|sealed| - ch.length) <==> !InShard(sealed, ch)
    ensures ch.length >= 1 ==> Wrap64(|sealed| - ch.length) == |sealed| - ch.length
    ensures InShard(sealed, ch) ==> Wrap64(ch.offset + ch.length) == ch.offset + ch.length
  {
    if ch.length >= 1 { Instants.WrapExact(|sealed| - ch.length, 0); }
    if InShard(sealed, ch) { Instants.WrapExact(ch.offset + ch.length, 0); }
  }

  /** The order of the tests matters: on its own the subtraction wraps for far negative lengths. */
  lemma SubtractionWraps(n: int64, length: int64)
    requires n >= 0
    ensures Wrap64(n - length) == n - length <==> length > n - TWO_63
  {
    if length > n - TWO_63 { Instants.WrapExact(n - length, 0); }
  }

  lemma PreimageInjective(n1: Bytes16, o1: int64, l1: int64, r1: bytes, n2: Bytes16, o2: int64, l2: int64, r2: bytes)
    requires Preimage(n1, o1, l1, r1) == Preimage(n2, o2, l2, r2)
    ensures n1 == n2 && o1 == o2 && l1 == l2 && r1 == r2
  {
    var p1, p2 := Word(AsUint64(o1)) + (Word(AsUint64(l1)) + r1), Word(AsUint64(o2)) + (Word(AsUint64(l2)) + r2);
    assert n1 + p1 == Preimage(n1, o1, l1, r1) == n2 + p2;
    assert n1 == (n1 + p1)[..16] == (n2 + p2)[..16] == n2;
    assert p1 == (n1 + p1)[16..] == (n2 + p2)[16..] == p2;
    WordInjective(AsUint64(o1), AsUint64(o2), Word(AsUint64(l1)) + r1, Word(AsUint64(l2)) + r2);
    WordInjective(AsUint64(l1), AsUint64(l2), r1, r2);
  }

  ghost predicate Collision(sha256: Hash, p1: bytes, p2: bytes) {
    p1 != p2 && sha256(p1) == sha256(p2)
  }

  /** An answer never doubles for another question: two answers agree exactly when they were asked for the same range
      under the same nonce and found the same bytes there, or exhibit a collision of the hash. */
  lemma AnswersBindRange(sha256: Hash, s1: Slice<byte>, c1: ProofChallenge, s2: Slice<byte>, c2: ProofChallenge)
    requires InShard(s1, c1) && InShard(s2, c2)
    ensures sha256(Asked(s1, c1)) == sha256(Asked(s2, c2)) <==>
      || (&& c1.nonce == c2.nonce && c1.offset == c2.offset && c1.length == c2.length
          && forall i :: c1.offset <= i < c1.offset + c1.length ==> s1[i] == s2[i])
      || Collision(sha256, Asked(s1, c1), Asked(s2, c2))
  {
    var r1, r2 := s1[c1.offset..c1.offset + c1.length], s2[c2.offset..c2.offset + c2.length];
    if c1.offset == c2.offset && c1.length == c2.length
       && forall i :: c1.offset <= i < c1.offset + c1.length ==> s1[i] == s2[i] {
      assert r1 == r2;
    }
    if Asked(s1, c1) == Asked(s2, c2) {
      PreimageInjective(c1.nonce, c1.offset, c1.length, r1, c2.nonce, c2.offset, c2.length, r2);
      forall i | c1.offset <= i < c1.offset + c1.length ensures s1[i] == s2[i] {
        assert r1[i - c1.offset] == r2[i - c1.offset];
      }
    }
  }
}
