/** Signatures: Ed25519 kept abstract, Sign in place, and the core messages' Verify methods. */
module Signing {
  import opened Bytes
  import opened Messages
  import opened Skipped
  import opened Wire

  /** The primitives the protocol calls, and the per-algorithm lengths of the operator layer. */
  datatype Crypto = Crypto(
    publicKey: bytes -> Bytes32,              // the public half of a private key
    sign: (bytes, bytes) -> bytes,            // ed25519.Sign(priv, msg)
    verify: (bytes, bytes, bytes) -> bool,    // ed25519.Verify(pub, msg, sig)
    sigLen: bytes -> nat,                     // expectedSigLen
    pubLen: bytes -> nat)                     // expectedPubLen

  function AlgoEd25519(): (a: Text)
    ensures |a| == 7
  {
    Ascii("ed25519")
  }

  lemma AlgoSpelled(a: bytes)
    ensures a == AlgoEd25519() <==> Spelled(a, "ed25519")
  {
    var s := AlgoEd25519();
    assert Spelled(s, "ed25519");
    assert Spelled(a, "ed25519") ==> forall i :: 0 <= i < 7 ==> a[i] == s[i];
  }

  /** What is signed with a private key verifies under its public half. */
  ghost predicate Lawful(c: Crypto) {
    forall priv, msg {:trigger c.sign(priv, msg)} ::
      |c.sign(priv, msg)| == 64 && c.verify(c.publicKey(priv), msg, c.sign(priv, msg))
  }

  /** The algorithm table of this version knows Ed25519 only. */
  ghost predicate V0Lengths(c: Crypto) {
    forall a: bytes :: c.sigLen(a) == (if Spelled(a, "ed25519") then 64 else 0)
                    && c.pubLen(a) == (if Spelled(a, "ed25519") then 32 else 0)
  }

  /** canon.VerifySig, and Ed25519Verifier.Verify: lengths first, then the signature. */
  predicate VerifySig(c: Crypto, pub: bytes, msg: bytes, sig: bytes) {
    |pub| == 32 && |sig| == 64 && c.verify(pub, msg, sig)
  }

  predicate IsOperatorMessage(m: Message) {
    m.OperatorTransmission? || m.OperatorRotation? || m.ConformanceResponse?
  }

  /** The Verify method of each core message, given the key trusted for its signer. */
  predicate VerifyMessage(c: Crypto, m: Message, sig: bytes, pub: bytes)
    requires !IsOperatorMessage(m)
  {
    match m
    case KeyRotation(_, newPublicKey, algo, _, _) =>
      algo == AlgoEd25519() && |newPublicKey| == 32 && VerifySig(c, pub, Canonical(m), sig)
    case KeyRevocation(_, revokedPublicKey, _, _) =>
      |revokedPublicKey| == 32 && revokedPublicKey == pub && VerifySig(c, revokedPublicKey, Canonical(m), sig)
    case _ => VerifySig(c, pub, Canonical(m), sig)
  }

  /** Whatever is accepted carries a signature over its own bytes under the trusted key itself. */
  lemma VerifiedUnderTrustedKey(c: Crypto, m: Message, sig: bytes, pub: bytes)
    requires !IsOperatorMessage(m) && VerifyMessage(c, m, sig, pub)
    ensures |pub| == 32 && c.verify(pub, Canonical(m), sig)
  {}

  /** Every core Verify, spelled out: both lengths and the signature over the message's own bytes; a rotation also names
      its algorithm and a 32-byte successor, and a revocation the very key it is checked under. */
  lemma CoreAcceptedExactly(c: Crypto, m: Message, sig: bytes, pub: bytes)
    requires !m.OperatorTransmission? && !m.OperatorRotation? && !m.ConformanceResponse?
    ensures VerifyMessage(c, m, sig, pub) <==>
      && |pub| == 32 && |sig| == 64 && c.verify(pub, Canonical(m), sig)
      && (m.KeyRotation? ==> Spelled(m.algo, "ed25519") && |m.newPublicKey| == 32)
      && (m.KeyRevocation? ==> m.revokedPublicKey == pub)
  {
    hide Canonical, AlgoEd25519, Spelled;
    if m.KeyRotation? { AlgoSpelled(m.algo); }
  }

  /** What a core Verify asks of a message besides its signature: a rotation names a well-formed successor, and a
      revocation names the key it is checked under. */
  predicate InOrder(m: Message, pub: bytes) {
    && (m.KeyRotation? ==> Spelled(m.algo, "ed25519") && |m.newPublicKey| == 32)
    && (m.KeyRevocation? ==> m.revokedPublicKey == pub)
  }

  /** A freshly signed core message is accepted under the signer's key exactly when it is in order. */
  lemma SignThenVerify(c: Crypto, m: Message, priv: bytes)
    requires Lawful(c) && !IsOperatorMessage(m)
    ensures VerifyMessage(c, m, c.sign(priv, Canonical(m)), c.publicKey(priv)) <==> InOrder(m, c.publicKey(priv))
  {
    if m.KeyRotation? { AlgoSpelled(m.algo); }
    assert c.verify(c.publicKey(priv), Canonical(m), c.sign(priv, Canonical(m)));
  }

  /** Signatures over incomplete bytes do verify: with a skipped time a freshly signed message is accepted exactly as
      any other, and there is a different message for which every Verify gives the same answer on every signature. */
  lemma IncompleteBytesVerify(c: Crypto, m: Message, priv: bytes) returns (twin: Message)
    requires Lawful(c) && !IsOperatorMessage(m) && !ValidTimes(m)
    ensures VerifyMessage(c, m, c.sign(priv, Canonical(m)), c.publicKey(priv)) <==> InOrder(m, c.publicKey(priv))
    ensures twin != m && !IsOperatorMessage(twin)
    ensures forall sig, pub :: VerifyMessage(c, twin, sig, pub) <==> VerifyMessage(c, m, sig, pub)
  {
    hide Canonical, ValidTimes, Ticks;
    SignThenVerify(c, m, priv);
    twin := SkippedTwin(m);
    CollideExactly(twin, m);
    SameHeadSameSuccessor(twin, m);
  }

  /** What Verify reads besides the bytes stands before the first time. */
  lemma SameHeadSameSuccessor(m1: Message, m2: Message)
    requires KindOf(m1) == KindOf(m2) && Head(m1) == Head(m2)
    ensures m1.KeyRotation? ==> m2.KeyRotation? && m1.newPublicKey == m2.newPublicKey && m1.algo == m2.algo
    ensures m1.KeyRevocation? ==> m2.KeyRevocation? && m1.revokedPublicKey == m2.revokedPublicKey
  {
    if m1.KeyRotation? {
      assert Head(m1)[1] == VStr(m1.newPublicKey) && Head(m2)[1] == VStr(m2.newPublicKey);
      assert Head(m1)[2] == VStr(m1.algo) && Head(m2)[2] == VStr(m2.algo);
    }
    if m1.KeyRevocation? {
      assert Head(m1)[1] == VStr(m1.revokedPublicKey) && Head(m2)[1] == VStr(m2.revokedPublicKey);
    }
  }

  /** A message held with its signature; Sign overwrites the signature in place. */
  class Envelope {
    var body: Message
    var signature: bytes

    constructor (body: Message)
      ensures this.body == body && signature == []
    {
      this.body, signature := body, [];
    }

    predicate Verify(c: Crypto, pub: bytes)
      requires !IsOperatorMessage(body)
      reads this
    {
      VerifyMessage(c, body, signature, pub)
    }

    /** Once signed, the message verifies under the signer's key exactly when it is in order for that key. */
    method Sign(c: Crypto, priv: bytes)
      modifies `signature
      ensures signature == c.sign(priv, Canonical(body))
      ensures Lawful(c) && !IsOperatorMessage(body) ==>
        (Verify(c, c.publicKey(priv)) <==> InOrder(body, c.publicKey(priv)))
    {
      signature := c.sign(priv, Canonical(body));
      if Lawful(c) && !IsOperatorMessage(body) { SignThenVerify(c, body, priv); }
    }
  }
}
