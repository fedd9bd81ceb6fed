/** The operator credential: two distinct registered keys out of seven sign every message (operator/operator.go). */
module Operator {
  import opened Bytes
  import opened Messages
  import opened Signing

  const MIN_NONCE_LEN := 16
  const KEY_INDEX_COUNT := 7

  datatype Error =
    | ErrSameIndex | ErrNonceTooShort | ErrUnknownAlgo | ErrAlgoMismatch | ErrKeyMissing
    | ErrBadSignature | ErrBadSigLength | ErrIndexRange | ErrDuplicateSigningKey

  /** nil, or the first failing check. */
  type Verdict = Option<Error>

  datatype KeyRecord = KeyRecord(publicKey: Text, algo: Text)
  type KeyMap = map<int64, KeyRecord>

  predicate InRange(idx: int64) {
    0 <= idx < KEY_INDEX_COUNT
  }

  function VerifyAt(c: Crypto, km: KeyMap, idx: int64, algo: Text, msg: bytes, sig: bytes): Verdict {
    if !InRange(idx) then Some(ErrIndexRange)
    else if idx !in km then Some(ErrKeyMissing)
    else if km[idx].algo != algo then Some(ErrAlgoMismatch)
    else if |sig| != c.sigLen(algo) then Some(ErrBadSigLength)
    else if |km[idx].publicKey| != c.pubLen(algo) then Some(ErrKeyMissing)
    else if !VerifySig(c, km[idx].publicKey, msg, sig) then Some(ErrBadSignature)
    else None
  }

  function DistinctKeysAt(km: KeyMap, idx0: int64, idx1: int64): Verdict {
    if !InRange(idx0) || !InRange(idx1) then Some(ErrIndexRange)
    else if idx0 in km && idx1 in km && km[idx0].publicKey == km[idx1].publicKey then Some(ErrDuplicateSigningKey)
    else None
  }

  function VerifyPair(c: Crypto, km: KeyMap, idx0: int64, idx1: int64, algo: Text, msg: bytes,
                      sig0: bytes, sig1: bytes): Verdict
  {
    if idx0 == idx1 then Some(ErrSameIndex)
    else
      match DistinctKeysAt(km, idx0, idx1)
      case Some(e) => Some(e)
      case None =>
        match VerifyAt(c, km, idx0, algo, msg, sig0)
        case Some(e) => Some(e)
        case None => VerifyAt(c, km, idx1, algo, msg, sig1)
  }

  /** A rotation whose new key is already registered at another index. */
  ghost predicate DuplicatesOther(r: Message, km: KeyMap)
    requires r.OperatorRotation?
  {
    exists idx :: idx in km && idx != r.keyIndex && km[idx].publicKey == r.newPublicKey
  }

  /** A rotation whose algorithm differs from another registered key's. */
  ghost predicate MixesAlgorithms(r: Message, km: KeyMap)
    requires r.OperatorRotation?
  {
    exists idx :: idx in km && idx != r.keyIndex && km[idx].algo != r.algo
  }

  /** The three Verify methods. For a rotation the two passes over the map appear as what they look for:
      a duplicate key anywhere outranks an algorithm mismatch anywhere. */
  ghost function VerifyOperator(c: Crypto, m: Message, sig0: bytes, sig1: bytes, km: KeyMap): Verdict
    requires IsOperatorMessage(m)
  {
    if !m.ConformanceResponse? && |m.nonce| < MIN_NONCE_LEN then Some(ErrNonceTooShort)
    else if c.sigLen(m.algo) == 0 then Some(ErrUnknownAlgo)
    else if m.OperatorRotation? && !InRange(m.keyIndex) then Some(ErrIndexRange)
    else if m.OperatorRotation? && |m.newPublicKey| != c.pubLen(m.algo) then Some(ErrUnknownAlgo)
    else if m.OperatorRotation? && DuplicatesOther(m, km) then Some(ErrDuplicateSigningKey)
    else if m.OperatorRotation? && MixesAlgorithms(m, km) then Some(ErrAlgoMismatch)
    else VerifyPair(c, km, m.idx0, m.idx1, m.algo, Canonical(m), sig0, sig1)
  }

  // ---------------------------------------------------------------- what a verdict means

  /** The requirements one by one; the flag tells the second signer from the first. */
  datatype Requirement =
    | NonceLong | AlgoKnown | SlotInRange | NewKeySized | NewKeyUnused | AlgosUnmixed
    | IndicesDiffer | BothInRange | KeysDiffer
    | KeyPresent(second: bool) | AlgoBound(second: bool) | SigSized(second: bool) | KeySized(second: bool)
    | SigValid(second: bool)

  /** The code settles the first signer before it looks at the second; its documentation goes through both signers at
      each stage (key and algorithm, then lengths, then signatures). */
  datatype Order = CodeOrder | DocumentedOrder

  /** Where a requirement stands in the order of precedence. */
  function Rank(o: Order, r: Requirement): nat {
    match r
    case NonceLong => 0
    case AlgoKnown => 1
    case SlotInRange => 2
    case NewKeySized => 3
    case NewKeyUnused => 4
    case AlgosUnmixed => 5
    case IndicesDiffer => 6
    case BothInRange => 7
    case KeysDiffer => 8
    case KeyPresent(second) => if !second then 9 else if o.CodeOrder? then 14 else 11
    case AlgoBound(second) => if !second then 10 else if o.CodeOrder? then 15 else 12
    case SigSized(second) => if o.CodeOrder? then (if second then 16 else 11) else (if second then 14 else 13)
    case KeySized(second) => if o.CodeOrder? then (if second then 17 else 12) else (if second then 16 else 15)
    case SigValid(second) => if second then 18 else if o.CodeOrder? then 13 else 17
  }

  function ReportedAs(r: Requirement): Error {
    match r
    case NonceLong => ErrNonceTooShort
    case AlgoKnown => ErrUnknownAlgo
    case SlotInRange => ErrIndexRange
    case NewKeySized => ErrUnknownAlgo
    case NewKeyUnused => ErrDuplicateSigningKey
    case AlgosUnmixed => ErrAlgoMismatch
    case IndicesDiffer => ErrSameIndex
    case BothInRange => ErrIndexRange
    case KeysDiffer => ErrDuplicateSigningKey
    case KeyPresent(_) => ErrKeyMissing
    case AlgoBound(_) => ErrAlgoMismatch
    case SigSized(_) => ErrBadSigLength
    case KeySized(_) => ErrKeyMissing
    case SigValid(_) => ErrBadSignature
  }

  ghost predicate Met(c: Crypto, m: Message, sig0: bytes, sig1: bytes, km: KeyMap, r: Requirement)
    requires IsOperatorMessage(m)
  {
    var idx := if r.KeyPresent? || r.AlgoBound? || r.SigSized? || r.KeySized? || r.SigValid?
               then (if r.second then m.idx1 else m.idx0) else 0;
    var sig := if r.SigSized? || r.SigValid? then (if r.second then sig1 else sig0) else [];
    match r
    case NonceLong => m.ConformanceResponse? || |m.nonce| >= 16
    case AlgoKnown => c.sigLen(m.algo) != 0
    case SlotInRange => m.OperatorRotation? ==> 0 <= m.keyIndex <= 6
    case NewKeySized => m.OperatorRotation? ==> |m.newPublicKey| == c.pubLen(m.algo)
    case NewKeyUnused => m.OperatorRotation? ==> !DuplicatesOther(m, km)
    case AlgosUnmixed => m.OperatorRotation? ==> !MixesAlgorithms(m, km)
    case IndicesDiffer => m.idx0 != m.idx1
    case BothInRange => 0 <= m.idx0 <= 6 && 0 <= m.idx1 <= 6
    case KeysDiffer => m.idx0 in km && m.idx1 in km ==> km[m.idx0].publicKey != km[m.idx1].publicKey
    case KeyPresent(_) => idx in km
    case AlgoBound(_) => idx in km ==> km[idx].algo == m.algo
    case SigSized(_) => |sig| == c.sigLen(m.algo)
    case KeySized(_) => idx in km ==> |km[idx].publicKey| == c.pubLen(m.algo)
    case SigValid(_) => idx in km ==> VerifySig(c, km[idx].publicKey, Canonical(m), sig)
  }

  /** nil says that everything is met; an error, that it is the report of the foremost requirement not met. */
  ghost predicate FirstFailure(o: Order, c: Crypto, m: Message, sig0: bytes, sig1: bytes, km: KeyMap, v: Verdict)
    requires IsOperatorMessage(m)
  {
    match v
    case None => forall r :: Met(c, m, sig0, sig1, km, r)
    case Some(e) => exists r ::
      && !Met(c, m, sig0, sig1, km, r) && ReportedAs(r) == e
      && forall r' :: Rank(o, r') < Rank(o, r) ==> Met(c, m, sig0, sig1, km, r')
  }

  /** One signing index meets the documented requirements: in range, registered under the message's algorithm,
      lengths right, signature valid. */
  predicate SignerOk(c: Crypto, km: KeyMap, idx: int64, algo: Text, msg: bytes, sig: bytes) {
    && 0 <= idx <= 6 && idx in km && km[idx].algo == algo
    && |km[idx].publicKey| == c.pubLen(algo) && |sig| == c.sigLen(algo)
    && VerifySig(c, km[idx].publicKey, msg, sig)
  }

  /** The requirements taken jointly. */
  ghost predicate Acceptable(c: Crypto, m: Message, sig0: bytes, sig1: bytes, km: KeyMap)
    requires IsOperatorMessage(m)
  {
    && (m.ConformanceResponse? || |m.nonce| >= 16)
    && c.sigLen(m.algo) != 0
    && m.idx0 != m.idx1
    && SignerOk(c, km, m.idx0, m.algo, Canonical(m), sig0)
    && SignerOk(c, km, m.idx1, m.algo, Canonical(m), sig1)
    && km[m.idx0].publicKey != km[m.idx1].publicKey
    && (m.OperatorRotation? ==>
          && 0 <= m.keyIndex <= 6 && |m.newPublicKey| == c.pubLen(m.algo)
          && !DuplicatesOther(m, km) && !MixesAlgorithms(m, km))
  }

  /** nil is returned exactly when every requirement holds. */
  lemma AcceptedExactly(c: Crypto, m: Message, sig0: bytes, sig1: bytes, km: KeyMap)
    requires IsOperatorMessage(m)
    ensures VerifyOperator(c, m, sig0, sig1, km).None? <==> Acceptable(c, m, sig0, sig1, km)
  {}

  lemma RanksDiffer(o: Order, r: Requirement, q: Requirement)
    requires Rank(o, r) == Rank(o, q)
    ensures r == q
  {}

  /** A first failure settles the verdict. */
  lemma FirstFailureUnique(o: Order, c: Crypto, m: Message, sig0: bytes, sig1: bytes, km: KeyMap,
                           v: Verdict, w: Verdict)
    requires IsOperatorMessage(m)
    requires FirstFailure(o, c, m, sig0, sig1, km, v) && FirstFailure(o, c, m, sig0, sig1, km, w)
    ensures v == w
  {
    hide Met, Rank, ReportedAs, IsOperatorMessage;
    if v.Some? && w.Some? {
      var r :| && !Met(c, m, sig0, sig1, km, r) && ReportedAs(r) == v.value
               && forall r' :: Rank(o, r') < Rank(o, r) ==> Met(c, m, sig0, sig1, km, r');
      var q :| && !Met(c, m, sig0, sig1, km, q) && ReportedAs(q) == w.value
               && forall r' :: Rank(o, r') < Rank(o, q) ==> Met(c, m, sig0, sig1, km, r');
      RanksDiffer(o, r, q);
    }
  }

  /** The foremost requirement one signer misses, or the last one. */
  ghost function SignerUnmet(c: Crypto, m: Message, sig0: bytes, sig1: bytes, km: KeyMap, second: bool): Requirement
    requires IsOperatorMessage(m)
  {
    if !Met(c, m, sig0, sig1, km, KeyPresent(second)) then KeyPresent(second)
    else if !Met(c, m, sig0, sig1, km, AlgoBound(second)) then AlgoBound(second)
    else if !Met(c, m, sig0, sig1, km, SigSized(second)) then SigSized(second)
    else if !Met(c, m, sig0, sig1, km, KeySized(second)) then KeySized(second)
    else SigValid(second)
  }

  lemma SignerVerdict(c: Crypto, m: Message, sig0: bytes, sig1: bytes, km: KeyMap, second: bool)
    requires IsOperatorMessage(m) && InRange(if second then m.idx1 else m.idx0)
    ensures
      var r := SignerUnmet(c, m, sig0, sig1, km, second);
      VerifyAt(c, km, if second then m.idx1 else m.idx0, m.algo, Canonical(m), if second then sig1 else sig0) ==
        if Met(c, m, sig0, sig1, km, r) then None else Some(ReportedAs(r))
  {
    hide Canonical, VerifySig;
  }

  /** The foremost requirement not met, or the last of all. */
  ghost function Foremost(c: Crypto, m: Message, sig0: bytes, sig1: bytes, km: KeyMap): Requirement
    requires IsOperatorMessage(m)
  {
    if !Met(c, m, sig0, sig1, km, NonceLong) then NonceLong
    else if !Met(c, m, sig0, sig1, km, AlgoKnown) then AlgoKnown
    else if !Met(c, m, sig0, sig1, km, SlotInRange) then SlotInRange
    else if !Met(c, m, sig0, sig1, km, NewKeySized) then NewKeySized
    else if !Met(c, m, sig0, sig1, km, NewKeyUnused) then NewKeyUnused
    else if !Met(c, m, sig0, sig1, km, AlgosUnmixed) then AlgosUnmixed
    else if !Met(c, m, sig0, sig1, km, IndicesDiffer) then IndicesDiffer
    else if !Met(c, m, sig0, sig1, km, BothInRange) then BothInRange
    else if !Met(c, m, sig0, sig1, km, KeysDiffer) then KeysDiffer
    else
      var r := SignerUnmet(c, m, sig0, sig1, km, false);
      if !Met(c, m, sig0, sig1, km, r) then r else SignerUnmet(c, m, sig0, sig1, km, true)
  }

  lemma ForemostRank(c: Crypto, m: Message, sig0: bytes, sig1: bytes, km: KeyMap)
    requires IsOperatorMessage(m)
    ensures
      var r := Foremost(c, m, sig0, sig1, km);
      && (forall r' :: Rank(CodeOrder, r') < Rank(CodeOrder, r) ==> Met(c, m, sig0, sig1, km, r'))
      && (Met(c, m, sig0, sig1, km, r) ==> forall r' :: Met(c, m, sig0, sig1, km, r'))
  {
    hide Met;
  }

  lemma ForemostVerdict(c: Crypto, m: Message, sig0: bytes, sig1: bytes, km: KeyMap)
    requires IsOperatorMessage(m)
    ensures
      var r := Foremost(c, m, sig0, sig1, km);
      VerifyOperator(c, m, sig0, sig1, km) == if Met(c, m, sig0, sig1, km, r) then None else Some(ReportedAs(r))
  {
    hide Canonical, DuplicatesOther, MixesAlgorithms, VerifyAt, SignerUnmet;
    if InRange(m.idx0) && InRange(m.idx1) {
      SignerVerdict(c, m, sig0, sig1, km, false);
      SignerVerdict(c, m, sig0, sig1, km, true);
    }
  }

  /** The verdict is the first failure, and nothing else is. */
  lemma VerdictIsFirstFailure(o: Order, c: Crypto, m: Message, sig0: bytes, sig1: bytes, km: KeyMap, v: Verdict)
    requires IsOperatorMessage(m)
    ensures FirstFailure(CodeOrder, c, m, sig0, sig1, km, v) <==> v == VerifyOperator(c, m, sig0, sig1, km)
  {
    hide Met, VerifyOperator, Foremost;
    ForemostRank(c, m, sig0, sig1, km);
    ForemostVerdict(c, m, sig0, sig1, km);
    var w := VerifyOperator(c, m, sig0, sig1, km);
    assert FirstFailure(CodeOrder, c, m, sig0, sig1, km, w);
    if FirstFailure(CodeOrder, c, m, sig0, sig1, km, v) { FirstFailureUnique(CodeOrder, c, m, sig0, sig1, km, v, w); }
  }

  /** The stage at which the documentation places a signer's requirement. */
  function Stage(r: Requirement): nat {
    match r
    case SigSized(_) => 1
    case KeySized(_) => 2
    case SigValid(_) => 3
    case _ => 0
  }

  /** Both signers miss something, the second at an earlier stage, and it would be reported differently. */
  ghost predicate OrdersPart(c: Crypto, m: Message, sig0: bytes, sig1: bytes, km: KeyMap)
    requires IsOperatorMessage(m)
  {
    var r, q := SignerUnmet(c, m, sig0, sig1, km, false), SignerUnmet(c, m, sig0, sig1, km, true);
    && (forall r' :: Rank(CodeOrder, r') < 9 ==> Met(c, m, sig0, sig1, km, r'))
    && !Met(c, m, sig0, sig1, km, r) && !Met(c, m, sig0, sig1, km, q)
    && Stage(q) < Stage(r) && ReportedAs(q) != ReportedAs(r)
  }

  /** The foremost requirement not met in the documented order, or the last of all. */
  ghost function DocumentedForemost(c: Crypto, m: Message, sig0: bytes, sig1: bytes, km: KeyMap): Requirement
    requires IsOperatorMessage(m)
  {
    var first := Foremost(c, m, sig0, sig1, km);
    var r, q := SignerUnmet(c, m, sig0, sig1, km, false), SignerUnmet(c, m, sig0, sig1, km, true);
    var secondFirst := !Met(c, m, sig0, sig1, km, r) && !Met(c, m, sig0, sig1, km, q) && Stage(q) < Stage(r);
    if Rank(CodeOrder, first) >= 9 && secondFirst then q else first
  }

  lemma DocumentedRank(c: Crypto, m: Message, sig0: bytes, sig1: bytes, km: KeyMap)
    requires IsOperatorMessage(m)
    ensures
      var r := DocumentedForemost(c, m, sig0, sig1, km);
      && (forall r' :: Rank(DocumentedOrder, r') < Rank(DocumentedOrder, r) ==> Met(c, m, sig0, sig1, km, r'))
      && (Met(c, m, sig0, sig1, km, r) ==> forall r' :: Met(c, m, sig0, sig1, km, r'))
  {
    hide Met;
  }

  /** The documented order has one verdict too. It is the code's exactly unless the orders part; the code then reports
      the first signer's fault and the documented order the second's. */
  lemma DocumentedVerdict(c: Crypto, m: Message, sig0: bytes, sig1: bytes, km: KeyMap) returns (v: Verdict)
    requires IsOperatorMessage(m)
    ensures forall w :: FirstFailure(DocumentedOrder, c, m, sig0, sig1, km, w) <==> w == v
    ensures v == VerifyOperator(c, m, sig0, sig1, km) <==> !OrdersPart(c, m, sig0, sig1, km)
    ensures OrdersPart(c, m, sig0, sig1, km) ==>
      && v == Some(ReportedAs(SignerUnmet(c, m, sig0, sig1, km, true)))
      && VerifyOperator(c, m, sig0, sig1, km) == Some(ReportedAs(SignerUnmet(c, m, sig0, sig1, km, false)))
  {
    hide Met, VerifyOperator;
    var r := DocumentedForemost(c, m, sig0, sig1, km);
    DocumentedRank(c, m, sig0, sig1, km);
    v := if Met(c, m, sig0, sig1, km, r) then None else Some(ReportedAs(r));
    ForemostRank(c, m, sig0, sig1, km);
    ForemostVerdict(c, m, sig0, sig1, km);
    assert FirstFailure(DocumentedOrder, c, m, sig0, sig1, km, v);
    forall w | FirstFailure(DocumentedOrder, c, m, sig0, sig1, km, w) ensures w == v {
      FirstFailureUnique(DocumentedOrder, c, m, sig0, sig1, km, w, v);
    }
  }

  // ---------------------------------------------------------------- the three Verify methods

  method VerifyTransmission(c: Crypto, t: Message, sig0: bytes, sig1: bytes, km: KeyMap) returns (err: Verdict)
    requires t.OperatorTransmission?
    ensures err == VerifyOperator(c, t, sig0, sig1, km)
    ensures FirstFailure(CodeOrder, c, t, sig0, sig1, km, err)
    ensures err == None <==> Acceptable(c, t, sig0, sig1, km)
  {
    hide Canonical, FirstFailure, Acceptable;
    VerdictIsFirstFailure(CodeOrder, c, t, sig0, sig1, km, VerifyOperator(c, t, sig0, sig1, km));
    AcceptedExactly(c, t, sig0, sig1, km);
    if |t.nonce| < MIN_NONCE_LEN { return Some(ErrNonceTooShort); }
    if c.sigLen(t.algo) == 0 { return Some(ErrUnknownAlgo); }
    err := VerifyPair(c, km, t.idx0, t.idx1, t.algo, Canonical(t), sig0, sig1);
  }

  method VerifyConformance(c: Crypto, r: Message, sig0: bytes, sig1: bytes, km: KeyMap) returns (err: Verdict)
    requires r.ConformanceResponse?
    ensures err == VerifyOperator(c, r, sig0, sig1, km)
    ensures FirstFailure(CodeOrder, c, r, sig0, sig1, km, err)
    ensures err == None <==> Acceptable(c, r, sig0, sig1, km)
  {
    hide Canonical, FirstFailure, Acceptable;
    VerdictIsFirstFailure(CodeOrder, c, r, sig0, sig1, km, VerifyOperator(c, r, sig0, sig1, km));
    AcceptedExactly(c, r, sig0, sig1, km);
    if c.sigLen(r.algo) == 0 { return Some(ErrUnknownAlgo); }
    err := VerifyPair(c, km, r.idx0, r.idx1, r.algo, Canonical(r), sig0, sig1);
  }

  /** Both passes visit the map in an arbitrary order, chosen anew each time; the verdict does not depend on it. */
  method VerifyRotation(c: Crypto, r: Message, sig0: bytes, sig1: bytes, km: KeyMap) returns (err: Verdict)
    requires r.OperatorRotation?
    ensures err == VerifyOperator(c, r, sig0, sig1, km)
    ensures FirstFailure(CodeOrder, c, r, sig0, sig1, km, err)
    ensures err == None <==> Acceptable(c, r, sig0, sig1, km)
  {
    hide Canonical, FirstFailure, Acceptable;
    VerdictIsFirstFailure(CodeOrder, c, r, sig0, sig1, km, VerifyOperator(c, r, sig0, sig1, km));
    AcceptedExactly(c, r, sig0, sig1, km);
    if |r.nonce| < MIN_NONCE_LEN { return Some(ErrNonceTooShort); }
    if c.sigLen(r.algo) == 0 { return Some(ErrUnknownAlgo); }
    if r.keyIndex < 0 || r.keyIndex >= KEY_INDEX_COUNT { return Some(ErrIndexRange); }
    if |r.newPublicKey| != c.pubLen(r.algo) { return Some(ErrUnknownAlgo); }
    var todo := km.Keys;
    while todo != {}
      invariant todo <= km.Keys
      invariant forall idx :: idx in km && idx !in todo && idx != r.keyIndex ==> km[idx].publicKey != r.newPublicKey
      decreases |todo|
    {
      var idx :| idx in todo;
      todo := todo - {idx};
      if idx == r.keyIndex { continue; }
      if km[idx].publicKey == r.newPublicKey { return Some(ErrDuplicateSigningKey); }
    }
    todo := km.Keys;
    while todo != {}
      invariant todo <= km.Keys
      invariant forall idx :: idx in km && idx !in todo && idx != r.keyIndex ==> km[idx].algo == r.algo
      decreases |todo|
    {
      var idx :| idx in todo;
      todo := todo - {idx};
      if idx == r.keyIndex { continue; }
      if km[idx].algo != r.algo { return Some(ErrAlgoMismatch); }
    }
    err := VerifyPair(c, km, r.idx0, r.idx1, r.algo, Canonical(r), sig0, sig1);
  }

  // ---------------------------------------------------------------- signing

  /** They do part: with the second key missing and the first signature of the wrong length, the code reports the length
      and the documented order the key. */
  lemma MissingKeyBehindShortSignature(c: Crypto, m: Message, sig0: bytes, sig1: bytes, km: KeyMap)
    requires m.ConformanceResponse? && c.sigLen(m.algo) != 0
    requires m.idx0 != m.idx1 && 0 <= m.idx0 <= 6 && 0 <= m.idx1 <= 6
    requires m.idx0 in km && km[m.idx0].algo == m.algo && |sig0| != c.sigLen(m.algo) && m.idx1 !in km
    ensures VerifyOperator(c, m, sig0, sig1, km) == Some(ErrBadSigLength)
    ensures FirstFailure(DocumentedOrder, c, m, sig0, sig1, km, Some(ErrKeyMissing))
  {
    hide Canonical;
    assert OrdersPart(c, m, sig0, sig1, km);
    var v := DocumentedVerdict(c, m, sig0, sig1, km);
    assert FirstFailure(DocumentedOrder, c, m, sig0, sig1, km, v);
  }

  /** What Sign leaves in the message: the two indices, and the default algorithm where none was named. */
  function Prepared(m: Message, idx0: int64, idx1: int64): (r: Message)
    requires IsOperatorMessage(m)
    ensures IsOperatorMessage(r) && r == m.(idx0 := idx0, idx1 := idx1, algo := r.algo)
    ensures if m.algo == [] then Spelled(r.algo, "ed25519") else r.algo == m.algo
  {
    AlgoSpelled(AlgoEd25519());
    var algo := if m.algo == [] then AlgoEd25519() else m.algo;
    m.(idx0 := idx0, idx1 := idx1, algo := algo)
  }

  /** The public half of the private key is registered at the index. */
  predicate Registered(c: Crypto, km: KeyMap, idx: int64, priv: bytes) {
    0 <= idx <= 6 && idx in km && km[idx].publicKey == c.publicKey(priv) && Spelled(km[idx].algo, "ed25519")
  }

  /** What Verify asks of a message besides its two signatures, in a registry of this version's algorithm. */
  ghost predicate InOrderFor(m: Message, km: KeyMap)
    requires IsOperatorMessage(m)
  {
    && m.idx0 != m.idx1 && (m.ConformanceResponse? || |m.nonce| >= 16) && Spelled(m.algo, "ed25519")
    && (m.OperatorRotation? ==>
          0 <= m.keyIndex <= 6 && |m.newPublicKey| == 32 && !DuplicatesOther(m, km) && !MixesAlgorithms(m, km))
  }

  /** Signing with the private halves of the keys registered at two indices is accepted exactly when the message is in
      order and the two keys differ. */
  lemma SignThenVerifyExactly(c: Crypto, m: Message, km: KeyMap, priv0: bytes, priv1: bytes, idx0: int64, idx1: int64)
    requires Lawful(c) && V0Lengths(c) && IsOperatorMessage(m)
    requires Registered(c, km, idx0, priv0) && Registered(c, km, idx1, priv1)
    ensures
      var s := Prepared(m, idx0, idx1);
      VerifyOperator(c, s, c.sign(priv0, Canonical(s)), c.sign(priv1, Canonical(s)), km).None? <==>
        InOrderFor(s, km) && c.publicKey(priv0) != c.publicKey(priv1)
  {
    var s := Prepared(m, idx0, idx1);
    var msg := Canonical(s);
    AlgoSpelled(s.algo);
    AlgoSpelled(km[idx0].algo);
    AlgoSpelled(km[idx1].algo);
    AcceptedExactly(c, s, c.sign(priv0, msg), c.sign(priv1, msg), km);
    assert c.verify(c.publicKey(priv0), msg, c.sign(priv0, msg));
    assert c.verify(c.publicKey(priv1), msg, c.sign(priv1, msg));
  }

  /** An operator message with its two signatures; Sign overwrites all five fields in place. */
  class Credential {
    var body: Message
    var sig0: bytes
    var sig1: bytes

    constructor (body: Message)
      requires IsOperatorMessage(body)
      ensures this.body == body
    {
      this.body, sig0, sig1 := body, [], [];
    }

    ghost function Verify(c: Crypto, km: KeyMap): Verdict
      requires IsOperatorMessage(body)
      reads this
    {
      VerifyOperator(c, body, sig0, sig1, km)
    }

    /** Signed with two keys, the message is accepted, under every registry that holds them at their indices, exactly
        when it is in order there and the keys differ. */
    method Sign(c: Crypto, priv0: bytes, priv1: bytes, idx0: int64, idx1: int64)
      requires IsOperatorMessage(body)
      modifies this
      ensures IsOperatorMessage(body) && body == old(body).(idx0 := idx0, idx1 := idx1, algo := body.algo)
      ensures if old(body).algo == [] then Spelled(body.algo, "ed25519") else body.algo == old(body).algo
      ensures sig0 == c.sign(priv0, Canonical(body)) && sig1 == c.sign(priv1, Canonical(body))
      ensures forall km ::
        Lawful(c) && V0Lengths(c) && Registered(c, km, idx0, priv0) && Registered(c, km, idx1, priv1) ==>
          (Verify(c, km).None? <==> InOrderFor(body, km) && c.publicKey(priv0) != c.publicKey(priv1))
    {
      ghost var was := body;
      var algo := body.algo;
      if algo == [] { algo := AlgoEd25519(); }
      body := body.(idx0 := idx0, idx1 := idx1, algo := algo);
      var msg := Canonical(body);
      sig0 := c.sign(priv0, msg);
      sig1 := c.sign(priv1, msg);
      assert body == Prepared(was, idx0, idx1);
      forall km |
        Lawful(c) && V0Lengths(c) && Registered(c, km, idx0, priv0) && Registered(c, km, idx1, priv1)
        ensures Verify(c, km).None? <==> InOrderFor(body, km) && c.publicKey(priv0) != c.publicKey(priv1)
      {
        SignThenVerifyExactly(c, was, km, priv0, priv1, idx0, idx1);
      }
    }
  }

  /** A duplicate key is reported whatever the signatures say: exactly when nothing ahead of it fails and either a
      rotation installs a key held at another index or the two signing indices hold the same key. */
  lemma DuplicateOutranksSignatures(c: Crypto, m: Message, sig0: bytes, sig1: bytes, km: KeyMap)
    requires IsOperatorMessage(m)
    ensures VerifyOperator(c, m, sig0, sig1, km) == Some(ErrDuplicateSigningKey) <==>
      && (m.ConformanceResponse? || |m.nonce| >= 16) && c.sigLen(m.algo) != 0
      && (m.OperatorRotation? ==> 0 <= m.keyIndex <= 6 && |m.newPublicKey| == c.pubLen(m.algo))
      && ((m.OperatorRotation? && DuplicatesOther(m, km))
          || ((m.OperatorRotation? ==> !MixesAlgorithms(m, km))
              && m.idx0 != m.idx1 && 0 <= m.idx0 <= 6 && 0 <= m.idx1 <= 6
              && m.idx0 in km && m.idx1 in km && km[m.idx0].publicKey == km[m.idx1].publicKey))
  {
    hide Canonical;
  }

  /** The rotation's own requirements, besides a new key unused elsewhere: they come before the signers'. */
  ghost predicate RotationInOrder(c: Crypto, m: Message, km: KeyMap)
    requires IsOperatorMessage(m)
  {
    m.OperatorRotation? ==>
      && 0 <= m.keyIndex <= 6 && |m.newPublicKey| == c.pubLen(m.algo)
      && (forall idx :: idx in km && idx != m.keyIndex ==> km[idx].publicKey != m.newPublicKey)
      && (forall idx :: idx in km && idx != m.keyIndex ==> km[idx].algo == m.algo)
  }

  /** When the errors that need no registered key are returned. */
  lemma EarlyVerdicts(c: Crypto, m: Message, sig0: bytes, sig1: bytes, km: KeyMap)
    requires IsOperatorMessage(m)
    ensures
      var v, long := VerifyOperator(c, m, sig0, sig1, km), m.ConformanceResponse? || |m.nonce| >= 16;
      var inRange := 0 <= m.idx0 <= 6 && 0 <= m.idx1 <= 6;
      && (v == Some(ErrNonceTooShort) <==> !long)
      && (v == Some(ErrUnknownAlgo) <==>
            long && (c.sigLen(m.algo) == 0
                     || (m.OperatorRotation? && 0 <= m.keyIndex <= 6 && |m.newPublicKey| != c.pubLen(m.algo))))
      && (v == Some(ErrIndexRange) <==>
            long && c.sigLen(m.algo) != 0
            && ((m.OperatorRotation? && !(0 <= m.keyIndex <= 6))
                || (RotationInOrder(c, m, km) && m.idx0 != m.idx1 && !inRange)))
      && (v == Some(ErrSameIndex) <==>
            long && c.sigLen(m.algo) != 0 && RotationInOrder(c, m, km) && m.idx0 == m.idx1)
  {
    hide Canonical;
  }

  /** When each error is returned for one signer: its key is looked up before the lengths are, and the signature is
      verified last. */
  lemma SignerVerdicts(c: Crypto, km: KeyMap, idx: int64, algo: Text, msg: bytes, sig: bytes)
    ensures
      var v := VerifyAt(c, km, idx, algo, msg, sig);
      && (v == Some(ErrIndexRange) <==> !(0 <= idx <= 6))
      && (0 <= idx <= 6 && idx !in km ==> v == Some(ErrKeyMissing))
      && (0 <= idx <= 6 && idx in km ==>
            var key := km[idx].publicKey;
            && (v == Some(ErrAlgoMismatch) <==> km[idx].algo != algo)
            && (v == Some(ErrBadSigLength) <==> km[idx].algo == algo && |sig| != c.sigLen(algo))
            && (v == Some(ErrKeyMissing) <==>
                  km[idx].algo == algo && |sig| == c.sigLen(algo) && |key| != c.pubLen(algo))
            && (v == Some(ErrBadSignature) <==>
                  km[idx].algo == algo && |sig| == c.sigLen(algo) && |key| == c.pubLen(algo)
                  && !(|key| == 32 && |sig| == 64 && c.verify(key, msg, sig))))
  {}

  // ---------------------------------------------------------------- the registry

  ghost predicate IndicesInRange(km: KeyMap) {
    forall idx :: idx in km ==> 0 <= idx <= 6
  }

  ghost predicate KeysDistinct(km: KeyMap) {
    forall i, j :: i in km && j in km && i != j ==> km[i].publicKey != km[j].publicKey
  }

  ghost predicate OneAlgorithm(km: KeyMap) {
    forall i, j :: i in km && j in km ==> km[i].algo == km[j].algo
  }

  ghost predicate KeysWellFormed(c: Crypto, km: KeyMap) {
    forall idx :: idx in km ==> |km[idx].publicKey| == c.pubLen(km[idx].algo)
  }

  ghost predicate Sound(c: Crypto, km: KeyMap) {
    IndicesInRange(km) && KeysDistinct(km) && OneAlgorithm(km) && KeysWellFormed(c, km)
  }

  /** A rotation as it arrives. */
  datatype Submission = Submission(rotation: Message, sig0: bytes, sig1: bytes)

  ghost predicate RotationAccepted(c: Crypto, km: KeyMap, s: Submission) {
    s.rotation.OperatorRotation? && VerifyOperator(c, s.rotation, s.sig0, s.sig1, km).None?
  }

  /** The swap itself. */
  function Install(km: KeyMap, r: Message): KeyMap
    requires r.OperatorRotation?
  {
    km[r.keyIndex := KeyRecord(r.newPublicKey, r.algo)]
  }

  /** The coordinator applies the swap only after Verify returns nil. */
  ghost function Rotate(c: Crypto, km: KeyMap, s: Submission): KeyMap {
    if RotationAccepted(c, km, s) then Install(km, s.rotation) else km
  }

  class Registry {
    var keys: KeyMap

    constructor (keys: KeyMap)
      ensures this.keys == keys
    {
      this.keys := keys;
    }

    method Submit(c: Crypto, s: Submission) returns (err: Verdict)
      requires s.rotation.OperatorRotation?
      modifies this
      ensures err == VerifyOperator(c, s.rotation, s.sig0, s.sig1, old(keys))
      ensures keys == Rotate(c, old(keys), s)
      ensures err != None ==> keys == old(keys)
      ensures err == None ==>
        && s.rotation.keyIndex in keys
        && keys[s.rotation.keyIndex] == KeyRecord(s.rotation.newPublicKey, s.rotation.algo)
        && forall idx :: idx != s.rotation.keyIndex ==>
          (idx in keys <==> idx in old(keys)) && (idx in keys ==> keys[idx] == old(keys)[idx])
      ensures Sound(c, old(keys)) ==> Sound(c, keys)
    {
      err := VerifyRotation(c, s.rotation, s.sig0, s.sig1, keys);
      if Sound(c, keys) { RotateKeepsSound(c, keys, s); }
      if err == None {
        keys := Install(keys, s.rotation);
      }
    }
  }

  /** One submission, accepted or not, keeps the registry in range, pairwise distinct, well-formed and
      single-algorithm. */
  lemma RotateKeepsSound(c: Crypto, km: KeyMap, s: Submission)
    requires Sound(c, km)
    ensures Sound(c, Rotate(c, km, s))
  {
    if RotationAccepted(c, km, s) { AcceptedExactly(c, s.rotation, s.sig0, s.sig1, km); }
  }

  /** Even from a registry that mixes algorithms, the first accepted rotation leaves just one. */
  lemma AcceptanceUnifiesAlgorithms(c: Crypto, km: KeyMap, s: Submission)
    requires RotationAccepted(c, km, s)
    ensures OneAlgorithm(Rotate(c, km, s))
    ensures forall idx :: idx in Rotate(c, km, s) ==> Rotate(c, km, s)[idx].algo == s.rotation.algo
  {
    AcceptedExactly(c, s.rotation, s.sig0, s.sig1, km);
  }
}
