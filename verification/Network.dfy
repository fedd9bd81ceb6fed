/** Every delivery in the network as one state machine: which messages are accepted, and what acceptance changes.
    The guards are each message's Verify and the MUST clauses of coordinator/coordinator.go. */
module Network {
  import opened Bytes
  import opened Messages
  import opened Signing
  import opened Operator
  import opened Skipped

  /** Seq counters are kept apart: per node for listings, heartbeats and rotations, per lease for renewals. */
  datatype GateId =
    | ListingGate(node: Text) | HeartbeatGate(node: Text) | RotationGate(node: Text) | RenewalGate(lease: Text)

  datatype State = State(
    keys: map<Text, bytes>,                  // the key trusted for each node; revoked nodes are absent
    coordinatorKey: bytes,
    operators: map<Text, KeyMap>,
    gates: map<GateId, uint64>,              // last Seq accepted
    nonces: map<Text, set<Bytes16>>,         // nonces of accepted proofs, by lease
    metered: map<Text, nat>,                 // accepted proofs, by lease
    released: set<Text>)                     // leases a node has left

  /** A message arriving with its signature, or with its two signatures. */
  datatype Delivery = Delivery(m: Message, sig0: bytes, sig1: bytes)

  function NoncesOf(s: State, lease: Text): set<Bytes16> {
    if lease in s.nonces then s.nonces[lease] else {}
  }

  function MeteredOf(s: State, lease: Text): nat {
    if lease in s.metered then s.metered[lease] else 0
  }

  predicate SignedByCoordinator(m: Message) {
    m.Assignment? || m.FeeDeclaration? || m.StorageLease?
  }

  predicate SignedByNode(m: Message) {
    !SignedByCoordinator(m) && !IsOperatorMessage(m)
  }

  /** The one key a core message is verified under. */
  function TrustedKey(s: State, m: Message): Option<bytes>
    requires !IsOperatorMessage(m)
  {
    if SignedByCoordinator(m) then Some(s.coordinatorKey)
    else if m.nodeID in s.keys then Some(s.keys[m.nodeID])
    else None
  }

  function GateOf(m: Message): Option<GateId> {
    match m
    case CapabilityListing(n, _, _, _, _, _, _, _) => Some(ListingGate(n))
    case Heartbeat(n, _, _) => Some(HeartbeatGate(n))
    case KeyRotation(n, _, _, _, _) => Some(RotationGate(n))
    case StorageLease(l, _, _, _, _, _, _, _) => Some(RenewalGate(l))
    case _ => None
  }

  function SeqOf(m: Message): uint64
    requires GateOf(m).Some?
  {
    m.seqNo
  }

  /** A Seq must strictly exceed the last one accepted at its gate. Revocations pass no gate. */
  predicate GateOpen(s: State, m: Message) {
    GateOf(m).Some? && GateOf(m).value in s.gates ==> s.gates[GateOf(m).value] < SeqOf(m)
  }

  /** Nonces are single-use, and a released lease is no longer metered. */
  predicate ProofFresh(s: State, m: Message) {
    m.ProofResponse? ==> m.leaseID !in s.released && m.proofNonce !in NoncesOf(s, m.leaseID)
  }

  ghost predicate Accepts(c: Crypto, s: State, d: Delivery) {
    if IsOperatorMessage(d.m) then
      d.m.operatorID in s.operators && VerifyOperator(c, d.m, d.sig0, d.sig1, s.operators[d.m.operatorID]).None?
    else
      && TrustedKey(s, d.m).Some? && VerifyMessage(c, d.m, d.sig0, TrustedKey(s, d.m).value)
      && GateOpen(s, d.m) && ProofFresh(s, d.m)
  }

  function Apply(s: State, m: Message): State {
    match m
    case CapabilityListing(_, _, _, _, _, _, _, q) => s.(gates := s.gates[GateOf(m).value := q])
    case Heartbeat(_, _, q) => s.(gates := s.gates[GateOf(m).value := q])
    case StorageLease(_, _, _, _, _, _, _, q) => s.(gates := s.gates[GateOf(m).value := q])
    case KeyRotation(n, k, _, _, q) => s.(keys := s.keys[n := k], gates := s.gates[GateOf(m).value := q])
    case KeyRevocation(n, _, _, _) => s.(keys := s.keys - {n})
    case LeaseRelease(l, _, _) => s.(released := s.released + {l})
    case ProofResponse(l, _, _, _, nonce, _, _) =>
      s.(nonces := s.nonces[l := NoncesOf(s, l) + {nonce}], metered := s.metered[l := MeteredOf(s, l) + 1])
    case OperatorRotation(o, _, _, _, _, _, _, _, _) =>
      if o in s.operators then s.(operators := s.operators[o := Install(s.operators[o], m)]) else s
    case _ => s
  }

  /** The same, on state held in fields and updated in place. */
  class Coordinator {
    var keys: map<Text, bytes>
    var coordinatorKey: bytes
    var operators: map<Text, KeyMap>
    var gates: map<GateId, uint64>
    var nonces: map<Text, set<Bytes16>>
    var metered: map<Text, nat>
    var released: set<Text>

    function Now(): State
      reads this
    {
      State(keys, coordinatorKey, operators, gates, nonces, metered, released)
    }

    constructor (s: State)
      ensures Now() == s
    {
      keys, coordinatorKey, operators, gates := s.keys, s.coordinatorKey, s.operators, s.gates;
      nonces, metered, released := s.nonces, s.metered, s.released;
    }

    method Authorize(c: Crypto, d: Delivery) returns (ok: bool)
      ensures ok == Accepts(c, Now(), d)
    {
      if IsOperatorMessage(d.m) {
        if d.m.operatorID !in operators { return false; }
        var err: Verdict;
        if d.m.OperatorTransmission? {
          err := VerifyTransmission(c, d.m, d.sig0, d.sig1, operators[d.m.operatorID]);
        } else if d.m.OperatorRotation? {
          err := VerifyRotation(c, d.m, d.sig0, d.sig1, operators[d.m.operatorID]);
        } else {
          err := VerifyConformance(c, d.m, d.sig0, d.sig1, operators[d.m.operatorID]);
        }
        return err == None;
      }
      var key := TrustedKey(Now(), d.m);
      if key == None || !VerifyMessage(c, d.m, d.sig0, key.value) { return false; }
      ok := GateOpen(Now(), d.m) && ProofFresh(Now(), d.m);
    }

    /** A rejected delivery changes nothing; an accepted one changes only what its type governs. */
    method Receive(c: Crypto, d: Delivery) returns (ok: bool)
      modifies this
      ensures ok == Accepts(c, old(Now()), d)
      ensures Now() == Step(c, old(Now()), Deliver(d))
    {
      ok := Authorize(c, d);
      if !ok { return; }
      var m := d.m;
      if GateOf(m).Some? { gates := gates[GateOf(m).value := SeqOf(m)]; }
      if m.KeyRotation? {
        keys := keys[m.nodeID := m.newPublicKey];
      } else if m.KeyRevocation? {
        keys := keys - {m.nodeID};
      } else if m.LeaseRelease? {
        released := released + {m.leaseID};
      } else if m.ProofResponse? {
        metered := metered[m.leaseID := MeteredOf(Now(), m.leaseID) + 1];
        nonces := nonces[m.leaseID := NoncesOf(Now(), m.leaseID) + {m.proofNonce}];
      } else if m.OperatorRotation? {
        operators := operators[m.operatorID := Install(operators[m.operatorID], m)];
      }
    }
  }

  /** The signature on a core message verifies under the key. */
  predicate Verifies(c: Crypto, key: bytes, d: Delivery) {
    |key| == 32 && |d.sig0| == 64 && c.verify(key, Canonical(d.m), d.sig0)
  }

  /** The node has a trusted key, and the signature verifies under it. */
  predicate NodeVerifies(c: Crypto, s: State, node: Text, d: Delivery) {
    node in s.keys && Verifies(c, s.keys[node], d)
  }

  predicate Above(s: State, g: GateId, seqNo: uint64) {
    g in s.gates ==> s.gates[g] < seqNo
  }

  /** Acceptance type by type. Assignments, fee declarations and leases are verified under the coordinator's key, every
      other core message under the key of the node it names; each of the four counters is its own. */
  lemma AcceptsExactly(c: Crypto, s: State, d: Delivery)
    ensures Accepts(c, s, d) <==>
      match d.m
      case CapabilityListing(n, _, _, _, _, _, _, q) => NodeVerifies(c, s, n, d) && Above(s, ListingGate(n), q)
      case Heartbeat(n, _, q) => NodeVerifies(c, s, n, d) && Above(s, HeartbeatGate(n), q)
      case Assignment(_, _, _, _, _) => Verifies(c, s.coordinatorKey, d)
      case Decline(_, n, _, _) => NodeVerifies(c, s, n, d)
      case JobReport(_, n, _, _, _, _, _) => NodeVerifies(c, s, n, d)
      case FeeDeclaration(_, _, _, _) => Verifies(c, s.coordinatorKey, d)
      case StorageLease(l, _, _, _, _, _, _, q) => Verifies(c, s.coordinatorKey, d) && Above(s, RenewalGate(l), q)
      case LeaseDecline(_, n, _, _) => NodeVerifies(c, s, n, d)
      case LeaseRelease(_, n, _) => NodeVerifies(c, s, n, d)
      case ProofResponse(l, n, _, _, nonce, _, _) =>
        NodeVerifies(c, s, n, d) && l !in s.released && nonce !in NoncesOf(s, l)
      case KeyRotation(n, k, a, _, q) =>
        NodeVerifies(c, s, n, d) && Spelled(a, "ed25519") && |k| == 32 && Above(s, RotationGate(n), q)
      case KeyRevocation(n, k, _, _) => NodeVerifies(c, s, n, d) && k == s.keys[n]
      case OperatorTransmission(o, _, _, _, _, _, _) =>
        o in s.operators && Acceptable(c, d.m, d.sig0, d.sig1, s.operators[o])
      case OperatorRotation(o, _, _, _, _, _, _, _, _) =>
        o in s.operators && Acceptable(c, d.m, d.sig0, d.sig1, s.operators[o])
      case ConformanceResponse(o, _, _, _, _) =>
        o in s.operators && Acceptable(c, d.m, d.sig0, d.sig1, s.operators[o])
  {
    hide Canonical, VerifyMessage, VerifyOperator, Acceptable, Spelled;
    if IsOperatorMessage(d.m) {
      if d.m.operatorID in s.operators { AcceptedExactly(c, d.m, d.sig0, d.sig1, s.operators[d.m.operatorID]); }
    } else {
      CoreAcceptedExactly(c, d.m, d.sig0, s.coordinatorKey);
      if !SignedByCoordinator(d.m) && d.m.nodeID in s.keys {
        CoreAcceptedExactly(c, d.m, d.sig0, s.keys[d.m.nodeID]);
      }
    }
  }

  // ---------------------------------------------------------------- runs

  /** A key holder signs a message, or somebody delivers one: replays, forgeries and honest traffic alike. */
  datatype Event = Sign(pub: bytes, m: Message) | Deliver(d: Delivery)

  ghost function Step(c: Crypto, s: State, e: Event): State {
    if e.Deliver? && Accepts(c, s, e.d) then Apply(s, e.d.m) else s
  }

  ghost function After(c: Crypto, s: State, es: seq<Event>): State {
    if es == [] then s else Step(c, After(c, s, es[..|es| - 1]), es[|es| - 1])
  }

  /** The delivery at position i of the run was accepted. */
  ghost predicate AcceptedAt(c: Crypto, s: State, es: seq<Event>, i: int) {
    0 <= i < |es| && es[i].Deliver? && Accepts(c, After(c, s, es[..i]), es[i].d)
  }

  lemma AfterNext(c: Crypto, s: State, es: seq<Event>, i: nat)
    requires i < |es|
    ensures After(c, s, es[..i + 1]) == Step(c, After(c, s, es[..i]), es[i])
  {
    assert es[..i + 1][..i] == es[..i];
  }

  /** The messages a gate counts. */
  predicate CountedAt(m: Message, g: GateId) {
    match g
    case ListingGate(n) => m.CapabilityListing? && m.nodeID == n
    case HeartbeatGate(n) => m.Heartbeat? && m.nodeID == n
    case RotationGate(n) => m.KeyRotation? && m.nodeID == n
    case RenewalGate(l) => m.StorageLease? && m.leaseID == l
  }

  lemma ApplyGate(s: State, m: Message, g: GateId)
    ensures
      var gates := Apply(s, m).gates;
      if CountedAt(m, g) then g in gates && gates[g] == m.seqNo
      else (g in gates <==> g in s.gates) && (g in gates ==> gates[g] == s.gates[g])
  {
    hide NoncesOf, MeteredOf, Install;
  }

  /** One event, gate by gate: a gate's Seq changes only to a higher one, that of the message accepted there. */
  lemma StepGate(c: Crypto, s: State, e: Event, g: GateId)
    ensures
      var s' := Step(c, s, e);
      if e.Deliver? && Accepts(c, s, e.d) && CountedAt(e.d.m, g) then
        (g in s.gates ==> s.gates[g] < e.d.m.seqNo) && g in s'.gates && s'.gates[g] == e.d.m.seqNo
      else (g in s'.gates <==> g in s.gates) && (g in s.gates ==> s'.gates[g] == s.gates[g])
  {
    hide VerifyMessage, VerifyOperator, ProofFresh, Apply;
    if e.Deliver? { ApplyGate(s, e.d.m, g); }
  }

  /** One event, node by node: only an accepted rotation or revocation of the node touches its key. */
  lemma StepKey(c: Crypto, s: State, e: Event, node: Text)
    ensures
      var s' := Step(c, s, e);
      if e.Deliver? && Accepts(c, s, e.d) && e.d.m.KeyRevocation? && e.d.m.nodeID == node then node !in s'.keys
      else if e.Deliver? && Accepts(c, s, e.d) && e.d.m.KeyRotation? && e.d.m.nodeID == node then
        && node in s.keys && VerifyMessage(c, e.d.m, e.d.sig0, s.keys[node])
        && node in s'.keys && s'.keys[node] == e.d.m.newPublicKey
      else (node in s'.keys <==> node in s.keys) && (node in s.keys ==> s'.keys[node] == s.keys[node])
  {
    hide VerifyMessage, VerifyOperator, GateOpen;
  }

  lemma ApplyMeter(s: State, m: Message, lease: Text)
    ensures
      var s' := Apply(s, m);
      if m.ProofResponse? && m.leaseID == lease then
        NoncesOf(s', lease) == NoncesOf(s, lease) + {m.proofNonce} && MeteredOf(s', lease) == MeteredOf(s, lease) + 1
      else NoncesOf(s', lease) == NoncesOf(s, lease) && MeteredOf(s', lease) == MeteredOf(s, lease)
    ensures lease in Apply(s, m).released <==> lease in s.released || (m.LeaseRelease? && m.leaseID == lease)
  {
    hide Install;
  }

  /** One event, lease by lease: only an accepted proof moves the meter, by one, for a nonce not seen before. */
  lemma StepMeter(c: Crypto, s: State, e: Event, lease: Text)
    ensures
      var s' := Step(c, s, e);
      if e.Deliver? && Accepts(c, s, e.d) && e.d.m.ProofResponse? && e.d.m.leaseID == lease then
        && lease !in s.released && e.d.m.proofNonce !in NoncesOf(s, lease)
        && NoncesOf(s', lease) == NoncesOf(s, lease) + {e.d.m.proofNonce}
        && MeteredOf(s', lease) == MeteredOf(s, lease) + 1
      else NoncesOf(s', lease) == NoncesOf(s, lease) && MeteredOf(s', lease) == MeteredOf(s, lease)
    ensures lease in Step(c, s, e).released <==>
      lease in s.released || (e.Deliver? && Accepts(c, s, e.d) && e.d.m.LeaseRelease? && e.d.m.leaseID == lease)
  {
    hide Apply, VerifyMessage, VerifyOperator, GateOpen, NoncesOf, MeteredOf;
    if e.Deliver? { ApplyMeter(s, e.d.m, lease); }
  }

  lemma ApplyRegistry(s: State, m: Message, op: Text)
    requires op in s.operators
    ensures op in Apply(s, m).operators && Apply(s, m).operators[op] ==
      if m.OperatorRotation? && m.operatorID == op then Install(s.operators[op], m) else s.operators[op]
  {
    hide NoncesOf, MeteredOf;
  }

  /** One event, operator by operator and index by index: a registry moves by accepted rotations only, each of which
      puts its new key and algorithm at its own index and leaves the others. */
  lemma StepRegistry(c: Crypto, s: State, e: Event, op: Text)
    requires op in s.operators
    ensures
      var s' := Step(c, s, e);
      op in s'.operators && s'.operators[op] ==
        if e.Deliver? && e.d.m.OperatorRotation? && e.d.m.operatorID == op
        then Rotate(c, s.operators[op], Submission(e.d.m, e.d.sig0, e.d.sig1)) else s.operators[op]
    ensures
      var km, km' := s.operators[op], Step(c, s, e).operators[op];
      if e.Deliver? && Accepts(c, s, e.d) && e.d.m.OperatorRotation? && e.d.m.operatorID == op then
        && e.d.m.keyIndex in km' && km'[e.d.m.keyIndex] == KeyRecord(e.d.m.newPublicKey, e.d.m.algo)
        && forall idx :: idx != e.d.m.keyIndex ==> (idx in km' <==> idx in km) && (idx in km' ==> km'[idx] == km[idx])
      else km' == km
  {
    hide Apply, VerifyOperator, VerifyMessage, GateOpen, ProofFresh;
    if e.Deliver? { ApplyRegistry(s, e.d.m, op); }
  }

  lemma ApplyEnrolment(s: State, m: Message)
    ensures Apply(s, m).coordinatorKey == s.coordinatorKey
    ensures forall op :: op in Apply(s, m).operators <==> op in s.operators
  {
    hide NoncesOf, MeteredOf, Install;
  }

  /** No operator is enrolled or struck off, and the coordinator's key never changes. */
  lemma {:induction false} EnrolmentFixed(c: Crypto, s: State, es: seq<Event>)
    ensures After(c, s, es).coordinatorKey == s.coordinatorKey
    ensures forall op :: op in After(c, s, es).operators <==> op in s.operators
  {
    hide Accepts, Apply;
    if es != [] {
      var n := |es| - 1;
      EnrolmentFixed(c, s, es[..n]);
      if es[n].Deliver? { ApplyEnrolment(After(c, s, es[..n]), es[n].d.m); }
    }
  }

  // ---------------------------------------------------------------- Seq gates

  lemma {:induction false} GatesOnlyRise(c: Crypto, s: State, es: seq<Event>, i: nat, j: nat, g: GateId)
    requires i <= j <= |es|
    ensures g in After(c, s, es[..i]).gates ==>
      g in After(c, s, es[..j]).gates && After(c, s, es[..i]).gates[g] <= After(c, s, es[..j]).gates[g]
    decreases j
  {
    hide Step, Accepts;
    if i < j {
      GatesOnlyRise(c, s, es, i, j - 1, g);
      AfterNext(c, s, es, j - 1);
      StepGate(c, After(c, s, es[..j - 1]), es[j - 1], g);
    }
  }

  lemma GatedSeqsIncrease(c: Crypto, s: State, es: seq<Event>, i: int, j: int, g: GateId)
    requires i < j && AcceptedAt(c, s, es, i) && AcceptedAt(c, s, es, j)
    requires CountedAt(es[i].d.m, g) && CountedAt(es[j].d.m, g)
    ensures es[i].d.m.seqNo < es[j].d.m.seqNo
  {
    hide Step, Accepts;
    AfterNext(c, s, es, i);
    StepGate(c, After(c, s, es[..i]), es[i], g);
    GatesOnlyRise(c, s, es, i + 1, j, g);
    StepGate(c, After(c, s, es[..j]), es[j], g);
  }

  /** Two messages one counter runs through: listings, heartbeats or rotations of one node, or leases of one LeaseID. */
  predicate SameCounter(m1: Message, m2: Message) {
    || (m1.CapabilityListing? && m2.CapabilityListing? && m1.nodeID == m2.nodeID)
    || (m1.Heartbeat? && m2.Heartbeat? && m1.nodeID == m2.nodeID)
    || (m1.KeyRotation? && m2.KeyRotation? && m1.nodeID == m2.nodeID)
    || (m1.StorageLease? && m2.StorageLease? && m1.leaseID == m2.leaseID)
  }

  /** Accepted Seqs strictly increase on every counter. */
  lemma SeqsStrictlyIncrease(c: Crypto, s: State, es: seq<Event>, i: int, j: int)
    requires i < j && AcceptedAt(c, s, es, i) && AcceptedAt(c, s, es, j)
    requires SameCounter(es[i].d.m, es[j].d.m)
    ensures es[i].d.m.seqNo < es[j].d.m.seqNo
  {
    hide Step, Accepts;
    GatedSeqsIncrease(c, s, es, i, j, GateOf(es[i].d.m).value);
  }

  /** So no listing, heartbeat, rotation or lease is ever accepted twice, whatever keys were trusted in between. */
  lemma NoGatedReplay(c: Crypto, s: State, es: seq<Event>, i: int, j: int)
    requires AcceptedAt(c, s, es, i) && AcceptedAt(c, s, es, j) && es[i].d.m == es[j].d.m
    requires var m := es[i].d.m; m.CapabilityListing? || m.Heartbeat? || m.KeyRotation? || m.StorageLease?
    ensures i == j
  {
    if i < j { SeqsStrictlyIncrease(c, s, es, i, j); }
    if j < i { SeqsStrictlyIncrease(c, s, es, j, i); }
  }

  ghost predicate CountedIn(c: Crypto, s: State, es: seq<Event>, i: int, g: GateId) {
    AcceptedAt(c, s, es, i) && CountedAt(es[i].d.m, g)
  }

  lemma CountedLater(c: Crypto, s: State, es: seq<Event>, g: GateId)
    requires es != []
    ensures forall i :: i < |es| - 1 ==> (CountedIn(c, s, es, i, g) <==> CountedIn(c, s, es[..|es| - 1], i, g))
  {
    hide Step, Accepts, CountedAt;
    forall i | 0 <= i < |es| - 1 ensures CountedIn(c, s, es, i, g) <==> CountedIn(c, s, es[..|es| - 1], i, g) {
      assert es[..|es| - 1][..i] == es[..i];
    }
  }

  /** From a gate nothing has passed, the Seq it holds is the greatest accepted there. */
  lemma {:induction false} GateIsMaximum(c: Crypto, s: State, es: seq<Event>, g: GateId)
    requires g !in s.gates
    ensures
      var gates := After(c, s, es).gates;
      && (forall i :: CountedIn(c, s, es, i, g) ==> g in gates && es[i].d.m.seqNo <= gates[g])
      && (g in gates ==> exists i :: CountedIn(c, s, es, i, g) && es[i].d.m.seqNo == gates[g])
  {
    hide Step, Accepts;
    if es != [] {
      var n := |es| - 1;
      var init := es[..n];
      GateIsMaximum(c, s, init, g);
      CountedLater(c, s, es, g);
      StepGate(c, After(c, s, init), es[n], g);
      if CountedIn(c, s, es, n, g) {
        assert es[n].d.m.seqNo == After(c, s, es).gates[g];
      } else if g in After(c, s, es).gates {
        var i :| CountedIn(c, s, init, i, g) && init[i].d.m.seqNo == After(c, s, init).gates[g];
        assert CountedIn(c, s, es, i, g) && es[i] == init[i];
      }
    }
  }

  lemma AboveAllCounted(c: Crypto, s: State, es: seq<Event>, g: GateId, seqNo: uint64)
    requires g !in s.gates
    ensures Above(After(c, s, es), g, seqNo) <==> forall i :: CountedIn(c, s, es, i, g) ==> es[i].d.m.seqNo < seqNo
  {
    hide Step, Accepts, CountedAt, CountedIn;
    GateIsMaximum(c, s, es, g);
  }

  // ---------------------------------------------------------------- the key lifecycle

  /** The accepted rotations of a node, in order. */
  ghost function Rotations(c: Crypto, s: State, es: seq<Event>, node: Text): seq<Delivery> {
    if es == [] then []
    else
      var n := |es| - 1;
      Rotations(c, s, es[..n], node) +
        if AcceptedAt(c, s, es, n) && es[n].d.m.KeyRotation? && es[n].d.m.nodeID == node then [es[n].d] else []
  }

  /** Each successor was named by a rotation that verified under its predecessor, with a higher Seq. */
  ghost predicate KeyChain(c: Crypto, first: bytes, rs: seq<Delivery>, node: Text) {
    Linked(c, first, rs, node) && SeqsRise(rs)
  }

  ghost predicate Linked(c: Crypto, first: bytes, rs: seq<Delivery>, node: Text) {
    forall k :: 0 <= k < |rs| ==> Link(c, KeyBefore(first, rs, k), rs[k], node)
  }

  ghost predicate SeqsRise(rs: seq<Delivery>) {
    && (forall k :: 0 <= k < |rs| ==> rs[k].m.KeyRotation?)
    && (forall k, l :: 0 <= k < l < |rs| ==> rs[k].m.seqNo < rs[l].m.seqNo)
  }

  predicate Link(c: Crypto, key: bytes, d: Delivery, node: Text) {
    d.m.KeyRotation? && d.m.nodeID == node && VerifyMessage(c, d.m, d.sig0, key)
  }

  /** The key held before the k-th rotation of the list. */
  function KeyBefore(first: bytes, rs: seq<Delivery>, k: int): bytes {
    if 0 < k <= |rs| && rs[k - 1].m.KeyRotation? then rs[k - 1].m.newPublicKey else first
  }

  lemma NoLinks(c: Crypto, first: bytes, node: Text)
    ensures KeyChain(c, first, [], node)
  {}

  lemma LinkedSnoc(c: Crypto, first: bytes, rs: seq<Delivery>, d: Delivery, node: Text)
    requires Linked(c, first, rs, node) && Link(c, KeyBefore(first, rs, |rs|), d, node)
    ensures Linked(c, first, rs + [d], node)
  {
    hide Link;
    var rs' := rs + [d];
    forall k | 0 <= k < |rs'| ensures Link(c, KeyBefore(first, rs', k), rs'[k], node) {
      assert KeyBefore(first, rs', k) == KeyBefore(first, rs, k);
    }
  }

  lemma SeqsRiseSnoc(rs: seq<Delivery>, d: Delivery)
    requires SeqsRise(rs) && d.m.KeyRotation? && (rs != [] ==> rs[|rs| - 1].m.seqNo < d.m.seqNo)
    ensures SeqsRise(rs + [d])
  {
    forall k | 0 <= k < |rs| ensures rs[k].m.seqNo < d.m.seqNo {
      assert k < |rs| - 1 ==> rs[k].m.seqNo < rs[|rs| - 1].m.seqNo;
    }
  }

  /** At every moment of every run the trusted key of a node is the end of such a chain from the enrolled key,
      and the rotation gate stands at the chain's last Seq. */
  lemma {:induction false} TrustedKeysFormChain(c: Crypto, s: State, es: seq<Event>, node: Text)
    requires node in s.keys
    ensures
      var rs, now := Rotations(c, s, es, node), After(c, s, es);
      && KeyChain(c, s.keys[node], rs, node)
      && (node in now.keys ==> now.keys[node] == KeyBefore(s.keys[node], rs, |rs|))
      && (rs != [] ==> RotationGate(node) in now.gates && rs[|rs| - 1].m.seqNo == now.gates[RotationGate(node)])
  {
    hide Step, Accepts, Linked, SeqsRise, VerifyMessage;
    if es == [] {
      assert KeyChain(c, s.keys[node], [], node) by { NoLinks(c, s.keys[node], node); }
    } else {
      var n := |es| - 1;
      var before, rs, e := After(c, s, es[..n]), Rotations(c, s, es[..n], node), es[n];
      TrustedKeysFormChain(c, s, es[..n], node);
      StepKey(c, before, e, node);
      StepGate(c, before, e, RotationGate(node));
      if AcceptedAt(c, s, es, n) && e.d.m.KeyRotation? && e.d.m.nodeID == node {
        assert Rotations(c, s, es, node) == rs + [e.d];
        LinkedSnoc(c, s.keys[node], rs, e.d, node);
        SeqsRiseSnoc(rs, e.d);
        assert KeyBefore(s.keys[node], rs + [e.d], |rs| + 1) == e.d.m.newPublicKey;
      } else {
        assert Rotations(c, s, es, node) == rs;
      }
    }
  }

  /** A node has no trusted key exactly when it never had one or a revocation of it was accepted. */
  lemma {:induction false} RevokedExactly(c: Crypto, s: State, es: seq<Event>, node: Text)
    ensures node !in After(c, s, es).keys <==> node !in s.keys || RevokedIn(c, s, es, node)
  {
    hide Step, Accepts;
    if es != [] {
      var n := |es| - 1;
      var init := es[..n];
      StepKey(c, After(c, s, init), es[n], node);
      RevokedExactly(c, s, init, node);
      if RevokedIn(c, s, init, node) {
        var i :| AcceptedAt(c, s, init, i) && init[i].d.m.KeyRevocation? && init[i].d.m.nodeID == node;
        assert init[..i] == es[..i];
        assert AcceptedAt(c, s, es, i) && es[i].d.m.KeyRevocation?;
      }
      if RevokedIn(c, s, es, node) {
        var i :| AcceptedAt(c, s, es, i) && es[i].d.m.KeyRevocation? && es[i].d.m.nodeID == node;
        if i < n {
          assert init[..i] == es[..i];
          assert AcceptedAt(c, s, init, i) && init[i].d.m.KeyRevocation?;
        }
      }
      if AcceptedAt(c, s, es, n) && es[n].d.m.KeyRevocation? && es[n].d.m.nodeID == node {
        assert RevokedIn(c, s, es, node);
      }
    }
  }

  ghost predicate RevokedIn(c: Crypto, s: State, es: seq<Event>, node: Text) {
    exists i :: AcceptedAt(c, s, es, i) && es[i].d.m.KeyRevocation? && es[i].d.m.nodeID == node
  }

  /** Revocation is absorbing: after it no message of that node is accepted again. */
  lemma RevocationAbsorbs(c: Crypto, s: State, es: seq<Event>, i: int, j: int)
    requires i < j && AcceptedAt(c, s, es, i) && es[i].d.m.KeyRevocation?
    requires AcceptedAt(c, s, es, j)
    requires var m := es[j].d.m;
      || m.CapabilityListing? || m.Heartbeat? || m.Decline? || m.JobReport? || m.LeaseDecline? || m.LeaseRelease?
      || m.ProofResponse? || m.KeyRotation? || m.KeyRevocation?
    ensures es[j].d.m.nodeID != es[i].d.m.nodeID
  {
    hide Accepts, Step, Verifies;
    var node := es[i].d.m.nodeID;
    AcceptsExactly(c, After(c, s, es[..j]), es[j].d);
    assert es[..j][..i] == es[..i];
    assert AcceptedAt(c, s, es[..j], i) && es[..j][i].d.m.KeyRevocation?;
    RevokedExactly(c, s, es[..j], node);
  }

  // ---------------------------------------------------------------- storage metering

  ghost predicate ProofAcceptedAt(c: Crypto, s: State, es: seq<Event>, i: int, lease: Text) {
    AcceptedAt(c, s, es, i) && es[i].d.m.ProofResponse? && es[i].d.m.leaseID == lease
  }

  /** How many proofs of a lease a run accepted. */
  ghost function ProofCount(c: Crypto, s: State, es: seq<Event>, lease: Text): nat {
    if es == [] then 0
    else ProofCount(c, s, es[..|es| - 1], lease) + if ProofAcceptedAt(c, s, es, |es| - 1, lease) then 1 else 0
  }

  /** The distinct nonces those proofs carried. */
  ghost function AcceptedNonces(c: Crypto, s: State, es: seq<Event>, lease: Text): set<Bytes16> {
    set i | 0 <= i < |es| && ProofAcceptedAt(c, s, es, i, lease) :: es[i].d.m.proofNonce
  }

  lemma NoncesGrow(c: Crypto, s: State, es: seq<Event>, lease: Text)
    requires es != []
    ensures AcceptedNonces(c, s, es, lease) == AcceptedNonces(c, s, es[..|es| - 1], lease) +
      if ProofAcceptedAt(c, s, es, |es| - 1, lease) then {es[|es| - 1].d.m.proofNonce} else {}
  {
    hide Step, Accepts;
    var n := |es| - 1;
    var init := es[..n];
    forall i | 0 <= i < n ensures ProofAcceptedAt(c, s, es, i, lease) <==> ProofAcceptedAt(c, s, init, i, lease) {
      assert init[..i] == es[..i];
    }
    var all, early := AcceptedNonces(c, s, es, lease), AcceptedNonces(c, s, init, lease);
    forall x | x in early ensures x in all {
      var i :| 0 <= i < |init| && ProofAcceptedAt(c, s, init, i, lease) && init[i].d.m.proofNonce == x;
      assert ProofAcceptedAt(c, s, es, i, lease) && es[i].d.m.proofNonce == x;
    }
    forall x | x in all ensures x in early || (ProofAcceptedAt(c, s, es, n, lease) && x == es[n].d.m.proofNonce) {
      var i :| 0 <= i < |es| && ProofAcceptedAt(c, s, es, i, lease) && es[i].d.m.proofNonce == x;
      if i < n { assert ProofAcceptedAt(c, s, init, i, lease) && init[i].d.m.proofNonce == x; }
    }
  }

  /** From a lease not yet metered, the meter always equals the number of accepted proofs and the number of distinct
      accepted nonces, under any interleaving of replays, renewals and other traffic. */
  lemma {:induction false} MeterCountsDistinctNonces(c: Crypto, s: State, es: seq<Event>, lease: Text)
    requires NoncesOf(s, lease) == {} && MeteredOf(s, lease) == 0
    ensures NoncesOf(After(c, s, es), lease) == AcceptedNonces(c, s, es, lease)
    ensures MeteredOf(After(c, s, es), lease) == ProofCount(c, s, es, lease) == |AcceptedNonces(c, s, es, lease)|
  {
    hide Step, Accepts;
    if es != [] {
      StepMeter(c, After(c, s, es[..|es| - 1]), es[|es| - 1], lease);
      MeterCountsDistinctNonces(c, s, es[..|es| - 1], lease);
      NoncesGrow(c, s, es, lease);
    }
  }

  /** Once a release is accepted the lease is never metered again. */
  lemma {:induction false} ReleaseStopsMetering(c: Crypto, s: State, es: seq<Event>, i: int, j: nat)
    requires AcceptedAt(c, s, es, i) && es[i].d.m.LeaseRelease? && i < j <= |es|
    ensures es[i].d.m.leaseID in After(c, s, es[..j]).released
    ensures MeteredOf(After(c, s, es[..j]), es[i].d.m.leaseID) == MeteredOf(After(c, s, es[..i]), es[i].d.m.leaseID)
    decreases j
  {
    hide Step, Accepts;
    AfterNext(c, s, es, j - 1);
    StepMeter(c, After(c, s, es[..j - 1]), es[j - 1], es[i].d.m.leaseID);
    if i + 1 < j { ReleaseStopsMetering(c, s, es, i, j - 1); }
  }

  ghost predicate ReleasedIn(c: Crypto, s: State, es: seq<Event>, lease: Text) {
    exists i :: AcceptedAt(c, s, es, i) && es[i].d.m.LeaseRelease? && es[i].d.m.leaseID == lease
  }

  /** A lease counts as released exactly when it did from the start or a release of it was accepted. */
  lemma {:induction false} ReleasedExactly(c: Crypto, s: State, es: seq<Event>, lease: Text)
    ensures lease in After(c, s, es).released <==> lease in s.released || ReleasedIn(c, s, es, lease)
  {
    hide Step, Accepts;
    if es != [] {
      var n := |es| - 1;
      var init := es[..n];
      StepMeter(c, After(c, s, init), es[n], lease);
      ReleasedExactly(c, s, init, lease);
      if ReleasedIn(c, s, init, lease) {
        var i :| AcceptedAt(c, s, init, i) && init[i].d.m.LeaseRelease? && init[i].d.m.leaseID == lease;
        assert init[..i] == es[..i];
        assert AcceptedAt(c, s, es, i) && es[i].d.m.LeaseRelease?;
      }
      if ReleasedIn(c, s, es, lease) {
        var i :| AcceptedAt(c, s, es, i) && es[i].d.m.LeaseRelease? && es[i].d.m.leaseID == lease;
        if i < n {
          assert init[..i] == es[..i];
          assert AcceptedAt(c, s, init, i) && init[i].d.m.LeaseRelease?;
        }
      }
      if AcceptedAt(c, s, es, n) && es[n].d.m.LeaseRelease? && es[n].d.m.leaseID == lease {
        assert ReleasedIn(c, s, es, lease);
      }
    }
  }

  // ---------------------------------------------------------------- what the history decides

  /** No message has been accepted yet. */
  predicate NoneAccepted(s: State) {
    s.gates == map[] && s.nonces == map[] && s.metered == map[] && s.released == {}
  }

  /** The run accepted nothing that forbids the message: a listing, heartbeat or rotation of the node, or a lease of the
      LeaseID, with a Seq as high; a proof of the lease with the nonce, or a release of the lease. */
  ghost predicate FreshIn(c: Crypto, s: State, es: seq<Event>, m: Message) {
    match m
    case CapabilityListing(n, _, _, _, _, _, _, q) =>
      forall i :: AcceptedAt(c, s, es, i) && es[i].d.m.CapabilityListing? && es[i].d.m.nodeID == n ==>
        es[i].d.m.seqNo < q
    case Heartbeat(n, _, q) =>
      forall i :: AcceptedAt(c, s, es, i) && es[i].d.m.Heartbeat? && es[i].d.m.nodeID == n ==> es[i].d.m.seqNo < q
    case KeyRotation(n, _, _, _, q) =>
      forall i :: AcceptedAt(c, s, es, i) && es[i].d.m.KeyRotation? && es[i].d.m.nodeID == n ==> es[i].d.m.seqNo < q
    case StorageLease(l, _, _, _, _, _, _, q) =>
      forall i :: AcceptedAt(c, s, es, i) && es[i].d.m.StorageLease? && es[i].d.m.leaseID == l ==> es[i].d.m.seqNo < q
    case ProofResponse(l, _, _, _, nonce, _, _) =>
      && !ReleasedIn(c, s, es, l)
      && forall i :: AcceptedAt(c, s, es, i) && es[i].d.m.ProofResponse? && es[i].d.m.leaseID == l ==>
        es[i].d.m.proofNonce != nonce
    case _ => true
  }

  lemma GateFresh(c: Crypto, s: State, es: seq<Event>, m: Message, g: GateId)
    requires g !in s.gates && CountedAt(m, g)
    ensures Above(After(c, s, es), g, m.seqNo) <==> FreshIn(c, s, es, m)
  {
    hide Accepts, After;
    AboveAllCounted(c, s, es, g, m.seqNo);
    if forall i :: CountedIn(c, s, es, i, g) ==> es[i].d.m.seqNo < m.seqNo {
      forall i | AcceptedAt(c, s, es, i) && CountedAt(es[i].d.m, g) ensures es[i].d.m.seqNo < m.seqNo {
        assert CountedIn(c, s, es, i, g);
      }
    }
  }

  lemma ProofFreshIn(c: Crypto, s: State, es: seq<Event>, m: Message)
    requires NoneAccepted(s) && m.ProofResponse?
    ensures m.leaseID !in After(c, s, es).released && m.proofNonce !in NoncesOf(After(c, s, es), m.leaseID) <==>
      FreshIn(c, s, es, m)
  {
    hide Accepts, After;
    MeterCountsDistinctNonces(c, s, es, m.leaseID);
    ReleasedExactly(c, s, es, m.leaseID);
    if m.proofNonce !in AcceptedNonces(c, s, es, m.leaseID) {
      forall i | AcceptedAt(c, s, es, i) && es[i].d.m.ProofResponse? && es[i].d.m.leaseID == m.leaseID
        ensures es[i].d.m.proofNonce != m.proofNonce
      {
        assert ProofAcceptedAt(c, s, es, i, m.leaseID);
      }
    }
  }

  /** What a coordinator that starts with no accepted messages accepts next is decided by its enrolled keys and the run
      alone: the signature verifies under the coordinator's key for an assignment, a fee declaration or a lease, and
      under the key then trusted for the named node otherwise; a rotation or revocation is in order; and the run
      accepted nothing that forbids the message. */
  lemma AcceptedFromHistory(c: Crypto, s: State, es: seq<Event>, d: Delivery)
    requires NoneAccepted(s)
    requires !d.m.OperatorTransmission? && !d.m.OperatorRotation? && !d.m.ConformanceResponse?
    ensures
      var m, keys := d.m, After(c, s, es).keys;
      Accepts(c, After(c, s, es), d) <==>
        && (if m.Assignment? || m.FeeDeclaration? || m.StorageLease? then Verifies(c, s.coordinatorKey, d)
            else m.nodeID in keys && Verifies(c, keys[m.nodeID], d))
        && (m.KeyRotation? ==> Spelled(m.algo, "ed25519") && |m.newPublicKey| == 32)
        && (m.KeyRevocation? ==> m.revokedPublicKey == keys[m.nodeID])
        && FreshIn(c, s, es, m)
  {
    hide Accepts, After, FreshIn, Above, Verifies, Spelled;
    AcceptsExactly(c, After(c, s, es), d);
    EnrolmentFixed(c, s, es);
    HistoryDecides(c, s, es, d.m);
  }

  lemma HistoryDecides(c: Crypto, s: State, es: seq<Event>, m: Message)
    requires NoneAccepted(s)
    ensures
      var now := After(c, s, es);
      match m
      case CapabilityListing(n, _, _, _, _, _, _, q) => FreshIn(c, s, es, m) <==> Above(now, ListingGate(n), q)
      case Heartbeat(n, _, q) => FreshIn(c, s, es, m) <==> Above(now, HeartbeatGate(n), q)
      case KeyRotation(n, _, _, _, q) => FreshIn(c, s, es, m) <==> Above(now, RotationGate(n), q)
      case StorageLease(l, _, _, _, _, _, _, q) => FreshIn(c, s, es, m) <==> Above(now, RenewalGate(l), q)
      case ProofResponse(l, _, _, _, nonce, _, _) =>
        FreshIn(c, s, es, m) <==> l !in now.released && nonce !in NoncesOf(now, l)
      case _ => FreshIn(c, s, es, m)
  {
    hide Accepts, After, AcceptedAt, NoncesOf;
    if m.CapabilityListing? { GateFresh(c, s, es, m, ListingGate(m.nodeID)); }
    if m.Heartbeat? { GateFresh(c, s, es, m, HeartbeatGate(m.nodeID)); }
    if m.KeyRotation? { GateFresh(c, s, es, m, RotationGate(m.nodeID)); }
    if m.StorageLease? { GateFresh(c, s, es, m, RenewalGate(m.leaseID)); }
    if m.ProofResponse? { ProofFreshIn(c, s, es, m); }
  }

  /** For an honest sender: after any run, what the holder of the coordinator's key signs (an assignment, a fee
      declaration or a lease), or the holder of the node's key (the other core messages), is accepted exactly when the
      run accepted nothing that forbids it; only a rotation to a malformed successor and a revocation of some other key
      are refused besides. */
  lemma HonestDeliveryAccepted(c: Crypto, s: State, es: seq<Event>, m: Message, priv: bytes)
    requires Lawful(c) && NoneAccepted(s)
    requires !m.OperatorTransmission? && !m.OperatorRotation? && !m.ConformanceResponse?
    requires var keys := After(c, s, es).keys;
      if m.Assignment? || m.FeeDeclaration? || m.StorageLease? then c.publicKey(priv) == s.coordinatorKey
      else m.nodeID in keys && keys[m.nodeID] == c.publicKey(priv)
    ensures Accepts(c, After(c, s, es), Delivery(m, c.sign(priv, Canonical(m)), [])) <==>
      && FreshIn(c, s, es, m)
      && (m.KeyRotation? ==> Spelled(m.algo, "ed25519") && |m.newPublicKey| == 32)
      && (m.KeyRevocation? ==> m.revokedPublicKey == c.publicKey(priv))
  {
    hide Accepts, After, FreshIn, Spelled, Canonical;
    AcceptedFromHistory(c, s, es, Delivery(m, c.sign(priv, Canonical(m)), []));
    assert c.verify(c.publicKey(priv), Canonical(m), c.sign(priv, Canonical(m)));
  }

  // ---------------------------------------------------------------- operator registries

  /** In every run (replays, own-index refreshes, rotations authorised by the key being replaced, rotations into empty
      slots, rejects, and all other traffic between) a registry stays in range, pairwise distinct, well-formed and
      single-algorithm. */
  lemma {:induction false} RegistriesStaySound(c: Crypto, s: State, es: seq<Event>, op: Text)
    requires op in s.operators && Sound(c, s.operators[op])
    ensures op in After(c, s, es).operators && Sound(c, After(c, s, es).operators[op])
  {
    hide Step, Rotate, Sound;
    if es != [] {
      var n := |es| - 1;
      RegistriesStaySound(c, s, es[..n], op);
      var before, e := After(c, s, es[..n]), es[n];
      StepRegistry(c, before, e, op);
      if e.Deliver? && e.d.m.OperatorRotation? && e.d.m.operatorID == op {
        RotateKeepsSound(c, before.operators[op], Submission(e.d.m, e.d.sig0, e.d.sig1));
      }
    }
  }

  // ---------------------------------------------------------------- authenticity

  /** The holder of pub signed a message with exactly these bytes before position i. */
  ghost predicate BytesSigned(es: seq<Event>, i: nat, pub: bytes, msg: bytes)
    requires i <= |es|
  {
    exists j :: 0 <= j < i && es[j].Sign? && es[j].pub == pub && Canonical(es[j].m) == msg
  }

  /** The ideal ledger: a delivered signature verifies under a key only if its holder signed exactly those bytes
      before. */
  ghost predicate IdealLedger(c: Crypto, es: seq<Event>) {
    forall i, pub :: 0 <= i < |es| && es[i].Deliver? ==>
      && (c.verify(pub, Canonical(es[i].d.m), es[i].d.sig0) ==> BytesSigned(es, i, pub, Canonical(es[i].d.m)))
      && (c.verify(pub, Canonical(es[i].d.m), es[i].d.sig1) ==> BytesSigned(es, i, pub, Canonical(es[i].d.m)))
  }

  /** The holder of pub signed a message of the same type that shows a verifier the same fields;
      with representable times, the very same message. */
  ghost predicate SignedAs(es: seq<Event>, i: nat, pub: bytes, m: Message)
    requires i <= |es|
  {
    exists j :: 0 <= j < i && es[j].Sign? && es[j].pub == pub && Visible(es[j].m) == Visible(m)
                && (ValidTimes(m) ==> es[j].m == m)
  }

  lemma SignedBytesSignedAs(es: seq<Event>, i: nat, pub: bytes, m: Message)
    requires i <= |es| && BytesSigned(es, i, pub, Canonical(m))
    ensures SignedAs(es, i, pub, m)
  {
    var j :| 0 <= j < i && es[j].Sign? && es[j].pub == pub && Canonical(es[j].m) == Canonical(m);
    CollideExactly(es[j].m, m);
    SkippedTimeSeparation(m, es[j].m);
  }

  /** In every run over an ideal ledger, an accepted message was signed before, as that type and with those fields: an
      assignment, a fee declaration or a lease by the holder of the coordinator's key, any other core message by the
      holder of the key trusted at that moment for the node it names, and an operator message by the holders of two
      different keys registered at that moment. */
  lemma AcceptedMeansSigned(c: Crypto, s: State, es: seq<Event>, i: int)
    requires IdealLedger(c, es)
    ensures AcceptedAt(c, s, es, i) ==>
      var m, now := es[i].d.m, After(c, s, es[..i]);
      if m.Assignment? || m.FeeDeclaration? || m.StorageLease? then SignedAs(es, i, s.coordinatorKey, m)
      else if m.OperatorTransmission? || m.OperatorRotation? || m.ConformanceResponse? then
        && m.operatorID in now.operators
        && var km := now.operators[m.operatorID];
        && m.idx0 in km && m.idx1 in km && km[m.idx0].publicKey != km[m.idx1].publicKey
        && SignedAs(es, i, km[m.idx0].publicKey, m) && SignedAs(es, i, km[m.idx1].publicKey, m)
      else m.nodeID in now.keys && SignedAs(es, i, now.keys[m.nodeID], m)
  {
    if AcceptedAt(c, s, es, i) {
      hide Accepts, After, IdealLedger, SignedAs;
      var d, now := es[i].d, After(c, s, es[..i]);
      AcceptsExactly(c, now, d);
      EnrolmentFixed(c, s, es[..i]);
      if d.m.Assignment? || d.m.FeeDeclaration? || d.m.StorageLease? {
        VerifiedMeansSigned(c, es, i, s.coordinatorKey);
      } else if IsOperatorMessage(d.m) {
        var km := now.operators[d.m.operatorID];
        VerifiedMeansSigned(c, es, i, km[d.m.idx0].publicKey);
        VerifiedMeansSigned(c, es, i, km[d.m.idx1].publicKey);
      } else {
        VerifiedMeansSigned(c, es, i, now.keys[d.m.nodeID]);
      }
    }
  }

  lemma VerifiedMeansSigned(c: Crypto, es: seq<Event>, i: int, pub: bytes)
    requires IdealLedger(c, es) && 0 <= i < |es| && es[i].Deliver?
    ensures
      var d := es[i].d;
      c.verify(pub, Canonical(d.m), d.sig0) || c.verify(pub, Canonical(d.m), d.sig1) ==> SignedAs(es, i, pub, d.m)
  {
    hide Canonical, SignedAs;
    var d := es[i].d;
    if c.verify(pub, Canonical(d.m), d.sig0) || c.verify(pub, Canonical(d.m), d.sig1) {
      SignedBytesSignedAs(es, i, pub, d.m);
    }
  }

  // ---------------------------------------------------------------- custody of keys

  /** The rotation d was accepted at i; the key was the node's trusted key until then, and its holder had signed d. */
  ghost predicate SuccessionAt(c: Crypto, s: State, es: seq<Event>, i: int, node: Text, key: bytes, d: Delivery) {
    && AcceptedAt(c, s, es, i) && es[i].d == d && d.m.KeyRotation? && d.m.nodeID == node
    && var now := After(c, s, es[..i]);
    && node in now.keys && now.keys[node] == key && SignedAs(es, i, key, d.m)
  }

  /** Before position n, every rotation of the list succeeded the key of the one before it, the first of them the
      enrolled key. */
  ghost predicate Lineage(c: Crypto, s: State, es: seq<Event>, n: nat, node: Text, first: bytes, rs: seq<Delivery>) {
    forall k :: 0 <= k < |rs| ==> Succeeded(c, s, es, n, node, KeyBefore(first, rs, k), rs[k])
  }

  ghost predicate Succeeded(c: Crypto, s: State, es: seq<Event>, n: nat, node: Text, key: bytes, d: Delivery) {
    exists i :: 0 <= i < n && SuccessionAt(c, s, es, i, node, key, d)
  }

  lemma LineageSnoc(c: Crypto, s: State, es: seq<Event>, n: nat, node: Text,
                    first: bytes, rs: seq<Delivery>, d: Delivery)
    requires Lineage(c, s, es, n, node, first, rs)
    ensures SuccessionAt(c, s, es, n, node, KeyBefore(first, rs, |rs|), d) ==>
      Lineage(c, s, es, n + 1, node, first, rs + [d])
  {
    hide SuccessionAt;
    forall k | 0 <= k < |rs| + 1 && SuccessionAt(c, s, es, n, node, KeyBefore(first, rs, |rs|), d)
      ensures Succeeded(c, s, es, n + 1, node, KeyBefore(first, rs + [d], k), (rs + [d])[k])
    {
      assert KeyBefore(first, rs + [d], k) == KeyBefore(first, rs, k);
      if k < |rs| { assert Succeeded(c, s, es, n, node, KeyBefore(first, rs, k), rs[k]); }
    }
  }

  lemma LineageLater(c: Crypto, s: State, es: seq<Event>, n: nat, node: Text, first: bytes, rs: seq<Delivery>)
    requires Lineage(c, s, es, n, node, first, rs)
    ensures Lineage(c, s, es, n + 1, node, first, rs)
  {
    hide SuccessionAt;
    forall k | 0 <= k < |rs| ensures Succeeded(c, s, es, n + 1, node, KeyBefore(first, rs, k), rs[k]) {
      assert Succeeded(c, s, es, n, node, KeyBefore(first, rs, k), rs[k]);
    }
  }

  /** At every moment of a run over an ideal ledger, a node's trusted key goes back to the enrolled one through its
      accepted rotations: each was signed, before its delivery, by the holder of the key trusted just before it, which
      is the key the previous rotation named. */
  lemma {:induction false} NodeKeyCustody(c: Crypto, s: State, es: seq<Event>, n: nat, node: Text)
    requires IdealLedger(c, es) && n <= |es|
    ensures
      var rs, now := Rotations(c, s, es[..n], node), After(c, s, es[..n]);
      && (node in s.keys ==> Lineage(c, s, es, n, node, s.keys[node], rs))
      && (node in now.keys ==> node in s.keys && now.keys[node] == KeyBefore(s.keys[node], rs, |rs|))
    decreases n
  {
    hide Step, Accepts, IdealLedger, SignedAs, Lineage;
    if n == 0 {
      NoLineage(c, s, es, node);
    } else {
      var m := n - 1;
      var before, e, rs := After(c, s, es[..m]), es[m], Rotations(c, s, es[..m], node);
      NodeKeyCustody(c, s, es, m, node);
      AfterNext(c, s, es, m);
      assert es[..n][..m] == es[..m];
      StepKey(c, before, e, node);
      if AcceptedAt(c, s, es, m) && e.d.m.KeyRotation? && e.d.m.nodeID == node {
        AcceptedMeansSigned(c, s, es, m);
        assert Rotations(c, s, es[..n], node) == rs + [e.d];
        LineageSnoc(c, s, es, m, node, s.keys[node], rs, e.d);
      } else {
        assert Rotations(c, s, es[..n], node) == rs;
        if node in s.keys { LineageLater(c, s, es, m, node, s.keys[node], rs); }
      }
    }
  }

  lemma NoLineage(c: Crypto, s: State, es: seq<Event>, node: Text)
    ensures forall first :: Lineage(c, s, es, 0, node, first, [])
  {}

  /** The delivery at i installed the record at the index, and the holders of two different keys registered until then
      had both signed it. */
  ghost predicate InstallationAt(c: Crypto, s: State, es: seq<Event>, i: int, op: Text, idx: int64, rec: KeyRecord) {
    && AcceptedAt(c, s, es, i) && es[i].d.m.OperatorRotation? && es[i].d.m.operatorID == op
    && es[i].d.m.keyIndex == idx && rec == KeyRecord(es[i].d.m.newPublicKey, es[i].d.m.algo)
    && var m, operators := es[i].d.m, After(c, s, es[..i]).operators;
    && op in operators
    && var km := operators[op];
    && m.idx0 in km && m.idx1 in km && km[m.idx0].publicKey != km[m.idx1].publicKey
    && SignedAs(es, i, km[m.idx0].publicKey, m) && SignedAs(es, i, km[m.idx1].publicKey, m)
  }

  /** Likewise every key in an operator's registry was enrolled, or installed on the signatures of two different keys'
      holders; and no index ever loses its key. */
  lemma {:induction false} OperatorKeyCustody(c: Crypto, s: State, es: seq<Event>, n: nat, op: Text, idx: int64)
    requires IdealLedger(c, es) && n <= |es| && op in s.operators
    ensures op in After(c, s, es[..n]).operators
    ensures
      var km := After(c, s, es[..n]).operators[op];
      && (idx in s.operators[op] ==> idx in km)
      && (idx in km ==> (idx in s.operators[op] && s.operators[op][idx] == km[idx])
                        || exists i :: 0 <= i < n && InstallationAt(c, s, es, i, op, idx, km[idx]))
    decreases n
  {
    hide Step, IdealLedger, SignedAs, VerifyOperator;
    if n > 0 {
      var before, e := After(c, s, es[..n - 1]), es[n - 1];
      OperatorKeyCustody(c, s, es, n - 1, op, idx);
      AfterNext(c, s, es, n - 1);
      StepRegistry(c, before, e, op);
      if AcceptedAt(c, s, es, n - 1) && e.d.m.OperatorRotation? && e.d.m.operatorID == op && e.d.m.keyIndex == idx {
        AcceptedMeansSigned(c, s, es, n - 1);
        assert InstallationAt(c, s, es, n - 1, op, idx, KeyRecord(e.d.m.newPublicKey, e.d.m.algo));
      }
    }
  }
}
