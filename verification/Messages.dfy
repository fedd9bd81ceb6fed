/** The fifteen signed messages, their tags and their field orders.
    A message value holds what is signed; signatures travel beside it and are never encoded. */
module Messages {
  import opened Bytes
  import opened Instants
  import opened Wire

  type Bytes16 = b: Slice<byte> | |b| == 16 witness seq(16, _ => 0)
  type Bytes32 = b: Slice<byte> | |b| == 32 witness seq(32, _ => 0)

  datatype Printer = Printer(kind: Text, model: Text)
  datatype GPU = GPU(api: Text, model: Text, vramMB: int64)
  datatype Capacity = Capacity(vcpus: int64, memMB: int64, diskMB: int64, storageCommitMB: int64, printQPS: int64)
  datatype OptIn = OptIn(compute: bool, print_: bool, storage: bool)
  datatype Terms = Terms(contributorShareBps: int64, platformFeeBps: int64)
  datatype JobSpec = JobSpec(workload: Text, image: Text, args: Slice<Text>, printerKind: Text, gpuAPI: Text,
                             gpuMinVRAMMB: int64)

  datatype Message =
    | CapabilityListing(nodeID: Text, computeClass: Text, printers: Slice<Printer>, gpus: Slice<GPU>,
                        capacity: Capacity, optIn: OptIn, issuedAt: Instant, seqNo: uint64)
    | Heartbeat(nodeID: Text, sentAt: Instant, seqNo: uint64)
    | Assignment(jobID: Text, nodeID: Text, spec: JobSpec, fee: Terms, offeredAt: Instant)
    | Decline(jobID: Text, nodeID: Text, reason: Text, declinedAt: Instant)
    | JobReport(jobID: Text, nodeID: Text, exitCode: int64, failureCause: Text, tmpfsExhausted: bool,
                startedAt: Instant, finishedAt: Instant)
    | FeeDeclaration(coordinatorID: Text, fee: Terms, effectiveAt: Instant, seqNo: uint64)
    | StorageLease(leaseID: Text, nodeID: Text, shardRef: Bytes32, sizeClass: int64, fee: Terms,
                   issuedAt: Instant, expiresAt: Instant, seqNo: uint64)
    | LeaseDecline(leaseID: Text, nodeID: Text, reason: Text, declinedAt: Instant)
    | LeaseRelease(leaseID: Text, nodeID: Text, releasedAt: Instant)
    | ProofResponse(leaseID: Text, nodeID: Text, offset: int64, length: int64, proofNonce: Bytes16, digest: Bytes32,
                    respondedAt: Instant)
    | KeyRotation(nodeID: Text, newPublicKey: Text, algo: Text, rotatedAt: Instant, seqNo: uint64)
    | KeyRevocation(nodeID: Text, revokedPublicKey: Text, revokedAt: Instant, seqNo: uint64)
    | OperatorTransmission(operatorID: Text, tsUnixNano: int64, nonce: Text, seqNo: uint64, algo: Text,
                           idx0: int64, idx1: int64)
    | OperatorRotation(operatorID: Text, keyIndex: int64, newPublicKey: Text, algo: Text, tsUnixNano: int64,
                       nonce: Text, seqNo: uint64, idx0: int64, idx1: int64)
    | ConformanceResponse(operatorID: Text, challenge: Text, algo: Text, idx0: int64, idx1: int64)

  datatype Kind =
    | KListing | KHeartbeat | KAssignment | KDecline | KJobReport | KFee | KLease | KLeaseDecline
    | KLeaseRelease | KProof | KRotation | KRevocation | KTransmission | KOperatorRotation | KConformance

  function KindOf(m: Message): Kind {
    match m
    case CapabilityListing(_, _, _, _, _, _, _, _) => KListing
    case Heartbeat(_, _, _) => KHeartbeat
    case Assignment(_, _, _, _, _) => KAssignment
    case Decline(_, _, _, _) => KDecline
    case JobReport(_, _, _, _, _, _, _) => KJobReport
    case FeeDeclaration(_, _, _, _) => KFee
    case StorageLease(_, _, _, _, _, _, _, _) => KLease
    case LeaseDecline(_, _, _, _) => KLeaseDecline
    case LeaseRelease(_, _, _) => KLeaseRelease
    case ProofResponse(_, _, _, _, _, _, _) => KProof
    case KeyRotation(_, _, _, _, _) => KRotation
    case KeyRevocation(_, _, _, _) => KRevocation
    case OperatorTransmission(_, _, _, _, _, _, _) => KTransmission
    case OperatorRotation(_, _, _, _, _, _, _, _, _) => KOperatorRotation
    case ConformanceResponse(_, _, _, _, _) => KConformance
  }

  // ---------------------------------------------------------------- domain tags

  function Tag(k: Kind): string {
    match k
    case KListing => "sohocloud/listing/v0"
    case KHeartbeat => "sohocloud/heartbeat/v0"
    case KAssignment => "sohocloud/assignment/v0"
    case KDecline => "sohocloud/decline/v0"
    case KJobReport => "sohocloud/jobreport/v0"
    case KFee => "sohocloud/fee/v0"
    case KLease => "sohocloud/lease/v0"
    case KLeaseDecline => "sohocloud/lease-decline/v0"
    case KLeaseRelease => "sohocloud/lease-release/v0"
    case KProof => "sohocloud/proof/v0"
    case KRotation => "sohocloud/node-rotate/v0"
    case KRevocation => "sohocloud/node-revoke/v0"
    case KTransmission => "sohocloud/operator/v0"
    case KOperatorRotation => "sohocloud/operator-rotate/v0"
    case KConformance => "sohocloud/operator-conformance/v0"
  }

  function TagBytes(k: Kind): (b: Text)
    ensures |b| == |Tag(k)| && forall i :: 0 <= i < |b| ==> b[i] < 128
  {
    Ascii(Tag(k))
  }

  lemma JobTagsAscii(k: Kind)
    requires k.KListing? || k.KHeartbeat? || k.KAssignment? || k.KDecline? || k.KJobReport? || k.KFee?
    ensures forall i :: 0 <= i < |Tag(k)| ==> Tag(k)[i] as int < 128
  {}

  lemma LeaseTagsAscii(k: Kind)
    requires k.KLease? || k.KLeaseDecline? || k.KLeaseRelease? || k.KProof? || k.KRotation? || k.KRevocation?
    ensures forall i :: 0 <= i < |Tag(k)| ==> Tag(k)[i] as int < 128
  {}

  lemma OperatorTagsAscii(k: Kind)
    requires k.KTransmission? || k.KOperatorRotation? || k.KConformance?
    ensures forall i :: 0 <= i < |Tag(k)| ==> Tag(k)[i] as int < 128
  {}

  /** The bytes of a tag are its characters. */
  lemma TagSpelled(k: Kind)
    ensures |TagBytes(k)| == |Tag(k)| && forall i :: 0 <= i < |Tag(k)| ==> TagBytes(k)[i] == Tag(k)[i] as int
  {
    hide Tag;
    if k.KTransmission? || k.KOperatorRotation? || k.KConformance? { OperatorTagsAscii(k); }
    else if k.KLease? || k.KLeaseDecline? || k.KLeaseRelease? || k.KProof? || k.KRotation? || k.KRevocation? {
      LeaseTagsAscii(k);
    } else { JobTagsAscii(k); }
  }

  /** What tells the tags apart: length, the first letter after "sohocloud/", and one letter further on. */
  function Mark(k: Kind): (nat, char, char) {
    match k
    case KListing => (20, 'l', 'g')
    case KHeartbeat => (22, 'h', 'e')
    case KAssignment => (23, 'a', 'm')
    case KDecline => (20, 'd', 'e')
    case KJobReport => (22, 'j', 'o')
    case KFee => (16, 'f', ' ')
    case KLease => (18, 'l', 'v')
    case KLeaseDecline => (26, 'l', 'd')
    case KLeaseRelease => (26, 'l', 'r')
    case KProof => (18, 'p', 'v')
    case KRotation => (24, 'n', 'o')
    case KRevocation => (24, 'n', 'e')
    case KTransmission => (21, 'o', 'o')
    case KOperatorRotation => (28, 'o', 'o')
    case KConformance => (33, 'o', 'o')
  }

  lemma TagHasMark(k: Kind)
    ensures |Tag(k)| == Mark(k).0 && Tag(k)[10] == Mark(k).1
    ensures |Tag(k)| > 16 ==> Tag(k)[16] == Mark(k).2
  {}

  lemma TagsDistinct(k1: Kind, k2: Kind)
    requires TagBytes(k1) == TagBytes(k2)
    ensures k1 == k2
  {
    hide Tag;
    TagHasMark(k1);
    TagHasMark(k2);
    assert TagBytes(k1)[10] == TagBytes(k2)[10];
    assert |Tag(k1)| > 16 ==> TagBytes(k1)[16] == TagBytes(k2)[16];
  }

  // ---------------------------------------------------------------- field orders

  const PRINTER_ROW := [SStr, SStr]
  const GPU_ROW := [SStr, SStr, SWord]

  function Schema(k: Kind): seq<Shape> {
    match k
    case KListing =>
      [SStr, SStr, SRep(PRINTER_ROW), SRep(GPU_ROW), SWord, SWord, SWord, SWord, SWord,
       SBool, SBool, SBool, STime, SWord]
    case KHeartbeat => [SStr, STime, SWord]
    case KAssignment => [SStr, SStr, SStr, SStr, SRep([SStr]), SStr, SStr, SWord, SWord, SWord, STime]
    case KDecline => [SStr, SStr, SStr, STime]
    case KJobReport => [SStr, SStr, SWord, SStr, SBool, STime, STime]
    case KFee => [SStr, SWord, SWord, STime, SWord]
    case KLease => [SStr, SStr, SFixed(32), SWord, SWord, SWord, STime, STime, SWord]
    case KLeaseDecline => [SStr, SStr, SStr, STime]
    case KLeaseRelease => [SStr, SStr, STime]
    case KProof => [SStr, SStr, SWord, SWord, SFixed(16), SFixed(32), STime]
    case KRotation => [SStr, SStr, SStr, STime, SWord]
    case KRevocation => [SStr, SStr, STime, SWord]
    case KTransmission => [SStr, SWord, SStr, SWord, SStr, SWord, SWord]
    case KOperatorRotation => [SStr, SWord, SStr, SStr, SWord, SStr, SWord, SWord, SWord]
    case KConformance => [SStr, SStr, SStr, SWord, SWord]
  }

  function IntV(v: int64): Value {
    VWord(AsUint64(v))
  }

  function PrinterRow(p: Printer): Row {
    Row([VStr(p.kind), VStr(p.model)])
  }

  function GPURow(g: GPU): Row {
    Row([VStr(g.api), VStr(g.model), IntV(g.vramMB)])
  }

  function PrinterRows(ps: Slice<Printer>): (rows: Slice<Row>)
    ensures |rows| == |ps|
    ensures forall i :: 0 <= i < |ps| ==> rows[i] == Row([VStr(ps[i].kind), VStr(ps[i].model)])
  {
    seq(|ps|, i requires 0 <= i < |ps| => PrinterRow(ps[i]))
  }

  function GPURows(gs: Slice<GPU>): (rows: Slice<Row>)
    ensures |rows| == |gs|
    ensures forall i :: 0 <= i < |gs| ==> rows[i] == Row([VStr(gs[i].api), VStr(gs[i].model), IntV(gs[i].vramMB)])
  {
    seq(|gs|, i requires 0 <= i < |gs| => GPURow(gs[i]))
  }

  function ArgRows(args: Slice<Text>): (rows: Slice<Row>)
    ensures |rows| == |args|
    ensures forall i :: 0 <= i < |args| ==> rows[i] == Row([VStr(args[i])])
  {
    seq(|args|, i requires 0 <= i < |args| => Row([VStr(args[i])]))
  }

  /** The fields in canonical order. */
  function Fields(m: Message): seq<Value> {
    match m
    case CapabilityListing(n, c, ps, gs, cap, o, t, q) =>
      [VStr(n), VStr(c), VRep(PrinterRows(ps)), VRep(GPURows(gs)),
       IntV(cap.vcpus), IntV(cap.memMB), IntV(cap.diskMB), IntV(cap.storageCommitMB), IntV(cap.printQPS),
       VBool(o.compute), VBool(o.print_), VBool(o.storage), VTime(t), VWord(q)]
    case Heartbeat(n, t, q) => [VStr(n), VTime(t), VWord(q)]
    case Assignment(j, n, s, f, t) =>
      [VStr(j), VStr(n), VStr(s.workload), VStr(s.image), VRep(ArgRows(s.args)), VStr(s.printerKind), VStr(s.gpuAPI),
       IntV(s.gpuMinVRAMMB), IntV(f.contributorShareBps), IntV(f.platformFeeBps), VTime(t)]
    case Decline(j, n, r, t) => [VStr(j), VStr(n), VStr(r), VTime(t)]
    case JobReport(j, n, x, c, e, s, f) => [VStr(j), VStr(n), IntV(x), VStr(c), VBool(e), VTime(s), VTime(f)]
    case FeeDeclaration(c, f, t, q) =>
      [VStr(c), IntV(f.contributorShareBps), IntV(f.platformFeeBps), VTime(t), VWord(q)]
    case StorageLease(l, n, r, z, f, i, e, q) =>
      [VStr(l), VStr(n), VStr(r), IntV(z), IntV(f.contributorShareBps), IntV(f.platformFeeBps),
       VTime(i), VTime(e), VWord(q)]
    case LeaseDecline(l, n, r, t) => [VStr(l), VStr(n), VStr(r), VTime(t)]
    case LeaseRelease(l, n, t) => [VStr(l), VStr(n), VTime(t)]
    case ProofResponse(l, n, o, g, c, d, t) => [VStr(l), VStr(n), IntV(o), IntV(g), VStr(c), VStr(d), VTime(t)]
    case KeyRotation(n, p, a, t, q) => [VStr(n), VStr(p), VStr(a), VTime(t), VWord(q)]
    case KeyRevocation(n, p, t, q) => [VStr(n), VStr(p), VTime(t), VWord(q)]
    case OperatorTransmission(o, t, c, q, a, i, j) =>
      [VStr(o), IntV(t), VStr(c), VWord(q), VStr(a), IntV(i), IntV(j)]
    case OperatorRotation(o, k, p, a, t, c, q, i, j) =>
      [VStr(o), IntV(k), VStr(p), VStr(a), IntV(t), VStr(c), VWord(q), IntV(i), IntV(j)]
    case ConformanceResponse(o, c, a, i, j) => [VStr(o), VStr(c), VStr(a), IntV(i), IntV(j)]
  }

  /** The bytes a signature is taken over. */
  function Canonical(m: Message): bytes {
    Encode(VStr(TagBytes(KindOf(m)))) + EncodeAll(Fields(m))
  }

  /** Every time field is representable. */
  ghost predicate ValidTimes(m: Message) {
    forall i :: 0 <= i < |Fields(m)| && Fields(m)[i].VTime? ==> ValidTime(Fields(m)[i].t)
  }

  lemma {:induction false} FitRowsAt(rows: seq<Row>, row: seq<Shape>)
    requires forall i :: 0 <= i < |rows| ==> FitAll(rows[i].fields, row)
    ensures FitRows(rows, row)
  {
    if rows != [] { FitRowsAt(rows[1..], row); }
  }

  lemma PrinterRowsFit(ps: Slice<Printer>)
    ensures FitRows(PrinterRows(ps), PRINTER_ROW)
  {
    forall i | 0 <= i < |ps| ensures FitAll(PrinterRow(ps[i]).fields, PRINTER_ROW) {
      FitAllAt(PrinterRow(ps[i]).fields, PRINTER_ROW);
    }
    FitRowsAt(PrinterRows(ps), PRINTER_ROW);
  }

  lemma GPURowsFit(gs: Slice<GPU>)
    ensures FitRows(GPURows(gs), GPU_ROW)
  {
    forall i | 0 <= i < |gs| ensures FitAll(GPURow(gs[i]).fields, GPU_ROW) {
      FitAllAt(GPURow(gs[i]).fields, GPU_ROW);
    }
    FitRowsAt(GPURows(gs), GPU_ROW);
  }

  lemma ArgRowsFit(args: Slice<Text>)
    ensures FitRows(ArgRows(args), [SStr])
  {
    forall i | 0 <= i < |args| ensures FitAll([VStr(args[i])], [SStr]) {
      FitAllAt([VStr(args[i])], [SStr]);
    }
    FitRowsAt(ArgRows(args), [SStr]);
  }

  /** The value has the shape, times aside. */
  predicate Shaped(v: Value, sh: Shape) {
    if sh.STime? then v.VTime? else !v.VTime? && Fits(v, sh)
  }

  predicate AllShaped(vs: seq<Value>, shs: seq<Shape>) {
    |vs| == |shs| && forall i :: 0 <= i < |vs| ==> Shaped(vs[i], shs[i])
  }

  lemma ListingShaped(m: Message)
    requires m.CapabilityListing?
    ensures AllShaped(Fields(m), Schema(KListing))
  {
    hide PrinterRows, GPURows, FitRows, AsUint64;
    PrinterRowsFit(m.printers);
    GPURowsFit(m.gpus);
    forall i | 0 <= i < |Fields(m)| ensures Shaped(Fields(m)[i], Schema(KListing)[i]) {
      if i < 5 {} else if i < 10 {} else {}
    }
  }

  lemma CoreShaped(m: Message)
    requires !m.CapabilityListing? && !m.OperatorTransmission? && !m.OperatorRotation? && !m.ConformanceResponse?
    ensures AllShaped(Fields(m), Schema(KindOf(m)))
  {
    hide ArgRows, FitRows, AsUint64;
    if m.Assignment? { ArgRowsFit(m.spec.args); }
  }

  lemma FieldsShaped(m: Message)
    ensures AllShaped(Fields(m), Schema(KindOf(m)))
  {
    if m.CapabilityListing? {
      ListingShaped(m);
    } else if !m.OperatorTransmission? && !m.OperatorRotation? && !m.ConformanceResponse? {
      CoreShaped(m);
    }
  }

  /** A message fits its type's schema exactly when its times are representable. */
  lemma FieldsFit(m: Message)
    ensures ValidTimes(m) <==> FitAll(Fields(m), Schema(KindOf(m)))
  {
    FieldsShaped(m);
    FitAllAt(Fields(m), Schema(KindOf(m)));
    forall i | 0 <= i < |Fields(m)|
      ensures Fits(Fields(m)[i], Schema(KindOf(m))[i]) <==> (Fields(m)[i].VTime? ==> ValidTime(Fields(m)[i].t))
    {
      assert Shaped(Fields(m)[i], Schema(KindOf(m))[i]);
    }
  }
}
