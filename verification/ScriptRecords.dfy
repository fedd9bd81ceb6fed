/** What the Python encoders are given (testdata/reproduce_spec.py): a row of a message's fields, with texts as code
    points and integers of any size; and the Go message such a row stands for. */
module ScriptRecords {
  import opened Bytes
  import opened Instants
  import opened Wire
  import opened Messages
  import opened Decoder
  import Utf8

  /** A Python str; like every Python object, its UTF-8 form is shorter than 2^63 bytes. */
  type PyText = s: seq<Utf8.CodePoint> | |Utf8.Encode(s)| < TWO_63 witness []

  datatype PyPrinter = PyPrinter(kind: PyText, model: PyText)
  datatype PyGPU = PyGPU(api: PyText, model: PyText, vramMB: int)
  datatype PyCapacity = PyCapacity(vcpus: int, memMB: int, diskMB: int, storageCommitMB: int, printQPS: int)
  datatype PyTerms = PyTerms(contributorShareBps: int, platformFeeBps: int)
  datatype PySpec = PySpec(workload: PyText, image: PyText, args: Slice<PyText>, printerKind: PyText, gpuAPI: PyText,
                           gpuMinVRAMMB: int)

  /** A field, tagged with the encoder it goes through. */
  datatype Field =
    | PText(s: PyText) | PBytes(p: Slice<byte>) | PBool(v: bool)
    | PInt(n: int) | PUint(n: int) | PTime(n: int)
    | PIndex(n: int)                                    // through enc_uint64; an int in Go
    | PPrinters(ps: Slice<PyPrinter>) | PGPUs(gs: Slice<PyGPU>) | PArgs(args: Slice<PyText>)

  /** A row: its type, and its fields in the order the script encodes them. */
  datatype PyRow = PyRow(kind: Kind, fields: seq<Field>)

  predicate InInt64(n: int) {
    -TWO_63 <= n < TWO_63
  }

  predicate InUint64(n: int) {
    0 <= n < TWO_64
  }

  /** No text in the field holds a lone surrogate. */
  predicate TextsEncodable(v: Field) {
    match v
    case PText(s) => Utf8.Encodable(s)
    case PPrinters(ps) => forall i :: 0 <= i < |ps| ==> Utf8.Encodable(ps[i].kind) && Utf8.Encodable(ps[i].model)
    case PGPUs(gs) => forall i :: 0 <= i < |gs| ==> Utf8.Encodable(gs[i].api) && Utf8.Encodable(gs[i].model)
    case PArgs(args) => forall i :: 0 <= i < |args| ==> Utf8.Encodable(args[i])
    case _ => true
  }

  /** Every number in the field has the width its encoder asks for. */
  predicate NumbersFit(v: Field) {
    match v
    case PInt(n) => InInt64(n)
    case PTime(n) => InInt64(n)
    case PUint(n) => InUint64(n)
    case PIndex(n) => InUint64(n)
    case PGPUs(gs) => forall i :: 0 <= i < |gs| ==> InInt64(gs[i].vramMB)
    case _ => true
  }

  /** The row's encoder raises no ValueError. */
  predicate Representable(r: PyRow) {
    forall v :: v in r.fields ==> TextsEncodable(v) && NumbersFit(v)
  }

  // ---------------------------------------------------------------- the Go message of a row

  function GoText(s: PyText): Text {
    Utf8.Encode(s)
  }

  function GoInt(n: int): int64 {
    if InInt64(n) then n else 0
  }

  function GoUint(n: int): uint64 {
    if InUint64(n) then n else 0
  }

  function GoPrinters(ps: Slice<PyPrinter>): (r: Slice<Printer>)
    ensures |r| == |ps|
  {
    seq(|ps|, i requires 0 <= i < |ps| => Printer(GoText(ps[i].kind), GoText(ps[i].model)))
  }

  function GoGPUs(gs: Slice<PyGPU>): (r: Slice<GPU>)
    ensures |r| == |gs|
  {
    seq(|gs|, i requires 0 <= i < |gs| => GPU(GoText(gs[i].api), GoText(gs[i].model), GoInt(gs[i].vramMB)))
  }

  function GoArgs(args: Slice<PyText>): (r: Slice<Text>)
    ensures |r| == |args|
  {
    seq(|args|, i requires 0 <= i < |args| => GoText(args[i]))
  }

  function GoIndex(n: int): int64 {
    AsInt64(GoUint(n))
  }

  function GoTime(n: int): Instant {
    UnixOfNanos(GoInt(n))
  }

  function GoCapacity(c: PyCapacity): Capacity {
    Capacity(GoInt(c.vcpus), GoInt(c.memMB), GoInt(c.diskMB), GoInt(c.storageCommitMB), GoInt(c.printQPS))
  }

  function GoTerms(f: PyTerms): Terms {
    Terms(GoInt(f.contributorShareBps), GoInt(f.platformFeeBps))
  }

  function GoSpec(s: PySpec): JobSpec {
    JobSpec(GoText(s.workload), GoText(s.image), GoArgs(s.args), GoText(s.printerKind), GoText(s.gpuAPI),
            GoInt(s.gpuMinVRAMMB))
  }

  /** What Go writes for the field; an index that is no int in Go is the int whose conversion to uint64 is the index. */
  function GoValue(v: Field): Value {
    match v
    case PText(s) => VStr(GoText(s))
    case PBytes(p) => VStr(p)
    case PBool(b) => VBool(b)
    case PInt(n) => IntV(GoInt(n))
    case PUint(n) => VWord(GoUint(n))
    case PTime(n) => VTime(GoTime(n))
    case PIndex(n) => IntV(GoIndex(n))
    case PPrinters(ps) => VRep(PrinterRows(GoPrinters(ps)))
    case PGPUs(gs) => VRep(GPURows(GoGPUs(gs)))
    case PArgs(args) => VRep(ArgRows(GoArgs(args)))
  }

  function GoValues(vs: seq<Field>): (ws: seq<Value>)
    ensures |ws| == |vs|
  {
    seq(|vs|, i requires 0 <= i < |vs| => GoValue(vs[i]))
  }

  /** The encoder a schema's shape asks for. */
  predicate FieldShaped(v: Field, sh: Shape) {
    match v
    case PText(_) => sh == SStr
    case PBytes(p) => sh == SStr || sh == SFixed(|p|)
    case PBool(_) => sh == SBool
    case PTime(_) => sh == STime
    case PPrinters(_) => sh == SRep(PRINTER_ROW)
    case PGPUs(_) => sh == SRep(GPU_ROW)
    case PArgs(_) => sh == SRep([SStr])
    case _ => sh == SWord
  }

  /** The fields come in the order and through the encoders the message type asks for. */
  predicate Ordered(r: PyRow) {
    |r.fields| == |Schema(r.kind)| && forall i :: 0 <= i < |r.fields| ==> FieldShaped(r.fields[i], Schema(r.kind)[i])
  }

  function GoOf(r: PyRow): Message
    requires Ordered(r)
  {
    Build(r.kind, GoValues(r.fields))
  }

  /** Every row stands for a Go message with valid times, whose fields are the row's. */
  lemma GoOfFields(r: PyRow)
    requires Ordered(r)
    ensures KindOf(GoOf(r)) == r.kind && Fields(GoOf(r)) == GoValues(r.fields) && ValidTimes(GoOf(r))
  {
    hide Schema, Build, Fields, KindOf, PrinterRows, GPURows, ArgRows;
    forall i | 0 <= i < |r.fields| ensures Shaped(GoValue(r.fields[i]), Schema(r.kind)[i]) {
      assert FieldShaped(r.fields[i], Schema(r.kind)[i]);
      ValueShaped(r.fields[i], Schema(r.kind)[i]);
    }
    FieldsBuild(r.kind, GoValues(r.fields));
    forall i | 0 <= i < |r.fields| && GoValue(r.fields[i]).VTime? ensures ValidTime(GoValue(r.fields[i]).t) {
      UnixNanoBijective(GoValue(r.fields[i]).t, GoInt(r.fields[i].n));
    }
  }

  /** The row's fields are those of the message, in the message's order. */
  predicate Means(r: PyRow, m: Message) {
    r.kind == KindOf(m) && GoValues(r.fields) == Fields(m)
  }

  lemma MeantIsGo(r: PyRow, m: Message)
    requires Ordered(r) && Means(r, m)
    ensures GoOf(r) == m
  {
    hide Fields, Build, Schema, KindOf, GoValue;
    FieldsShaped(m);
    BuildFields(m);
  }

  lemma ValueShaped(v: Field, sh: Shape)
    requires FieldShaped(v, sh)
    ensures Shaped(GoValue(v), sh)
  {
    match v
    case PPrinters(ps) => PrinterRowsFit(GoPrinters(ps));
    case PGPUs(gs) => GPURowsFit(GoGPUs(gs));
    case PArgs(args) => ArgRowsFit(GoArgs(args));
    case _ =>
  }

  // ---------------------------------------------------------------- rows and the messages they describe

  /** The field and Go's value state the same: texts by their UTF-8, numbers as numbers, times in nanoseconds. */
  predicate States(v: Field, w: Value) {
    match v
    case PInt(n) => w.VWord? && n == AsInt64(w.u)
    case PIndex(n) => w.VWord? && n == AsInt64(w.u)
    case PUint(n) => w.VWord? && n == w.u
    case PTime(n) => w.VTime? && n == Nanos(w.t)
    case PGPUs(gs) => NumbersFit(v) && w == GoValue(v)
    case _ => w == GoValue(v)
  }

  predicate Describes(r: PyRow, m: Message) {
    && Ordered(r) && KindOf(m) == r.kind && |Fields(m)| == |r.fields|
    && forall i :: 0 <= i < |Fields(m)| ==> States(r.fields[i], Fields(m)[i])
  }

  lemma StatesExactly(v: Field, w: Value)
    requires States(v, w)
    ensures NumbersFit(v) <==> (w.VTime? ==> ValidTime(w.t)) && (v.PIndex? ==> v.n >= 0)
    ensures NumbersFit(v) ==> GoValue(v) == w
  {
    if v.PTime? {
      ValidTimeExact(w.t);
      if ValidTime(w.t) {
        UnixNanoExact(w.t);
        UnixNanoBijective(w.t, v.n);
      }
    }
  }

  lemma NumbersExactly(r: PyRow, m: Message)
    requires Describes(r, m)
    ensures (forall v :: v in r.fields ==> NumbersFit(v)) <==>
      ValidTimes(m) && forall v :: v in r.fields && v.PIndex? ==> v.n >= 0
  {
    hide Fields, KindOf, States, NumbersFit, ValidTime;
    var vs, ws := r.fields, Fields(m);
    forall i | 0 <= i < |vs|
      ensures NumbersFit(vs[i]) <==> (ws[i].VTime? ==> ValidTime(ws[i].t)) && (vs[i].PIndex? ==> vs[i].n >= 0)
    {
      StatesExactly(vs[i], ws[i]);
    }
    if forall v :: v in vs ==> NumbersFit(v) {
      forall i | 0 <= i < |ws| && ws[i].VTime? ensures ValidTime(ws[i].t) { assert vs[i] in vs; }
      forall v | v in vs && v.PIndex? ensures v.n >= 0 {
        var i :| 0 <= i < |vs| && vs[i] == v;
      }
    }
    if ValidTimes(m) && forall v :: v in vs && v.PIndex? ==> v.n >= 0 {
      forall v | v in vs ensures NumbersFit(v) {
        var i :| 0 <= i < |vs| && vs[i] == v;
      }
    }
  }

  lemma StandsFor(r: PyRow, m: Message)
    requires Describes(r, m) && forall v :: v in r.fields ==> NumbersFit(v)
    ensures GoOf(r) == m
  {
    hide Fields, KindOf, Build, Schema, States, GoValue, NumbersFit;
    var vs, ws := r.fields, Fields(m);
    forall i | 0 <= i < |vs| ensures GoValues(vs)[i] == ws[i] {
      assert vs[i] in vs;
      StatesExactly(vs[i], ws[i]);
    }
    assert GoValues(vs) == ws;
    FieldsShaped(m);
    BuildFields(m);
  }

  /** For any message and a row that describes it, the row encodes exactly when its texts have a UTF-8 form, the
      message's times are valid and its indices are not negative; and it then stands for that very message. */
  lemma DescribedExactly(r: PyRow, m: Message)
    requires Describes(r, m)
    ensures Representable(r) <==>
      && (forall v :: v in r.fields ==> TextsEncodable(v))
      && ValidTimes(m)
      && (forall v :: v in r.fields && v.PIndex? ==> v.n >= 0)
    ensures Representable(r) ==> GoOf(r) == m
  {
    hide Fields, KindOf, Build, Describes, GoOf, TextsEncodable, NumbersFit, ValidTimes;
    NumbersExactly(r, m);
    if Representable(r) { StandsFor(r, m); }
  }

  lemma StatesOwnValue(v: Field)
    requires NumbersFit(v)
    ensures States(v, GoValue(v)) <==> (v.PIndex? ==> v.n < TWO_63)
  {
    hide PrinterRows, GPURows, ArgRows, GoText;
  }

  /** A row whose numbers have their widths states the same as the Go message it stands for, except where an index is no
      Go int. */
  lemma DescribesOwnMessage(r: PyRow)
    requires Ordered(r) && forall v :: v in r.fields ==> NumbersFit(v)
    ensures Describes(r, GoOf(r)) <==> forall v :: v in r.fields && v.PIndex? ==> v.n < TWO_63
  {
    hide Schema, Build, Fields, KindOf, GoValue, States, NumbersFit, GoOf;
    GoOfFields(r);
    var vs := r.fields;
    forall i | 0 <= i < |vs| ensures States(vs[i], GoValue(vs[i])) <==> (vs[i].PIndex? ==> vs[i].n < TWO_63) {
      assert vs[i] in vs;
      StatesOwnValue(vs[i]);
    }
    if Describes(r, GoOf(r)) {
      forall v | v in vs && v.PIndex? ensures v.n < TWO_63 {
        var i :| 0 <= i < |vs| && vs[i] == v;
        assert States(vs[i], Fields(GoOf(r))[i]);
      }
    }
    if forall v :: v in vs && v.PIndex? ==> v.n < TWO_63 {
      forall i | 0 <= i < |vs| ensures States(vs[i], Fields(GoOf(r))[i]) { assert vs[i] in vs; }
    }
  }

  // ---------------------------------------------------------------- the fifteen rows

  // One row per message type, with its fields in the order the script encodes them; times are nanoseconds.

  datatype CapabilityListingRow = CapabilityListingRow(nodeID: PyText, computeClass: PyText,
    printers: Slice<PyPrinter>, gpus: Slice<PyGPU>, capacity: PyCapacity, optIn: OptIn, issuedAt: int, seqNo: int) {
    function Go(): Message {
      CapabilityListing(GoText(nodeID), GoText(computeClass), GoPrinters(printers), GoGPUs(gpus),
                        GoCapacity(capacity), optIn, GoTime(issuedAt), GoUint(seqNo))
    }

    function AsRow(): (r: PyRow)
      ensures Ordered(r)
    {
      var r := PyRow(KListing,
        [PText(nodeID), PText(computeClass), PPrinters(printers), PGPUs(gpus), PInt(capacity.vcpus),
         PInt(capacity.memMB), PInt(capacity.diskMB), PInt(capacity.storageCommitMB), PInt(capacity.printQPS),
         PBool(optIn.compute), PBool(optIn.print_), PBool(optIn.storage), PTime(issuedAt), PUint(seqNo)]);
      assert Ordered(r) by {
        forall i | 0 <= i < |r.fields| ensures FieldShaped(r.fields[i], Schema(KListing)[i]) {
          if i < 7 {} else {}
        }
      }
      r
    }

    /** Each field stands where the message has it. */
    lemma Meant()
      ensures Means(AsRow(), Go())
    {
      hide Ordered, GoText, GoInt, GoUint, GoTime, IntV, AsInt64, PrinterRows, GPURows, ArgRows;
      forall i | 0 <= i < 14 ensures GoValues(AsRow().fields)[i] == Fields(Go())[i] {
        if i < 7 {} else {}
      }
    }
  }

  datatype HeartbeatRow = HeartbeatRow(nodeID: PyText, sentAt: int, seqNo: int) {
    function Go(): Message {
      Heartbeat(GoText(nodeID), GoTime(sentAt), GoUint(seqNo))
    }

    function AsRow(): (r: PyRow)
      ensures Ordered(r)
    {
      PyRow(KHeartbeat, [PText(nodeID), PTime(sentAt), PUint(seqNo)])
    }

    /** Each field stands where the message has it. */
    lemma Meant()
      ensures Means(AsRow(), Go())
    {
      hide Ordered, GoText, GoInt, GoUint, GoTime, IntV, AsInt64, PrinterRows, GPURows, ArgRows;
    }
  }

  datatype AssignmentRow = AssignmentRow(jobID: PyText, nodeID: PyText, spec: PySpec, fee: PyTerms, offeredAt: int) {
    function Go(): Message {
      Assignment(GoText(jobID), GoText(nodeID), GoSpec(spec), GoTerms(fee), GoTime(offeredAt))
    }

    function AsRow(): (r: PyRow)
      ensures Ordered(r)
    {
      PyRow(KAssignment, [PText(jobID), PText(nodeID), PText(spec.workload), PText(spec.image), PArgs(spec.args),
                          PText(spec.printerKind), PText(spec.gpuAPI), PInt(spec.gpuMinVRAMMB),
                          PInt(fee.contributorShareBps), PInt(fee.platformFeeBps), PTime(offeredAt)])
    }

    /** Each field stands where the message has it. */
    lemma Meant()
      ensures Means(AsRow(), Go())
    {
      hide Ordered, GoText, GoInt, GoUint, GoTime, IntV, AsInt64, PrinterRows, GPURows, ArgRows;
    }
  }

  datatype DeclineRow = DeclineRow(jobID: PyText, nodeID: PyText, reason: PyText, declinedAt: int) {
    function Go(): Message {
      Decline(GoText(jobID), GoText(nodeID), GoText(reason), GoTime(declinedAt))
    }

    function AsRow(): (r: PyRow)
      ensures Ordered(r)
    {
      PyRow(KDecline, [PText(jobID), PText(nodeID), PText(reason), PTime(declinedAt)])
    }

    /** Each field stands where the message has it. */
    lemma Meant()
      ensures Means(AsRow(), Go())
    {
      hide Ordered, GoText, GoInt, GoUint, GoTime, IntV, AsInt64, PrinterRows, GPURows, ArgRows;
    }
  }

  datatype JobReportRow = JobReportRow(jobID: PyText, nodeID: PyText, exitCode: int, failureCause: PyText,
                                       tmpfsExhausted: bool, startedAt: int, finishedAt: int) {
    function Go(): Message {
      JobReport(GoText(jobID), GoText(nodeID), GoInt(exitCode), GoText(failureCause), tmpfsExhausted,
                GoTime(startedAt), GoTime(finishedAt))
    }

    function AsRow(): (r: PyRow)
      ensures Ordered(r)
    {
      PyRow(KJobReport, [PText(jobID), PText(nodeID), PInt(exitCode), PText(failureCause), PBool(tmpfsExhausted),
                         PTime(startedAt), PTime(finishedAt)])
    }

    /** Each field stands where the message has it. */
    lemma Meant()
      ensures Means(AsRow(), Go())
    {
      hide Ordered, GoText, GoInt, GoUint, GoTime, IntV, AsInt64, PrinterRows, GPURows, ArgRows;
    }
  }

  datatype FeeDeclarationRow = FeeDeclarationRow(coordinatorID: PyText, fee: PyTerms, effectiveAt: int, seqNo: int) {
    function Go(): Message {
      FeeDeclaration(GoText(coordinatorID), GoTerms(fee), GoTime(effectiveAt), GoUint(seqNo))
    }

    function AsRow(): (r: PyRow)
      ensures Ordered(r)
    {
      PyRow(KFee, [PText(coordinatorID), PInt(fee.contributorShareBps), PInt(fee.platformFeeBps), PTime(effectiveAt),
                   PUint(seqNo)])
    }

    /** Each field stands where the message has it. */
    lemma Meant()
      ensures Means(AsRow(), Go())
    {
      hide Ordered, GoText, GoInt, GoUint, GoTime, IntV, AsInt64, PrinterRows, GPURows, ArgRows;
    }
  }

  datatype StorageLeaseRow = StorageLeaseRow(leaseID: PyText, nodeID: PyText, shardRef: Bytes32, sizeClass: int,
                                             fee: PyTerms, issuedAt: int, expiresAt: int, seqNo: int) {
    function Go(): Message {
      StorageLease(GoText(leaseID), GoText(nodeID), shardRef, GoInt(sizeClass), GoTerms(fee), GoTime(issuedAt),
                   GoTime(expiresAt), GoUint(seqNo))
    }

    function AsRow(): (r: PyRow)
      ensures Ordered(r)
    {
      PyRow(KLease, [PText(leaseID), PText(nodeID), PBytes(shardRef), PInt(sizeClass), PInt(fee.contributorShareBps),
                     PInt(fee.platformFeeBps), PTime(issuedAt), PTime(expiresAt), PUint(seqNo)])
    }

    /** Each field stands where the message has it. */
    lemma Meant()
      ensures Means(AsRow(), Go())
    {
      hide Ordered, GoText, GoInt, GoUint, GoTime, IntV, AsInt64, PrinterRows, GPURows, ArgRows;
    }
  }

  datatype LeaseDeclineRow = LeaseDeclineRow(leaseID: PyText, nodeID: PyText, reason: PyText, declinedAt: int) {
    function Go(): Message {
      LeaseDecline(GoText(leaseID), GoText(nodeID), GoText(reason), GoTime(declinedAt))
    }

    function AsRow(): (r: PyRow)
      ensures Ordered(r)
    {
      PyRow(KLeaseDecline, [PText(leaseID), PText(nodeID), PText(reason), PTime(declinedAt)])
    }

    /** Each field stands where the message has it. */
    lemma Meant()
      ensures Means(AsRow(), Go())
    {
      hide Ordered, GoText, GoInt, GoUint, GoTime, IntV, AsInt64, PrinterRows, GPURows, ArgRows;
    }
  }

  datatype LeaseReleaseRow = LeaseReleaseRow(leaseID: PyText, nodeID: PyText, releasedAt: int) {
    function Go(): Message {
      LeaseRelease(GoText(leaseID), GoText(nodeID), GoTime(releasedAt))
    }

    function AsRow(): (r: PyRow)
      ensures Ordered(r)
    {
      PyRow(KLeaseRelease, [PText(leaseID), PText(nodeID), PTime(releasedAt)])
    }

    /** Each field stands where the message has it. */
    lemma Meant()
      ensures Means(AsRow(), Go())
    {
      hide Ordered, GoText, GoInt, GoUint, GoTime, IntV, AsInt64, PrinterRows, GPURows, ArgRows;
    }
  }

  datatype ProofResponseRow = ProofResponseRow(leaseID: PyText, nodeID: PyText, offset: int, length: int,
                                               proofNonce: Bytes16, digest: Bytes32, respondedAt: int) {
    function Go(): Message {
      ProofResponse(GoText(leaseID), GoText(nodeID), GoInt(offset), GoInt(length), proofNonce, digest,
                    GoTime(respondedAt))
    }

    function AsRow(): (r: PyRow)
      ensures Ordered(r)
    {
      PyRow(KProof, [PText(leaseID), PText(nodeID), PInt(offset), PInt(length), PBytes(proofNonce), PBytes(digest),
                     PTime(respondedAt)])
    }

    /** Each field stands where the message has it. */
    lemma Meant()
      ensures Means(AsRow(), Go())
    {
      hide Ordered, GoText, GoInt, GoUint, GoTime, IntV, AsInt64, PrinterRows, GPURows, ArgRows;
    }
  }

  datatype KeyRotationRow = KeyRotationRow(nodeID: PyText, newPublicKey: Slice<byte>, algo: PyText, rotatedAt: int,
                                           seqNo: int) {
    function Go(): Message {
      KeyRotation(GoText(nodeID), newPublicKey, GoText(algo), GoTime(rotatedAt), GoUint(seqNo))
    }

    function AsRow(): (r: PyRow)
      ensures Ordered(r)
    {
      PyRow(KRotation, [PText(nodeID), PBytes(newPublicKey), PText(algo), PTime(rotatedAt), PUint(seqNo)])
    }

    /** Each field stands where the message has it. */
    lemma Meant()
      ensures Means(AsRow(), Go())
    {
      hide Ordered, GoText, GoInt, GoUint, GoTime, IntV, AsInt64, PrinterRows, GPURows, ArgRows;
    }
  }

  datatype KeyRevocationRow = KeyRevocationRow(nodeID: PyText, revokedPublicKey: Slice<byte>, revokedAt: int,
                                               seqNo: int) {
    function Go(): Message {
      KeyRevocation(GoText(nodeID), revokedPublicKey, GoTime(revokedAt), GoUint(seqNo))
    }

    function AsRow(): (r: PyRow)
      ensures Ordered(r)
    {
      PyRow(KRevocation, [PText(nodeID), PBytes(revokedPublicKey), PTime(revokedAt), PUint(seqNo)])
    }

    /** Each field stands where the message has it. */
    lemma Meant()
      ensures Means(AsRow(), Go())
    {
      hide Ordered, GoText, GoInt, GoUint, GoTime, IntV, AsInt64, PrinterRows, GPURows, ArgRows;
    }
  }

  datatype OperatorTransmissionRow = OperatorTransmissionRow(operatorID: PyText, tsUnixNano: int,
    nonce: Slice<byte>, seqNo: int, algo: PyText, idx0: int, idx1: int) {
    function Go(): Message {
      OperatorTransmission(GoText(operatorID), GoInt(tsUnixNano), nonce, GoUint(seqNo), GoText(algo), GoIndex(idx0),
                           GoIndex(idx1))
    }

    function AsRow(): (r: PyRow)
      ensures Ordered(r)
    {
      PyRow(KTransmission, [PText(operatorID), PInt(tsUnixNano), PBytes(nonce), PUint(seqNo), PText(algo),
                            PIndex(idx0), PIndex(idx1)])
    }

    /** Each field stands where the message has it. */
    lemma Meant()
      ensures Means(AsRow(), Go())
    {
      hide Ordered, GoText, GoInt, GoUint, GoTime, IntV, AsInt64, PrinterRows, GPURows, ArgRows;
    }
  }

  datatype OperatorRotationRow = OperatorRotationRow(operatorID: PyText, keyIndex: int, newPublicKey: Slice<byte>,
    algo: PyText, tsUnixNano: int, nonce: Slice<byte>, seqNo: int, idx0: int, idx1: int) {
    function Go(): Message {
      OperatorRotation(GoText(operatorID), GoIndex(keyIndex), newPublicKey, GoText(algo), GoInt(tsUnixNano), nonce,
                       GoUint(seqNo), GoIndex(idx0), GoIndex(idx1))
    }

    function AsRow(): (r: PyRow)
      ensures Ordered(r)
    {
      PyRow(KOperatorRotation, [PText(operatorID), PIndex(keyIndex), PBytes(newPublicKey), PText(algo),
                                PInt(tsUnixNano), PBytes(nonce), PUint(seqNo), PIndex(idx0), PIndex(idx1)])
    }

    /** Each field stands where the message has it. */
    lemma Meant()
      ensures Means(AsRow(), Go())
    {
      hide Ordered, GoText, GoInt, GoUint, GoTime, IntV, AsInt64, PrinterRows, GPURows, ArgRows;
    }
  }

  datatype ConformanceResponseRow = ConformanceResponseRow(operatorID: PyText, challenge: Slice<byte>,
    algo: PyText, idx0: int, idx1: int) {
    function Go(): Message {
      ConformanceResponse(GoText(operatorID), challenge, GoText(algo), GoIndex(idx0), GoIndex(idx1))
    }

    function AsRow(): (r: PyRow)
      ensures Ordered(r)
    {
      PyRow(KConformance, [PText(operatorID), PBytes(challenge), PText(algo), PIndex(idx0), PIndex(idx1)])
    }

    /** Each field stands where the message has it. */
    lemma Meant()
      ensures Means(AsRow(), Go())
    {
      hide Ordered, GoText, GoInt, GoUint, GoTime, IntV, AsInt64, PrinterRows, GPURows, ArgRows;
    }
  }
}
