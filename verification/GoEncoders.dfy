/** The fifteen CanonicalBytes methods, each driving a Buffer field by field.
    Their second result is the error the Buffer latched, which the source drops. */
module GoEncoders {
  import opened Bytes
  import opened Wire
  import opened Messages
  import opened Canon
  import Decoder

  /** A Buffer that wrote the tag and then the fields holds the canonical bytes, and its error tells the times apart. */
  lemma WroteMessage(m: Message)
    ensures EncodeAll([VStr(TagBytes(KindOf(m)))] + Fields(m)) == Canonical(m)
    ensures Skips([VStr(TagBytes(KindOf(m)))] + Fields(m)) <==> !ValidTimes(m)
  {
    hide Fields, Encode, TagBytes;
    var fs, tag := Fields(m), [VStr(TagBytes(KindOf(m)))];
    assert (tag + fs)[1..] == fs;
    forall i | 0 <= i < |fs| ensures (tag + fs)[i + 1] == fs[i] {}
    if Skips(tag + fs) {
      var i :| 0 <= i < |tag + fs| && (tag + fs)[i].VTime? && !Instants.ValidTime((tag + fs)[i].t);
      assert fs[i - 1] == (tag + fs)[i];
    }
  }

  /** Appending a listing's values one group at a time yields its fields in order. */
  lemma CapabilityListingInOrder(m: Message)
    requires m.CapabilityListing?
    ensures
      var tag, c, o := [VStr(TagBytes(KListing))], m.capacity, m.optIn;
      tag + [VStr(m.nodeID)] + [VStr(m.computeClass)] + [VRep(PrinterRows(m.printers))] + [VRep(GPURows(m.gpus))]
        + [IntV(c.vcpus), IntV(c.memMB), IntV(c.diskMB), IntV(c.storageCommitMB), IntV(c.printQPS),
           VBool(o.compute), VBool(o.print_), VBool(o.storage)]
        + [VTime(m.issuedAt)] + [VWord(m.seqNo)] == tag + Fields(m)
  {}

  lemma StorageLeaseInOrder(m: Message)
    requires m.StorageLease?
    ensures
      var tag, f := [VStr(TagBytes(KLease))], m.fee;
      tag + [VStr(m.leaseID)] + [VStr(m.nodeID)] + [VStr(m.shardRef)] + [IntV(m.sizeClass)]
        + [IntV(f.contributorShareBps)] + [IntV(f.platformFeeBps)] + [VTime(m.issuedAt)] + [VTime(m.expiresAt)]
        + [VWord(m.seqNo)] == tag + Fields(m)
  {}

  lemma JobReportInOrder(m: Message)
    requires m.JobReport?
    ensures
      var tag := [VStr(TagBytes(KJobReport))];
      tag + [VStr(m.jobID)] + [VStr(m.nodeID)] + [IntV(m.exitCode)] + [VStr(m.failureCause)] + [VBool(m.tmpfsExhausted)]
        + [VTime(m.startedAt)] + [VTime(m.finishedAt)] == tag + Fields(m)
  {}

  lemma OperatorRotationInOrder(m: Message)
    requires m.OperatorRotation?
    ensures
      var tag := [VStr(TagBytes(KOperatorRotation))];
      tag + [VStr(m.operatorID)] + [IntV(m.keyIndex)] + [VStr(m.newPublicKey)] + [VStr(m.algo)] + [IntV(m.tsUnixNano)]
        + [VStr(m.nonce)] + [VWord(m.seqNo)] + [IntV(m.idx0)] + [IntV(m.idx1)] == tag + Fields(m)
  {}

  /** One more list element on the wire. */
  lemma RowWritten(rows: seq<Row>, i: nat, base: bytes, now: bytes)
    requires i < |rows|
    requires 1 <= |rows[i].fields| <= 3
    requires var f, sofar := rows[i].fields, base + EncodeRows(rows[..i]);
      now == if |f| == 1 then sofar + Encode(f[0])
             else if |f| == 2 then sofar + Encode(f[0]) + Encode(f[1])
             else sofar + Encode(f[0]) + Encode(f[1]) + Encode(f[2])
    ensures now == base + EncodeRows(rows[..i + 1])
  {
    hide Encode;
    var f, sofar := rows[i].fields, base + EncodeRows(rows[..i]);
    EncodeRowsSnoc(rows[..i], rows[i]);
    Assoc(base, EncodeRows(rows[..i]), EncodeAll(f));
    assert rows[..i] + [rows[i]] == rows[..i + 1];
    EncodeOne(f[|f| - 1]);
    if |f| == 2 {
      assert f[1..] == [f[1]];
      Assoc(sofar, Encode(f[0]), Encode(f[1]));
    } else if |f| == 3 {
      assert f[1..] == [f[1], f[2]] && f[1..][1..] == [f[2]];
      Assoc(sofar, Encode(f[0]), Encode(f[1]) + Encode(f[2]));
      Assoc(sofar + Encode(f[0]), Encode(f[1]), Encode(f[2]));
    } else {
      assert f == [f[0]];
    }
  }

  method WritePrinters(b: Buffer, xs: Slice<Printer>)
    requires b.Valid()
    modifies b
    ensures b.Valid() && b.written == old(b.written) + [VRep(PrinterRows(xs))] && b.err == old(b.err)
  {
    ghost var rows, fs := PrinterRows(xs), b.written;
    b.Count(|xs|);
    ghost var base := b.b;
    for i := 0 to |xs|
      invariant b.b == base + EncodeRows(rows[..i]) && b.err == old(b.err)
    {
      b.String(xs[i].kind);
      b.String(xs[i].model);
      RowWritten(rows, i, base, b.b);
    }
    assert rows[..|xs|] == rows;
    b.CloseList(fs, rows);
  }

  method WriteGPUs(b: Buffer, xs: Slice<GPU>)
    requires b.Valid()
    modifies b
    ensures b.Valid() && b.written == old(b.written) + [VRep(GPURows(xs))] && b.err == old(b.err)
  {
    ghost var rows, fs := GPURows(xs), b.written;
    b.Count(|xs|);
    ghost var base := b.b;
    for i := 0 to |xs|
      invariant b.b == base + EncodeRows(rows[..i]) && b.err == old(b.err)
    {
      b.String(xs[i].api);
      b.String(xs[i].model);
      b.Int64(xs[i].vramMB);
      RowWritten(rows, i, base, b.b);
    }
    assert rows[..|xs|] == rows;
    b.CloseList(fs, rows);
  }

  method WriteArgs(b: Buffer, xs: Slice<Text>)
    requires b.Valid()
    modifies b
    ensures b.Valid() && b.written == old(b.written) + [VRep(ArgRows(xs))] && b.err == old(b.err)
  {
    ghost var rows, fs := ArgRows(xs), b.written;
    b.Count(|xs|);
    ghost var base := b.b;
    for i := 0 to |xs|
      invariant b.b == base + EncodeRows(rows[..i]) && b.err == old(b.err)
    {
      b.String(xs[i]);
      RowWritten(rows, i, base, b.b);
    }
    assert rows[..|xs|] == rows;
    b.CloseList(fs, rows);
  }

  method WriteCapacity(b: Buffer, c: Capacity, o: OptIn)
    requires b.Valid()
    modifies b
    ensures b.Valid() && b.err == old(b.err)
    ensures b.written == old(b.written) +
      [IntV(c.vcpus), IntV(c.memMB), IntV(c.diskMB), IntV(c.storageCommitMB), IntV(c.printQPS),
       VBool(o.compute), VBool(o.print_), VBool(o.storage)]
  {
    hide Encode, EncodeAll, Skips, AsUint64;
    b.Int64(c.vcpus);
    b.Int64(c.memMB);
    b.Int64(c.diskMB);
    b.Int64(c.storageCommitMB);
    b.Int64(c.printQPS);
    b.Bool(o.compute);
    b.Bool(o.print_);
    b.Bool(o.storage);
  }

  method WriteSpec(b: Buffer, s: JobSpec)
    requires b.Valid()
    modifies b
    ensures b.Valid() && b.err == old(b.err)
    ensures b.written == old(b.written) + [VStr(s.workload), VStr(s.image), VRep(ArgRows(s.args)), VStr(s.printerKind),
                                           VStr(s.gpuAPI), IntV(s.gpuMinVRAMMB)]
  {
    b.String(s.workload);
    b.String(s.image);
    WriteArgs(b, s.args);
    b.String(s.printerKind);
    b.String(s.gpuAPI);
    b.Int64(s.gpuMinVRAMMB);
  }

  method CapabilityListingBytes(m: Message) returns (out: bytes, ghost err: Error)
    requires m.CapabilityListing?
    ensures out == Canonical(m) && (err == Nil <==> ValidTimes(m))
    ensures Spells(out, "sohocloud/listing/v0",
      [VStr(m.nodeID), VStr(m.computeClass), VRep(PrinterRows(m.printers)), VRep(GPURows(m.gpus)),
       IntV(m.capacity.vcpus), IntV(m.capacity.memMB), IntV(m.capacity.diskMB), IntV(m.capacity.storageCommitMB),
       IntV(m.capacity.printQPS), VBool(m.optIn.compute), VBool(m.optIn.print_), VBool(m.optIn.storage),
       VTime(m.issuedAt), VWord(m.seqNo)])
  {
    hide Encode, EncodeAll, Skips, ValidTimes, Canonical, AsUint64, Ascii, Spells;
    hide PrinterRows, GPURows, ArgRows;
    var b := new Buffer.New(Ascii("sohocloud/listing/v0"));
    b.String(m.nodeID);
    b.String(m.computeClass);
    WritePrinters(b, m.printers);
    WriteGPUs(b, m.gpus);
    WriteCapacity(b, m.capacity, m.optIn);
    b.Time(m.issuedAt);
    b.Uint64(m.seqNo);
    CapabilityListingInOrder(m);
    WroteMessage(m);
    Decoder.CanonicalSpells(m, "sohocloud/listing/v0", Fields(m));
    err := b.err;
    out := b.Sum();
  }

  method HeartbeatBytes(m: Message) returns (out: bytes, ghost err: Error)
    requires m.Heartbeat?
    ensures out == Canonical(m) && (err == Nil <==> ValidTimes(m))
    ensures Spells(out, "sohocloud/heartbeat/v0", [VStr(m.nodeID), VTime(m.sentAt), VWord(m.seqNo)])
  {
    hide Encode, EncodeAll, Skips, ValidTimes, Canonical, AsUint64, Ascii, Spells;
    var b := new Buffer.New(Ascii("sohocloud/heartbeat/v0"));
    b.String(m.nodeID);
    b.Time(m.sentAt);
    b.Uint64(m.seqNo);
    assert b.written == [VStr(TagBytes(KindOf(m)))] + Fields(m);
    WroteMessage(m);
    Decoder.CanonicalSpells(m, "sohocloud/heartbeat/v0", Fields(m));
    err := b.err;
    out := b.Sum();
  }

  method AssignmentBytes(m: Message) returns (out: bytes, ghost err: Error)
    requires m.Assignment?
    ensures out == Canonical(m) && (err == Nil <==> ValidTimes(m))
    ensures Spells(out, "sohocloud/assignment/v0",
      [VStr(m.jobID), VStr(m.nodeID), VStr(m.spec.workload), VStr(m.spec.image), VRep(ArgRows(m.spec.args)),
       VStr(m.spec.printerKind), VStr(m.spec.gpuAPI), IntV(m.spec.gpuMinVRAMMB), IntV(m.fee.contributorShareBps),
       IntV(m.fee.platformFeeBps), VTime(m.offeredAt)])
  {
    hide Encode, EncodeAll, Skips, ValidTimes, Canonical, AsUint64, Ascii, Spells;
    hide PrinterRows, GPURows, ArgRows;
    var b := new Buffer.New(Ascii("sohocloud/assignment/v0"));
    b.String(m.jobID);
    b.String(m.nodeID);
    WriteSpec(b, m.spec);
    b.Int64(m.fee.contributorShareBps);
    b.Int64(m.fee.platformFeeBps);
    b.Time(m.offeredAt);
    assert b.written == [VStr(TagBytes(KindOf(m)))] + Fields(m);
    WroteMessage(m);
    Decoder.CanonicalSpells(m, "sohocloud/assignment/v0", Fields(m));
    err := b.err;
    out := b.Sum();
  }

  method DeclineBytes(m: Message) returns (out: bytes, ghost err: Error)
    requires m.Decline?
    ensures out == Canonical(m) && (err == Nil <==> ValidTimes(m))
    ensures Spells(out, "sohocloud/decline/v0", [VStr(m.jobID), VStr(m.nodeID), VStr(m.reason), VTime(m.declinedAt)])
  {
    hide Encode, EncodeAll, Skips, ValidTimes, Canonical, AsUint64, Ascii, Spells;
    var b := new Buffer.New(Ascii("sohocloud/decline/v0"));
    b.String(m.jobID);
    b.String(m.nodeID);
    b.String(m.reason);
    b.Time(m.declinedAt);
    assert b.written == [VStr(TagBytes(KindOf(m)))] + Fields(m);
    WroteMessage(m);
    Decoder.CanonicalSpells(m, "sohocloud/decline/v0", Fields(m));
    err := b.err;
    out := b.Sum();
  }

  method JobReportBytes(m: Message) returns (out: bytes, ghost err: Error)
    requires m.JobReport?
    ensures out == Canonical(m) && (err == Nil <==> ValidTimes(m))
    ensures Spells(out, "sohocloud/jobreport/v0",
      [VStr(m.jobID), VStr(m.nodeID), IntV(m.exitCode), VStr(m.failureCause), VBool(m.tmpfsExhausted),
       VTime(m.startedAt), VTime(m.finishedAt)])
  {
    hide Encode, EncodeAll, Skips, ValidTimes, Canonical, AsUint64, Ascii, Spells;
    hide PrinterRows, GPURows, ArgRows;
    var b := new Buffer.New(Ascii("sohocloud/jobreport/v0"));
    b.String(m.jobID);
    b.String(m.nodeID);
    b.Int64(m.exitCode);
    b.String(m.failureCause);
    b.Bool(m.tmpfsExhausted);
    b.Time(m.startedAt);
    b.Time(m.finishedAt);
    JobReportInOrder(m);
    WroteMessage(m);
    Decoder.CanonicalSpells(m, "sohocloud/jobreport/v0", Fields(m));
    err := b.err;
    out := b.Sum();
  }

  method FeeDeclarationBytes(m: Message) returns (out: bytes, ghost err: Error)
    requires m.FeeDeclaration?
    ensures out == Canonical(m) && (err == Nil <==> ValidTimes(m))
    ensures Spells(out, "sohocloud/fee/v0",
      [VStr(m.coordinatorID), IntV(m.fee.contributorShareBps), IntV(m.fee.platformFeeBps), VTime(m.effectiveAt),
       VWord(m.seqNo)])
  {
    hide Encode, EncodeAll, Skips, ValidTimes, Canonical, AsUint64, Ascii, Spells;
    var b := new Buffer.New(Ascii("sohocloud/fee/v0"));
    b.String(m.coordinatorID);
    b.Int64(m.fee.contributorShareBps);
    b.Int64(m.fee.platformFeeBps);
    b.Time(m.effectiveAt);
    b.Uint64(m.seqNo);
    assert b.written == [VStr(TagBytes(KindOf(m)))] + Fields(m);
    WroteMessage(m);
    Decoder.CanonicalSpells(m, "sohocloud/fee/v0", Fields(m));
    err := b.err;
    out := b.Sum();
  }

  method StorageLeaseBytes(m: Message) returns (out: bytes, ghost err: Error)
    requires m.StorageLease?
    ensures out == Canonical(m) && (err == Nil <==> ValidTimes(m))
    ensures Spells(out, "sohocloud/lease/v0",
      [VStr(m.leaseID), VStr(m.nodeID), VStr(m.shardRef), IntV(m.sizeClass), IntV(m.fee.contributorShareBps),
       IntV(m.fee.platformFeeBps), VTime(m.issuedAt), VTime(m.expiresAt), VWord(m.seqNo)])
  {
    hide Encode, EncodeAll, Skips, ValidTimes, Canonical, AsUint64, Ascii, Spells;
    hide PrinterRows, GPURows, ArgRows;
    var b := new Buffer.New(Ascii("sohocloud/lease/v0"));
    b.String(m.leaseID);
    b.String(m.nodeID);
    b.Bytes(m.shardRef);
    b.Int64(m.sizeClass);
    b.Int64(m.fee.contributorShareBps);
    b.Int64(m.fee.platformFeeBps);
    b.Time(m.issuedAt);
    b.Time(m.expiresAt);
    b.Uint64(m.seqNo);
    StorageLeaseInOrder(m);
    WroteMessage(m);
    Decoder.CanonicalSpells(m, "sohocloud/lease/v0", Fields(m));
    err := b.err;
    out := b.Sum();
  }

  method LeaseDeclineBytes(m: Message) returns (out: bytes, ghost err: Error)
    requires m.LeaseDecline?
    ensures out == Canonical(m) && (err == Nil <==> ValidTimes(m))
    ensures Spells(out, "sohocloud/lease-decline/v0",
      [VStr(m.leaseID), VStr(m.nodeID), VStr(m.reason), VTime(m.declinedAt)])
  {
    hide Encode, EncodeAll, Skips, ValidTimes, Canonical, AsUint64, Ascii, Spells;
    var b := new Buffer.New(Ascii("sohocloud/lease-decline/v0"));
    b.String(m.leaseID);
    b.String(m.nodeID);
    b.String(m.reason);
    b.Time(m.declinedAt);
    assert b.written == [VStr(TagBytes(KindOf(m)))] + Fields(m);
    WroteMessage(m);
    Decoder.CanonicalSpells(m, "sohocloud/lease-decline/v0", Fields(m));
    err := b.err;
    out := b.Sum();
  }

  method LeaseReleaseBytes(m: Message) returns (out: bytes, ghost err: Error)
    requires m.LeaseRelease?
    ensures out == Canonical(m) && (err == Nil <==> ValidTimes(m))
    ensures Spells(out, "sohocloud/lease-release/v0", [VStr(m.leaseID), VStr(m.nodeID), VTime(m.releasedAt)])
  {
    hide Encode, EncodeAll, Skips, ValidTimes, Canonical, AsUint64, Ascii, Spells;
    var b := new Buffer.New(Ascii("sohocloud/lease-release/v0"));
    b.String(m.leaseID);
    b.String(m.nodeID);
    b.Time(m.releasedAt);
    assert b.written == [VStr(TagBytes(KindOf(m)))] + Fields(m);
    WroteMessage(m);
    Decoder.CanonicalSpells(m, "sohocloud/lease-release/v0", Fields(m));
    err := b.err;
    out := b.Sum();
  }

  method ProofResponseBytes(m: Message) returns (out: bytes, ghost err: Error)
    requires m.ProofResponse?
    ensures out == Canonical(m) && (err == Nil <==> ValidTimes(m))
    ensures Spells(out, "sohocloud/proof/v0",
      [VStr(m.leaseID), VStr(m.nodeID), IntV(m.offset), IntV(m.length), VStr(m.proofNonce), VStr(m.digest),
       VTime(m.respondedAt)])
  {
    hide Encode, EncodeAll, Skips, ValidTimes, Canonical, AsUint64, Ascii, Spells;
    var b := new Buffer.New(Ascii("sohocloud/proof/v0"));
    b.String(m.leaseID);
    b.String(m.nodeID);
    b.Int64(m.offset);
    b.Int64(m.length);
    b.Bytes(m.proofNonce);
    b.Bytes(m.digest);
    b.Time(m.respondedAt);
    assert b.written == [VStr(TagBytes(KindOf(m)))] + Fields(m);
    WroteMessage(m);
    Decoder.CanonicalSpells(m, "sohocloud/proof/v0", Fields(m));
    err := b.err;
    out := b.Sum();
  }

  method KeyRotationBytes(m: Message) returns (out: bytes, ghost err: Error)
    requires m.KeyRotation?
    ensures out == Canonical(m) && (err == Nil <==> ValidTimes(m))
    ensures Spells(out, "sohocloud/node-rotate/v0",
      [VStr(m.nodeID), VStr(m.newPublicKey), VStr(m.algo), VTime(m.rotatedAt), VWord(m.seqNo)])
  {
    hide Encode, EncodeAll, Skips, ValidTimes, Canonical, AsUint64, Ascii, Spells;
    var b := new Buffer.New(Ascii("sohocloud/node-rotate/v0"));
    b.String(m.nodeID);
    b.Bytes(m.newPublicKey);
    b.String(m.algo);
    b.Time(m.rotatedAt);
    b.Uint64(m.seqNo);
    assert b.written == [VStr(TagBytes(KindOf(m)))] + Fields(m);
    WroteMessage(m);
    Decoder.CanonicalSpells(m, "sohocloud/node-rotate/v0", Fields(m));
    err := b.err;
    out := b.Sum();
  }

  method KeyRevocationBytes(m: Message) returns (out: bytes, ghost err: Error)
    requires m.KeyRevocation?
    ensures out == Canonical(m) && (err == Nil <==> ValidTimes(m))
    ensures Spells(out, "sohocloud/node-revoke/v0",
      [VStr(m.nodeID), VStr(m.revokedPublicKey), VTime(m.revokedAt), VWord(m.seqNo)])
  {
    hide Encode, EncodeAll, Skips, ValidTimes, Canonical, AsUint64, Ascii, Spells;
    var b := new Buffer.New(Ascii("sohocloud/node-revoke/v0"));
    b.String(m.nodeID);
    b.Bytes(m.revokedPublicKey);
    b.Time(m.revokedAt);
    b.Uint64(m.seqNo);
    assert b.written == [VStr(TagBytes(KindOf(m)))] + Fields(m);
    WroteMessage(m);
    Decoder.CanonicalSpells(m, "sohocloud/node-revoke/v0", Fields(m));
    err := b.err;
    out := b.Sum();
  }

  method OperatorTransmissionBytes(m: Message) returns (out: bytes, ghost err: Error)
    requires m.OperatorTransmission?
    ensures out == Canonical(m) && (err == Nil <==> ValidTimes(m))
    ensures Spells(out, "sohocloud/operator/v0",
      [VStr(m.operatorID), IntV(m.tsUnixNano), VStr(m.nonce), VWord(m.seqNo), VStr(m.algo), IntV(m.idx0),
       IntV(m.idx1)])
  {
    hide Encode, EncodeAll, Skips, ValidTimes, Canonical, AsUint64, Ascii, Spells;
    var b := new Buffer.New(Ascii("sohocloud/operator/v0"));
    b.String(m.operatorID);
    b.Int64(m.tsUnixNano);
    b.Bytes(m.nonce);
    b.Uint64(m.seqNo);
    b.String(m.algo);
    b.Uint64(AsUint64(m.idx0));
    b.Uint64(AsUint64(m.idx1));
    assert b.written == [VStr(TagBytes(KindOf(m)))] + Fields(m);
    WroteMessage(m);
    Decoder.CanonicalSpells(m, "sohocloud/operator/v0", Fields(m));
    err := b.err;
    out := b.Sum();
  }

  method OperatorRotationBytes(m: Message) returns (out: bytes, ghost err: Error)
    requires m.OperatorRotation?
    ensures out == Canonical(m) && (err == Nil <==> ValidTimes(m))
    ensures Spells(out, "sohocloud/operator-rotate/v0",
      [VStr(m.operatorID), IntV(m.keyIndex), VStr(m.newPublicKey), VStr(m.algo), IntV(m.tsUnixNano), VStr(m.nonce),
       VWord(m.seqNo), IntV(m.idx0), IntV(m.idx1)])
  {
    hide Encode, EncodeAll, Skips, ValidTimes, Canonical, AsUint64, Ascii, Spells;
    hide PrinterRows, GPURows, ArgRows;
    var b := new Buffer.New(Ascii("sohocloud/operator-rotate/v0"));
    b.String(m.operatorID);
    b.Uint64(AsUint64(m.keyIndex));
    b.Bytes(m.newPublicKey);
    b.String(m.algo);
    b.Int64(m.tsUnixNano);
    b.Bytes(m.nonce);
    b.Uint64(m.seqNo);
    b.Uint64(AsUint64(m.idx0));
    b.Uint64(AsUint64(m.idx1));
    OperatorRotationInOrder(m);
    WroteMessage(m);
    Decoder.CanonicalSpells(m, "sohocloud/operator-rotate/v0", Fields(m));
    err := b.err;
    out := b.Sum();
  }

  method ConformanceResponseBytes(m: Message) returns (out: bytes, ghost err: Error)
    requires m.ConformanceResponse?
    ensures out == Canonical(m) && (err == Nil <==> ValidTimes(m))
    ensures Spells(out, "sohocloud/operator-conformance/v0",
      [VStr(m.operatorID), VStr(m.challenge), VStr(m.algo), IntV(m.idx0), IntV(m.idx1)])
  {
    hide Encode, EncodeAll, Skips, ValidTimes, Canonical, AsUint64, Ascii, Spells;
    var b := new Buffer.New(Ascii("sohocloud/operator-conformance/v0"));
    b.String(m.operatorID);
    b.Bytes(m.challenge);
    b.String(m.algo);
    b.Uint64(AsUint64(m.idx0));
    b.Uint64(AsUint64(m.idx1));
    assert b.written == [VStr(TagBytes(KindOf(m)))] + Fields(m);
    WroteMessage(m);
    Decoder.CanonicalSpells(m, "sohocloud/operator-conformance/v0", Fields(m));
    err := b.err;
    out := b.Sum();
  }
}
