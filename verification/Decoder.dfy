/** Reading canonical bytes back: what a canonical byte string says is never ambiguous. */
module Decoder {
  import opened Bytes
  import opened Instants
  import opened Wire
  import opened Messages

  function Str(v: Value): Text { if v.VStr? then v.s else [] }
  function Int(v: Value): int64 { if v.VWord? then AsInt64(v.u) else 0 }
  function UInt(v: Value): uint64 { if v.VWord? then v.u else 0 }
  function Flag(v: Value): bool { v.VBool? && v.v }
  function Time(v: Value): Instant { if v.VTime? then v.t else Instant(0, 0) }
  function Rows(v: Value): Slice<Row> { if v.VRep? then v.rows else [] }
  function Str16(v: Value): Bytes16 { if v.VStr? && |v.s| == 16 then v.s else seq(16, _ => 0) }
  function Str32(v: Value): Bytes32 { if v.VStr? && |v.s| == 32 then v.s else seq(32, _ => 0) }

  function RowPrinter(r: Row): Printer {
    if |r.fields| == 2 then Printer(Str(r.fields[0]), Str(r.fields[1])) else Printer([], [])
  }

  function RowGPU(r: Row): GPU {
    if |r.fields| == 3 then GPU(Str(r.fields[0]), Str(r.fields[1]), Int(r.fields[2])) else GPU([], [], 0)
  }

  function RowArg(r: Row): Text {
    if |r.fields| == 1 then Str(r.fields[0]) else []
  }

  function Printers(v: Value): Slice<Printer> {
    seq(|Rows(v)|, i requires 0 <= i < |Rows(v)| => RowPrinter(Rows(v)[i]))
  }

  function GPUs(v: Value): Slice<GPU> {
    seq(|Rows(v)|, i requires 0 <= i < |Rows(v)| => RowGPU(Rows(v)[i]))
  }

  function Args(v: Value): Slice<Text> {
    seq(|Rows(v)|, i requires 0 <= i < |Rows(v)| => RowArg(Rows(v)[i]))
  }

  /** The message of a kind that has these fields. */
  function Build(k: Kind, v: seq<Value>): (m: Message)
    requires |v| == |Schema(k)|
    ensures KindOf(m) == k
  {
    match k
    case KListing =>
      CapabilityListing(Str(v[0]), Str(v[1]), Printers(v[2]), GPUs(v[3]),
                        Capacity(Int(v[4]), Int(v[5]), Int(v[6]), Int(v[7]), Int(v[8])),
                        OptIn(Flag(v[9]), Flag(v[10]), Flag(v[11])), Time(v[12]), UInt(v[13]))
    case KHeartbeat => Heartbeat(Str(v[0]), Time(v[1]), UInt(v[2]))
    case KAssignment =>
      Assignment(Str(v[0]), Str(v[1]), JobSpec(Str(v[2]), Str(v[3]), Args(v[4]), Str(v[5]), Str(v[6]), Int(v[7])),
                 Terms(Int(v[8]), Int(v[9])), Time(v[10]))
    case KDecline => Decline(Str(v[0]), Str(v[1]), Str(v[2]), Time(v[3]))
    case KJobReport => JobReport(Str(v[0]), Str(v[1]), Int(v[2]), Str(v[3]), Flag(v[4]), Time(v[5]), Time(v[6]))
    case KFee => FeeDeclaration(Str(v[0]), Terms(Int(v[1]), Int(v[2])), Time(v[3]), UInt(v[4]))
    case KLease =>
      StorageLease(Str(v[0]), Str(v[1]), Str32(v[2]), Int(v[3]), Terms(Int(v[4]), Int(v[5])),
                   Time(v[6]), Time(v[7]), UInt(v[8]))
    case KLeaseDecline => LeaseDecline(Str(v[0]), Str(v[1]), Str(v[2]), Time(v[3]))
    case KLeaseRelease => LeaseRelease(Str(v[0]), Str(v[1]), Time(v[2]))
    case KProof =>
      ProofResponse(Str(v[0]), Str(v[1]), Int(v[2]), Int(v[3]), Str16(v[4]), Str32(v[5]), Time(v[6]))
    case KRotation => KeyRotation(Str(v[0]), Str(v[1]), Str(v[2]), Time(v[3]), UInt(v[4]))
    case KRevocation => KeyRevocation(Str(v[0]), Str(v[1]), Time(v[2]), UInt(v[3]))
    case KTransmission =>
      OperatorTransmission(Str(v[0]), Int(v[1]), Str(v[2]), UInt(v[3]), Str(v[4]), Int(v[5]), Int(v[6]))
    case KOperatorRotation =>
      OperatorRotation(Str(v[0]), Int(v[1]), Str(v[2]), Str(v[3]), Int(v[4]), Str(v[5]), UInt(v[6]),
                       Int(v[7]), Int(v[8]))
    case KConformance => ConformanceResponse(Str(v[0]), Str(v[1]), Str(v[2]), Int(v[3]), Int(v[4]))
  }

  // The round trip between messages and field lists is proved for a few types at a time.

  predicate JobKind(k: Kind) {
    k.KHeartbeat? || k.KAssignment? || k.KDecline? || k.KJobReport? || k.KFee?
  }

  predicate LeaseKind(k: Kind) {
    k.KLease? || k.KLeaseDecline? || k.KLeaseRelease? || k.KProof? || k.KRotation? || k.KRevocation?
  }

  predicate OperatorKind(k: Kind) {
    k.KTransmission? || k.KOperatorRotation? || k.KConformance?
  }

  lemma IntBack(v: int64)
    ensures Int(IntV(v)) == v
  {}

  lemma BuildListing(m: Message)
    requires m.CapabilityListing? && |Fields(m)| == |Schema(KListing)|
    ensures Build(KListing, Fields(m)) == m
  {
    var v, c := Fields(m), m.capacity;
    assert Printers(VRep(PrinterRows(m.printers))) == m.printers;
    assert GPUs(VRep(GPURows(m.gpus))) == m.gpus;
    IntBack(c.vcpus); IntBack(c.memMB); IntBack(c.diskMB); IntBack(c.storageCommitMB); IntBack(c.printQPS);
  }

  lemma BuildAssignment(m: Message)
    requires m.Assignment? && |Fields(m)| == |Schema(KAssignment)|
    ensures Build(KAssignment, Fields(m)) == m
  {
    assert Args(VRep(ArgRows(m.spec.args))) == m.spec.args;
  }

  lemma BuildJob(m: Message)
    requires JobKind(KindOf(m))
    requires |Fields(m)| == |Schema(KindOf(m))|
    ensures Build(KindOf(m), Fields(m)) == m
  {
    if m.Assignment? { BuildAssignment(m); }
  }

  lemma BuildLease(m: Message)
    requires LeaseKind(KindOf(m))
    requires |Fields(m)| == |Schema(KindOf(m))|
    ensures Build(KindOf(m), Fields(m)) == m
  {}

  lemma BuildOperator(m: Message)
    requires OperatorKind(KindOf(m))
    requires |Fields(m)| == |Schema(KindOf(m))|
    ensures Build(KindOf(m), Fields(m)) == m
  {}

  lemma BuildFields(m: Message)
    requires |Fields(m)| == |Schema(KindOf(m))|
    ensures Build(KindOf(m), Fields(m)) == m
  {
    if m.CapabilityListing? { BuildListing(m); }
    else if OperatorKind(KindOf(m)) { BuildOperator(m); }
    else if LeaseKind(KindOf(m)) { BuildLease(m); }
    else { BuildJob(m); }
  }

  lemma {:induction false} RowsFitAt(rows: seq<Row>, row: seq<Shape>, i: nat)
    requires FitRows(rows, row) && i < |rows|
    ensures |rows[i].fields| == |row| && forall j :: 0 <= j < |row| ==> Fits(rows[i].fields[j], row[j])
  {
    if i == 0 { FitAllAt(rows[0].fields, row); } else { RowsFitAt(rows[1..], row, i - 1); }
  }

  lemma RowsBuild(v: Value)
    ensures Fits(v, SRep(PRINTER_ROW)) ==> VRep(PrinterRows(Printers(v))) == v
    ensures Fits(v, SRep(GPU_ROW)) ==> VRep(GPURows(GPUs(v))) == v
    ensures Fits(v, SRep([SStr])) ==> VRep(ArgRows(Args(v))) == v
  {
    var rows := Rows(v);
    if Fits(v, SRep(PRINTER_ROW)) {
      forall i | 0 <= i < |rows| ensures PrinterRow(RowPrinter(rows[i])) == rows[i] {
        RowsFitAt(rows, PRINTER_ROW, i);
        assert rows[i].fields == [rows[i].fields[0], rows[i].fields[1]];
        assert Fits(rows[i].fields[0], PRINTER_ROW[0]) && Fits(rows[i].fields[1], PRINTER_ROW[1]);
      }
      assert PrinterRows(Printers(v)) == rows;
    }
    if Fits(v, SRep(GPU_ROW)) {
      forall i | 0 <= i < |rows| ensures GPURow(RowGPU(rows[i])) == rows[i] {
        RowsFitAt(rows, GPU_ROW, i);
        assert rows[i].fields == [rows[i].fields[0], rows[i].fields[1], rows[i].fields[2]];
        assert Fits(rows[i].fields[0], GPU_ROW[0]) && Fits(rows[i].fields[1], GPU_ROW[1]);
        assert Fits(rows[i].fields[2], GPU_ROW[2]);
      }
      assert GPURows(GPUs(v)) == rows;
    }
    if Fits(v, SRep([SStr])) {
      forall i | 0 <= i < |rows| ensures Row([VStr(RowArg(rows[i]))]) == rows[i] {
        RowsFitAt(rows, [SStr], i);
        assert rows[i].fields == [rows[i].fields[0]];
        assert Fits(rows[i].fields[0], [SStr][0]);
      }
      assert ArgRows(Args(v)) == rows;
    }
  }

  /** A value that fits a shape is rebuilt by the accessor for that shape. */
  predicate Rebuilt(v: Value, sh: Shape) {
    match sh
    case SStr => VStr(Str(v)) == v
    case SFixed(n) => (n == 16 ==> VStr(Str16(v)) == v) && (n == 32 ==> VStr(Str32(v)) == v)
    case SWord => IntV(Int(v)) == v && VWord(UInt(v)) == v
    case SBool => VBool(Flag(v)) == v
    case STime => VTime(Time(v)) == v
    case SRep(row) =>
      && (row == PRINTER_ROW ==> VRep(PrinterRows(Printers(v))) == v)
      && (row == GPU_ROW ==> VRep(GPURows(GPUs(v))) == v)
      && (row == [SStr] ==> VRep(ArgRows(Args(v))) == v)
  }

  predicate AllRebuilt(k: Kind, vs: seq<Value>) {
    |vs| == |Schema(k)| && forall i :: 0 <= i < |vs| ==> Rebuilt(vs[i], Schema(k)[i])
  }

  lemma ShapedImpliesRebuilt(k: Kind, vs: seq<Value>)
    requires AllShaped(vs, Schema(k))
    ensures AllRebuilt(k, vs)
  {
    forall i | 0 <= i < |vs| ensures Rebuilt(vs[i], Schema(k)[i]) {
      assert Shaped(vs[i], Schema(k)[i]);
      RowsBuild(vs[i]);
    }
  }

  lemma FitImpliesShaped(vs: seq<Value>, shs: seq<Shape>)
    requires FitAll(vs, shs)
    ensures AllShaped(vs, shs)
  {
    FitAllAt(vs, shs);
    forall i | 0 <= i < |vs| ensures Shaped(vs[i], shs[i]) { assert Fits(vs[i], shs[i]); }
  }

  lemma FieldsBuildListing(vs: seq<Value>)
    requires AllRebuilt(KListing, vs)
    ensures Fields(Build(KListing, vs)) == vs
  {
    hide Str, Int, UInt, Flag, Time, Printers, GPUs, PrinterRows, GPURows, IntV;
    var f, sh := Fields(Build(KListing, vs)), Schema(KListing);
    assert GPU_ROW != PRINTER_ROW by { assert |GPU_ROW| != |PRINTER_ROW|; }
    forall i | 0 <= i < 14 ensures f[i] == vs[i] { assert Rebuilt(vs[i], sh[i]); }
  }

  lemma FieldsBuildJob(k: Kind, vs: seq<Value>)
    requires JobKind(k)
    requires AllRebuilt(k, vs)
    ensures Fields(Build(k, vs)) == vs
  {}

  lemma FieldsBuildLease(k: Kind, vs: seq<Value>)
    requires LeaseKind(k)
    requires AllRebuilt(k, vs)
    ensures Fields(Build(k, vs)) == vs
  {}

  lemma FieldsBuildOperator(k: Kind, vs: seq<Value>)
    requires OperatorKind(k)
    requires AllRebuilt(k, vs)
    ensures Fields(Build(k, vs)) == vs
  {}

  /** Every list of values of the right shapes, times of any kind, is the field list of a message. */
  lemma FieldsBuild(k: Kind, vs: seq<Value>)
    requires AllShaped(vs, Schema(k))
    ensures KindOf(Build(k, vs)) == k && Fields(Build(k, vs)) == vs
  {
    ShapedImpliesRebuilt(k, vs);
    if k.KListing? { FieldsBuildListing(vs); }
    else if OperatorKind(k) { FieldsBuildOperator(k, vs); }
    else if LeaseKind(k) { FieldsBuildLease(k, vs); }
    else { FieldsBuildJob(k, vs); }
  }

  // ---------------------------------------------------------------- unique decodability

  /** Reads a message off the front of a byte string: its tag picks the type, the type picks the field shapes. */
  ghost function Decode(b: bytes): Option<(Message, bytes)> {
    match ParseStr(b)
    case None => None
    case Some((tag, body)) =>
      if exists k: Kind :: TagBytes(k) == tag then DecodeBody(TagKind(tag), body) else None
  }

  ghost function TagKind(tag: bytes): (k: Kind)
    requires exists k: Kind :: TagBytes(k) == tag
    ensures TagBytes(k) == tag
  {
    var k: Kind :| TagBytes(k) == tag; k
  }

  function DecodeBody(k: Kind, body: bytes): Option<(Message, bytes)> {
    match ParseAll(Schema(k), body)
    case None => None
    case Some((vs, rest)) => if |vs| == |Schema(k)| then Some((Build(k, vs), rest)) else None
  }

  /** The decoder reads a message exactly from the strings that start with its canonical bytes,
      and only messages with representable times are ever read. */
  lemma DecodeExact(m: Message, b: bytes, rest: bytes)
    ensures Decode(b) == Some((m, rest)) <==> ValidTimes(m) && b == Canonical(m) + rest
  {
    if ValidTimes(m) && b == Canonical(m) + rest { DecodeCanonical(m, rest); }
    if Decode(b) == Some((m, rest)) { DecodeSound(b); }
  }

  lemma DecodeCanonical(m: Message, rest: bytes)
    requires ValidTimes(m)
    ensures Decode(Canonical(m) + rest) == Some((m, rest))
  {
    TagParse(m, rest);
    TagsDistinct(TagKind(TagBytes(KindOf(m))), KindOf(m));
    BodyDecodes(m, rest);
  }

  lemma BodyDecodes(m: Message, rest: bytes)
    requires ValidTimes(m)
    ensures DecodeBody(KindOf(m), EncodeAll(Fields(m)) + rest) == Some((m, rest))
  {
    FieldsFit(m);
    ParseEncodeAll(Schema(KindOf(m)), Fields(m), rest);
    FieldsShaped(m);
    BuildFields(m);
  }

  lemma DecodeSound(b: bytes)
    requires Decode(b).Some?
    ensures var (m, rest) := Decode(b).value; ValidTimes(m) && b == Canonical(m) + rest
  {
    hide Fields, EncodeAll, TagBytes, Build, Schema, ValidTimes;
    var (tag, body) := ParseStr(b).value;
    var k := TagKind(tag);
    var (vs, rest) := ParseAll(Schema(k), body).value;
    ParseAllSound(Schema(k), body);
    FitImpliesShaped(vs, Schema(k));
    FieldsBuild(k, vs);
    FieldsFit(Build(k, vs));
    Assoc(Encode(VStr(tag)), EncodeAll(vs), rest);
  }

  lemma TagParse(m: Message, rest: bytes)
    ensures ParseStr(Canonical(m) + rest) == Some((TagBytes(KindOf(m)), EncodeAll(Fields(m)) + rest))
  {
    hide Fields, EncodeAll, TagBytes, KindOf;
    var tag := TagBytes(KindOf(m));
    ParseStrDecodes(tag, EncodeAll(Fields(m)) + rest);
    Assoc(Uvarint(|tag|) + tag, EncodeAll(Fields(m)), rest);
  }

  /** A message's bytes, spelled out. */
  lemma CanonicalSpells(m: Message, tag: string, payload: seq<Value>)
    requires Tag(KindOf(m)) == tag && Fields(m) == payload
    ensures Spells(Canonical(m), tag, payload)
  {
    hide Tag, Fields, KindOf, EncodeAll;
    TagSpelled(KindOf(m));
    TagParse(m, []);
    assert Canonical(m) + [] == Canonical(m) && EncodeAll(payload) + [] == EncodeAll(payload);
  }

  /** Across all fifteen types: with representable times, no message's bytes equal another message's
      or begin with them. */
  lemma PrefixFree(m1: Message, m2: Message, s: bytes, t: bytes)
    requires ValidTimes(m1) && ValidTimes(m2)
    requires Canonical(m1) + s == Canonical(m2) + t
    ensures m1 == m2 && s == t
  {
    DecodeCanonical(m1, s);
    DecodeCanonical(m2, t);
  }

  /** Types stay apart even when times were skipped. */
  lemma TypesDisjoint(m1: Message, m2: Message, s: bytes, t: bytes)
    requires Canonical(m1) + s == Canonical(m2) + t
    ensures KindOf(m1) == KindOf(m2)
    ensures EncodeAll(Fields(m1)) + s == EncodeAll(Fields(m2)) + t
  {
    TagParse(m1, s);
    TagParse(m2, t);
    TagsDistinct(KindOf(m1), KindOf(m2));
  }
}
