/** The independent Python encoders (testdata/reproduce_spec.py), over the rows of ScriptRecords: the same bytes as the
    Go encoders, or a ValueError exactly where a row has no such bytes. */
module ScriptEncoders {
  import opened Bytes
  import opened Instants
  import opened Wire
  import opened Messages
  import opened ScriptRecords
  import Decoder
  import GoEncoders
  import Utf8

  datatype Result = Ok(value: bytes) | ValueError {
    predicate IsFailure() { ValueError? }
    function PropagateFailure(): Result requires ValueError? { this }
    function Extract(): bytes requires Ok? { value }
  }

  /** Python's bytearray after the domain tag: it takes the fields of a row one after another. */
  class ByteArray {
    var data: bytes
    ghost const row: PyRow
    ghost var done: nat         // how many fields it has taken

    /** The bytes are those Go writes for the tag and the fields taken, and none of these was refused. */
    ghost predicate Holds(d: bytes)
      reads `done
    {
      var vs := row.fields;
      && done <= |vs| && d == EncodeAll([VStr(TagBytes(row.kind))] + GoValues(vs[..done]))
      && forall i :: 0 <= i < done ==> TextsEncodable(vs[i]) && NumbersFit(vs[i])
    }

    ghost predicate Valid()
      reads this
    {
      Holds(data)
    }

    /** bytearray(), and the tag through enc_domain. */
    constructor (tag: string, ghost r: PyRow)
      requires |tag| < TWO_63 && Ascii(tag) == TagBytes(r.kind)
      ensures Valid() && row == r && done == 0
    {
      data, row, done := [], r, 0;
      new;
      data := EncDomain(tag);
      EncodeOne(VStr(Ascii(tag)));
      assert [VStr(Ascii(tag))] + GoValues([]) == [VStr(Ascii(tag))];
    }

    ghost method Took(v: Field, before: bytes)
      requires done < |row.fields| && row.fields[done] == v && TextsEncodable(v) && NumbersFit(v)
      requires Holds(before) && data == before + Encode(GoValue(v))
      modifies `done
      ensures Valid() && done == old(done) + 1
    {
      hide TextsEncodable, NumbersFit, GoValue, Encode, TagBytes;
      var k, vs := row.kind, row.fields;
      var values := [VStr(TagBytes(k))] + GoValues(vs[..done]);
      EncodeConcat(values, [GoValue(v)]);
      EncodeOne(GoValue(v));
      GoValuesSnoc(VStr(TagBytes(k)), vs, done);
      done := done + 1;
    }

    /** Once a list's count and elements are on the wire, they stand as one field. */
    ghost method TookList(v: Field, before: bytes, rows: Slice<Row>)
      requires done < |row.fields| && row.fields[done] == v && TextsEncodable(v) && NumbersFit(v)
      requires GoValue(v) == VRep(rows) && Holds(before)
      requires data == before + Uvarint(|rows|) + EncodeRows(rows)
      modifies `done
      ensures Valid() && done == old(done) + 1
    {
      hide TextsEncodable, NumbersFit, GoValue, TagBytes, EncodeRows, Uvarint, ByteArray.Holds;
      Assoc(before, Uvarint(|rows|), EncodeRows(rows));
      Took(v, before);
    }

    /** out += e, where evaluating e may raise. */
    method Add(e: Result, ghost v: Field) returns (r: Result)
      requires Valid() && done < |row.fields| && row.fields[done] == v && e == Encoded(v)
      modifies `data, `done
      ensures if e.Ok? then r.Ok? && Valid() && done == old(done) + 1 else r == Expected(row) == ValueError
    {
      hide TextsEncodable, NumbersFit, GoValue, Encode, TagBytes, Expected;
      ghost var before := data;
      Refusal(row, v);
      var x :- e;
      data := data + x;
      Took(v, before);
      r := Ok(data);
    }

    method AddString(s: PyText) returns (r: Result)
      requires Valid() && done < |row.fields| && row.fields[done] == PText(s)
      modifies `data, `done
      ensures if r.Ok? then Valid() && done == old(done) + 1 else Expected(row) == ValueError
    {
      var e := EncString(s);
      r := Add(e, PText(s));
    }

    method AddBytes(p: Slice<byte>)
      requires Valid() && done < |row.fields| && row.fields[done] == PBytes(p)
      modifies `data, `done
      ensures Valid() && done == old(done) + 1
    {
      var x := EncBytes(p);
      var _ := Add(Ok(x), PBytes(p));
    }

    method AddBool(v: bool)
      requires Valid() && done < |row.fields| && row.fields[done] == PBool(v)
      modifies `data, `done
      ensures Valid() && done == old(done) + 1
    {
      var _ := Add(Ok(EncBool(v)), PBool(v));
    }

    method AddInt64(n: int) returns (r: Result)
      requires Valid() && done < |row.fields| && row.fields[done] == PInt(n)
      modifies `data, `done
      ensures if r.Ok? then Valid() && done == old(done) + 1 else Expected(row) == ValueError
    {
      r := Add(EncInt64(n), PInt(n));
    }

    method AddUint64(n: int) returns (r: Result)
      requires Valid() && done < |row.fields| && row.fields[done] == PUint(n)
      modifies `data, `done
      ensures if r.Ok? then Valid() && done == old(done) + 1 else Expected(row) == ValueError
    {
      r := Add(EncUint64(n), PUint(n));
    }

    method AddIndex(n: int) returns (r: Result)
      requires Valid() && done < |row.fields| && row.fields[done] == PIndex(n)
      modifies `data, `done
      ensures if r.Ok? then Valid() && done == old(done) + 1 else Expected(row) == ValueError
    {
      r := Add(EncUint64(n), PIndex(n));
    }

    method AddTime(n: int) returns (r: Result)
      requires Valid() && done < |row.fields| && row.fields[done] == PTime(n)
      modifies `data, `done
      ensures if r.Ok? then Valid() && done == old(done) + 1 else Expected(row) == ValueError
    {
      r := Add(EncTime(n), PTime(n));
    }
  }

  lemma GoValuesSnoc(tag: Value, vs: seq<Field>, n: nat)
    requires n < |vs|
    ensures [tag] + GoValues(vs[..n + 1]) == [tag] + GoValues(vs[..n]) + [GoValue(vs[n])]
  {
    hide GoValue;
  }

  /** The varint loop, on Python's unbounded integers. */
  method UvarintLoop(n: int) returns (r: Result)
    ensures r == if n < 0 then ValueError else Ok(Uvarint(n))
  {
    if n < 0 { return ValueError; }
    var rest, out: bytes := n, [];
    while true
      invariant rest >= 0
      invariant out + Uvarint(rest) == Uvarint(n)
      decreases rest
    {
      var b := rest % 128;
      ghost var before := rest;
      rest := rest / 128;
      if rest != 0 {
        assert Uvarint(before) == [b + 128] + Uvarint(rest);
        out := out + [b + 128];
      } else {
        return Ok(out + [b]);
      }
    }
  }

  /** The bytes Go writes for the same field, or a ValueError where there are none. */
  ghost function Encoded(v: Field): Result {
    if TextsEncodable(v) && NumbersFit(v) then Ok(Encode(GoValue(v))) else ValueError
  }

  method EncString(s: PyText) returns (r: Result)
    ensures r == Encoded(PText(s))
  {
    if exists i :: 0 <= i < |s| && Utf8.Surrogate(s[i]) { return ValueError; }
    var raw := Utf8.Encode(s);
    var n := UvarintLoop(|raw|);
    r := Ok(n.value + raw);
  }

  lemma DomainSpells(tag: string)
    requires |tag| < TWO_63 && forall i :: 0 <= i < |tag| ==> tag[i] as int < 128
    ensures Spells(Encode(VStr(Ascii(tag))), tag, [])
  {
    hide ParseStr, Uvarint;
    var x := Encode(VStr(Ascii(tag)));
    ParseStrDecodes(Ascii(tag), []);
    assert x + [] == x;
  }

  /** A domain tag is an ASCII text, which UTF-8 leaves as it is. */
  method EncDomain(tag: string) returns (x: bytes)
    requires |tag| < TWO_63
    ensures x == Encode(VStr(Ascii(tag)))
    ensures (forall i :: 0 <= i < |tag| ==> tag[i] as int < 128) ==> Spells(x, tag, [])
  {
    hide Spells, Encode;
    Utf8.AsciiEncodesItself(Ascii(tag));
    if forall i :: 0 <= i < |tag| ==> tag[i] as int < 128 { DomainSpells(tag); }
    var r := EncString(Ascii(tag));
    x := r.value;
  }

  method EncBytes(p: Slice<byte>) returns (x: bytes)
    ensures Ok(x) == Encoded(PBytes(p))
  {
    var n := UvarintLoop(|p|);
    x := n.value + p;
  }

  function EncBool(v: bool): (x: bytes)
    ensures Ok(x) == Encoded(PBool(v))
  {
    if v then [1] else [0]
  }

  function EncUint64(n: int): (r: Result)
    ensures r == Encoded(PUint(n)) == Encoded(PIndex(n))
  {
    if n < 0 || n > 0xFFFF_FFFF_FFFF_FFFF then ValueError else Ok(BigEndian(n, 8))
  }

  lemma MaskIsConversion(n: int64)
    ensures n % TWO_64 == AsUint64(n)
  {
    if n < 0 { assert n == -1 * TWO_64 + (n + TWO_64); }
  }

  /** The mask n & (2^64 - 1) is the remainder modulo 2^64, for negative n too. */
  function EncInt64(n: int): (r: Result)
    ensures r == Encoded(PInt(n))
  {
    if n < -TWO_63 || n > TWO_63 - 1 then ValueError else MaskIsConversion(n); Ok(BigEndian(n % TWO_64, 8))
  }

  function EncTime(n: int): (r: Result)
    ensures r == Encoded(PTime(n))
  {
    if InInt64(n) then UnixNanoBijective(UnixOfNanos(n), n); EncInt64(n) else EncInt64(n)
  }

  /** What every canon_* function returns: the canonical bytes of the Go message the row stands for, or a ValueError. */
  ghost function Expected(r: PyRow): Result {
    if Ordered(r) && Representable(r) then Ok(Canonical(GoOf(r))) else ValueError
  }

  /** The same, said of the message by name. */
  ghost function Returned(r: PyRow, m: Message): Result {
    if Representable(r) then Ok(Canonical(m)) else ValueError
  }

  /** Said either way it is the same, and it spells the tag and the message's fields. */
  lemma ReturnedSpells(r: PyRow, m: Message, tag: string)
    requires Ordered(r) && Means(r, m) && Tag(KindOf(m)) == tag
    ensures Expected(r) == Returned(r, m)
    ensures Returned(r, m).Ok? ==> Spells(Returned(r, m).value, tag, Fields(m))
  {
    hide Canonical, Representable, GoOf, Means, Spells, Tag, Fields, KindOf;
    MeantIsGo(r, m);
    Decoder.CanonicalSpells(m, tag, Fields(m));
  }

  /** A bytearray that took all fields of its row holds the canonical bytes. */
  lemma Completed(out: ByteArray)
    requires out.Valid() && out.done == |out.row.fields| && Ordered(out.row)
    ensures Expected(out.row) == Ok(out.data)
  {
    hide Ordered, GoOf, Fields, TextsEncodable, NumbersFit, GoValue, TagBytes, KindOf;
    var vs := out.row.fields;
    GoOfFields(out.row);
    GoEncoders.WroteMessage(GoOf(out.row));
    assert vs[..out.done] == vs;
    forall v | v in vs ensures TextsEncodable(v) && NumbersFit(v) {
      var i :| 0 <= i < |vs| && vs[i] == v;
    }
  }

  /** A row and a message that state the same: the script returns the very bytes Go signs exactly when the texts have a
      UTF-8 form, the times are valid and the indices are not negative, and raises a ValueError otherwise. */
  lemma AgreesWithGo(r: PyRow, m: Message)
    requires Describes(r, m)
    ensures Expected(r) ==
      if (forall v :: v in r.fields ==> TextsEncodable(v)) && ValidTimes(m)
         && (forall v :: v in r.fields && v.PIndex? ==> v.n >= 0)
      then Ok(Canonical(m)) else ValueError
  {
    hide Canonical, GoOf, Representable, Ordered, States, Fields, ValidTimes;
    DescribedExactly(r, m);
  }

  /** One field refused refuses the row. */
  lemma Refusal(r: PyRow, v: Field)
    requires v in r.fields
    ensures Encoded(v) == ValueError ==> Expected(r) == ValueError
  {
    hide TextsEncodable, NumbersFit, GoValue, Encode, Canonical, GoOf, Ordered;
    if Encoded(v) == ValueError { assert !Representable(r); }
  }

  lemma NoRows()
    ensures EncodeRows([]) == []
  {}

  lemma PrinterWritten(xs: Slice<PyPrinter>, i: nat, base: bytes, now: bytes)
    requires i < |xs|
    requires
      var rows := PrinterRows(GoPrinters(xs));
      now == base + EncodeRows(rows[..i])
        + Encode(VStr(GoText(xs[i].kind))) + Encode(VStr(GoText(xs[i].model)))
    ensures now == base + EncodeRows(PrinterRows(GoPrinters(xs))[..i + 1])
  {
    hide Encode, EncodeRows, GoText, IntV;
    assert PrinterRows(GoPrinters(xs))[i].fields == [VStr(GoText(xs[i].kind)), VStr(GoText(xs[i].model))];
    GoEncoders.RowWritten(PrinterRows(GoPrinters(xs)), i, base, now);
  }

  method AddPrinters(out: ByteArray, xs: Slice<PyPrinter>) returns (r: Result)
    requires out.Valid() && out.done < |out.row.fields| && out.row.fields[out.done] == PPrinters(xs)
    modifies out`data, out`done
    ensures if r.Ok? then out.Valid() && out.done == old(out.done) + 1 else Expected(out.row) == ValueError
  {
    hide TagBytes, GoText, Utf8.Encode, Utf8.Encodable, Encode, EncodeAll, EncodeRows, Uvarint;
    hide Expected, ByteArray.Holds;
    hide PrinterRows, GoPrinters, IntV;
    ghost var rows, before := PrinterRows(GoPrinters(xs)), out.data;
    Refusal(out.row, PPrinters(xs));
    var n := UvarintLoop(|xs|);
    out.data := out.data + n.value;
    ghost var base := out.data;
    NoRows();
    for i := 0 to |xs|
      invariant out.data == base + EncodeRows(rows[..i]) && out.done == old(out.done) && out.Holds(before)
      invariant forall j :: 0 <= j < i ==> Utf8.Encodable(xs[j].kind) && Utf8.Encodable(xs[j].model)
    {
      var k :- EncString(xs[i].kind);
      var o :- EncString(xs[i].model);
      out.data := out.data + k + o;
      PrinterWritten(xs, i, base, out.data);
    }
    assert rows[..|xs|] == rows;
    out.TookList(PPrinters(xs), before, rows);
    r := Ok(out.data);
  }

  lemma GPUWritten(xs: Slice<PyGPU>, i: nat, base: bytes, now: bytes)
    requires i < |xs|
    requires
      var rows := GPURows(GoGPUs(xs));
      now == base + EncodeRows(rows[..i])
        + Encode(VStr(GoText(xs[i].api))) + Encode(VStr(GoText(xs[i].model))) + Encode(IntV(GoInt(xs[i].vramMB)))
    ensures now == base + EncodeRows(GPURows(GoGPUs(xs))[..i + 1])
  {
    hide Encode, EncodeRows, GoText, IntV;
    assert GPURows(GoGPUs(xs))[i].fields ==
      [VStr(GoText(xs[i].api)), VStr(GoText(xs[i].model)), IntV(GoInt(xs[i].vramMB))];
    GoEncoders.RowWritten(GPURows(GoGPUs(xs)), i, base, now);
  }

  method AddGPUs(out: ByteArray, xs: Slice<PyGPU>) returns (r: Result)
    requires out.Valid() && out.done < |out.row.fields| && out.row.fields[out.done] == PGPUs(xs)
    modifies out`data, out`done
    ensures if r.Ok? then out.Valid() && out.done == old(out.done) + 1 else Expected(out.row) == ValueError
  {
    hide TagBytes, GoText, Utf8.Encode, Utf8.Encodable, Encode, EncodeAll, EncodeRows, Uvarint;
    hide Expected, ByteArray.Holds;
    hide GPURows, GoGPUs, IntV;
    ghost var rows, before := GPURows(GoGPUs(xs)), out.data;
    Refusal(out.row, PGPUs(xs));
    var n := UvarintLoop(|xs|);
    out.data := out.data + n.value;
    ghost var base := out.data;
    NoRows();
    for i := 0 to |xs|
      invariant out.data == base + EncodeRows(rows[..i]) && out.done == old(out.done) && out.Holds(before)
      invariant forall j :: 0 <= j < i ==>
        Utf8.Encodable(xs[j].api) && Utf8.Encodable(xs[j].model) && InInt64(xs[j].vramMB)
    {
      var a :- EncString(xs[i].api);
      var o :- EncString(xs[i].model);
      var w :- EncInt64(xs[i].vramMB);
      out.data := out.data + a + o + w;
      GPUWritten(xs, i, base, out.data);
    }
    assert rows[..|xs|] == rows;
    out.TookList(PGPUs(xs), before, rows);
    r := Ok(out.data);
  }

  lemma ArgWritten(xs: Slice<PyText>, i: nat, base: bytes, now: bytes)
    requires i < |xs|
    requires
      var rows := ArgRows(GoArgs(xs));
      now == base + EncodeRows(rows[..i])
        + Encode(VStr(GoText(xs[i])))
    ensures now == base + EncodeRows(ArgRows(GoArgs(xs))[..i + 1])
  {
    hide Encode, EncodeRows, GoText, IntV;
    assert ArgRows(GoArgs(xs))[i].fields == [VStr(GoText(xs[i]))];
    GoEncoders.RowWritten(ArgRows(GoArgs(xs)), i, base, now);
  }

  method AddArgs(out: ByteArray, xs: Slice<PyText>) returns (r: Result)
    requires out.Valid() && out.done < |out.row.fields| && out.row.fields[out.done] == PArgs(xs)
    modifies out`data, out`done
    ensures if r.Ok? then out.Valid() && out.done == old(out.done) + 1 else Expected(out.row) == ValueError
  {
    hide TagBytes, GoText, Utf8.Encode, Utf8.Encodable, Encode, EncodeAll, EncodeRows, Uvarint;
    hide Expected, ByteArray.Holds;
    hide ArgRows, GoArgs, IntV;
    ghost var rows, before := ArgRows(GoArgs(xs)), out.data;
    Refusal(out.row, PArgs(xs));
    var n := UvarintLoop(|xs|);
    out.data := out.data + n.value;
    ghost var base := out.data;
    NoRows();
    for i := 0 to |xs|
      invariant out.data == base + EncodeRows(rows[..i]) && out.done == old(out.done) && out.Holds(before)
      invariant forall j :: 0 <= j < i ==> Utf8.Encodable(xs[j])
    {
      var a :- EncString(xs[i]);
      out.data := out.data + a;
      ArgWritten(xs, i, base, out.data);
    }
    assert rows[..|xs|] == rows;
    out.TookList(PArgs(xs), before, rows);
    r := Ok(out.data);
  }

  method AddCapacity(out: ByteArray, f: CapabilityListingRow) returns (r: Result)
    requires out.Valid() && out.row == f.AsRow() && out.done == 4
    modifies out`data, out`done
    ensures if r.Ok? then out.Valid() && out.done == 9 else Expected(out.row) == ValueError
  {
    hide Expected, Returned, ByteArray.Valid, Ordered, Means, Utf8.Encode, TagBytes;
    var x;
    x :- out.AddInt64(f.capacity.vcpus);
    x :- out.AddInt64(f.capacity.memMB);
    x :- out.AddInt64(f.capacity.diskMB);
    x :- out.AddInt64(f.capacity.storageCommitMB);
    x :- out.AddInt64(f.capacity.printQPS);
    r := Ok(out.data);
  }

  method AddListingEnd(out: ByteArray, f: CapabilityListingRow) returns (r: Result)
    requires out.Valid() && out.row == f.AsRow() && out.done == 9
    modifies out`data, out`done
    ensures if r.Ok? then out.Valid() && out.done == 14 else Expected(out.row) == ValueError
  {
    hide Expected, Returned, ByteArray.Valid, Ordered, Means, Utf8.Encode, TagBytes;
    var x;
    out.AddBool(f.optIn.compute);
    out.AddBool(f.optIn.print_);
    out.AddBool(f.optIn.storage);
    x :- out.AddTime(f.issuedAt);
    x :- out.AddUint64(f.seqNo);
    r := Ok(out.data);
  }

  method AddDevices(out: ByteArray, f: CapabilityListingRow) returns (r: Result)
    requires out.Valid() && out.row == f.AsRow() && out.done == 2
    modifies out`data, out`done
    ensures if r.Ok? then out.Valid() && out.done == 4 else Expected(out.row) == ValueError
  {
    hide Expected, Returned, ByteArray.Valid, Ordered, Means, Utf8.Encode, TagBytes;
    var x;
    x :- AddPrinters(out, f.printers);
    x :- AddGPUs(out, f.gpus);
    r := Ok(out.data);
  }

  method CanonCapabilityListing(f: CapabilityListingRow) returns (r: Result)
    ensures r == Returned(f.AsRow(), f.Go())
    ensures r.Ok? ==> Spells(r.value, "sohocloud/listing/v0",
      [VStr(GoText(f.nodeID)), VStr(GoText(f.computeClass)), VRep(PrinterRows(GoPrinters(f.printers))),
       VRep(GPURows(GoGPUs(f.gpus))), IntV(GoInt(f.capacity.vcpus)), IntV(GoInt(f.capacity.memMB)),
       IntV(GoInt(f.capacity.diskMB)), IntV(GoInt(f.capacity.storageCommitMB)), IntV(GoInt(f.capacity.printQPS)),
       VBool(f.optIn.compute), VBool(f.optIn.print_), VBool(f.optIn.storage), VTime(GoTime(f.issuedAt)),
       VWord(GoUint(f.seqNo))])
  {
    hide Expected, Returned, ByteArray.Valid, Ordered, Means, Utf8.Encode, Ascii, Spells;
    hide GoText, GoInt, GoUint, GoTime, GoIndex;
    f.Meant();
    ReturnedSpells(f.AsRow(), f.Go(), "sohocloud/listing/v0");
    var out := new ByteArray("sohocloud/listing/v0", f.AsRow());
    var x: bytes;
    x :- out.AddString(f.nodeID);
    x :- out.AddString(f.computeClass);
    x :- AddDevices(out, f);
    x :- AddCapacity(out, f);
    x :- AddListingEnd(out, f);
    Completed(out);
    r := Ok(out.data);
  }

  method CanonHeartbeat(f: HeartbeatRow) returns (r: Result)
    ensures r == Returned(f.AsRow(), f.Go())
    ensures r.Ok? ==> Spells(r.value, "sohocloud/heartbeat/v0",
      [VStr(GoText(f.nodeID)), VTime(GoTime(f.sentAt)), VWord(GoUint(f.seqNo))])
  {
    hide Expected, Returned, ByteArray.Valid, Ordered, Means, Utf8.Encode, Ascii, Spells;
    hide GoText, GoInt, GoUint, GoTime, GoIndex;
    f.Meant();
    ReturnedSpells(f.AsRow(), f.Go(), "sohocloud/heartbeat/v0");
    var out := new ByteArray("sohocloud/heartbeat/v0", f.AsRow());
    var x: bytes;
    x :- out.AddString(f.nodeID);
    x :- out.AddTime(f.sentAt);
    x :- out.AddUint64(f.seqNo);
    Completed(out);
    r := Ok(out.data);
  }

  method AddSpec(out: ByteArray, f: AssignmentRow) returns (r: Result)
    requires out.Valid() && out.row == f.AsRow() && out.done == 2
    modifies out`data, out`done
    ensures if r.Ok? then out.Valid() && out.done == 8 else Expected(out.row) == ValueError
  {
    hide Expected, Returned, ByteArray.Valid, Ordered, Means, Utf8.Encode, TagBytes;
    var x;
    x :- out.AddString(f.spec.workload);
    x :- out.AddString(f.spec.image);
    x :- AddArgs(out, f.spec.args);
    x :- out.AddString(f.spec.printerKind);
    x :- out.AddString(f.spec.gpuAPI);
    x :- out.AddInt64(f.spec.gpuMinVRAMMB);
    r := Ok(out.data);
  }

  method CanonAssignment(f: AssignmentRow) returns (r: Result)
    ensures r == Returned(f.AsRow(), f.Go())
    ensures r.Ok? ==> Spells(r.value, "sohocloud/assignment/v0",
      [VStr(GoText(f.jobID)), VStr(GoText(f.nodeID)), VStr(GoText(f.spec.workload)), VStr(GoText(f.spec.image)),
       VRep(ArgRows(GoArgs(f.spec.args))), VStr(GoText(f.spec.printerKind)), VStr(GoText(f.spec.gpuAPI)),
       IntV(GoInt(f.spec.gpuMinVRAMMB)), IntV(GoInt(f.fee.contributorShareBps)), IntV(GoInt(f.fee.platformFeeBps)),
       VTime(GoTime(f.offeredAt))])
  {
    hide Expected, Returned, ByteArray.Valid, Ordered, Means, Utf8.Encode, Ascii, Spells;
    hide GoText, GoInt, GoUint, GoTime, GoIndex;
    f.Meant();
    ReturnedSpells(f.AsRow(), f.Go(), "sohocloud/assignment/v0");
    var out := new ByteArray("sohocloud/assignment/v0", f.AsRow());
    var x: bytes;
    x :- out.AddString(f.jobID);
    x :- out.AddString(f.nodeID);
    x :- AddSpec(out, f);
    x :- out.AddInt64(f.fee.contributorShareBps);
    x :- out.AddInt64(f.fee.platformFeeBps);
    x :- out.AddTime(f.offeredAt);
    Completed(out);
    r := Ok(out.data);
  }

  method CanonDecline(f: DeclineRow) returns (r: Result)
    ensures r == Returned(f.AsRow(), f.Go())
    ensures r.Ok? ==> Spells(r.value, "sohocloud/decline/v0",
      [VStr(GoText(f.jobID)), VStr(GoText(f.nodeID)), VStr(GoText(f.reason)), VTime(GoTime(f.declinedAt))])
  {
    hide Expected, Returned, ByteArray.Valid, Ordered, Means, Utf8.Encode, Ascii, Spells;
    hide GoText, GoInt, GoUint, GoTime, GoIndex;
    f.Meant();
    ReturnedSpells(f.AsRow(), f.Go(), "sohocloud/decline/v0");
    var out := new ByteArray("sohocloud/decline/v0", f.AsRow());
    var x: bytes;
    x :- out.AddString(f.jobID);
    x :- out.AddString(f.nodeID);
    x :- out.AddString(f.reason);
    x :- out.AddTime(f.declinedAt);
    Completed(out);
    r := Ok(out.data);
  }

  method AddOutcome(out: ByteArray, f: JobReportRow) returns (r: Result)
    requires out.Valid() && out.row == f.AsRow() && out.done == 3
    modifies out`data, out`done
    ensures if r.Ok? then out.Valid() && out.done == 7 else Expected(out.row) == ValueError
  {
    hide Expected, Returned, ByteArray.Valid, Ordered, Means, Utf8.Encode, TagBytes;
    var x;
    x :- out.AddString(f.failureCause);
    out.AddBool(f.tmpfsExhausted);
    x :- out.AddTime(f.startedAt);
    x :- out.AddTime(f.finishedAt);
    r := Ok(out.data);
  }

  method CanonJobReport(f: JobReportRow) returns (r: Result)
    ensures r == Returned(f.AsRow(), f.Go())
    ensures r.Ok? ==> Spells(r.value, "sohocloud/jobreport/v0",
      [VStr(GoText(f.jobID)), VStr(GoText(f.nodeID)), IntV(GoInt(f.exitCode)), VStr(GoText(f.failureCause)),
       VBool(f.tmpfsExhausted), VTime(GoTime(f.startedAt)), VTime(GoTime(f.finishedAt))])
  {
    hide Expected, Returned, ByteArray.Valid, Ordered, Means, Utf8.Encode, Ascii, Spells;
    hide GoText, GoInt, GoUint, GoTime, GoIndex;
    f.Meant();
    ReturnedSpells(f.AsRow(), f.Go(), "sohocloud/jobreport/v0");
    var out := new ByteArray("sohocloud/jobreport/v0", f.AsRow());
    var x: bytes;
    x :- out.AddString(f.jobID);
    x :- out.AddString(f.nodeID);
    x :- out.AddInt64(f.exitCode);
    x :- AddOutcome(out, f);
    Completed(out);
    r := Ok(out.data);
  }

  method CanonFeeDeclaration(f: FeeDeclarationRow) returns (r: Result)
    ensures r == Returned(f.AsRow(), f.Go())
    ensures r.Ok? ==> Spells(r.value, "sohocloud/fee/v0",
      [VStr(GoText(f.coordinatorID)), IntV(GoInt(f.fee.contributorShareBps)), IntV(GoInt(f.fee.platformFeeBps)),
       VTime(GoTime(f.effectiveAt)), VWord(GoUint(f.seqNo))])
  {
    hide Expected, Returned, ByteArray.Valid, Ordered, Means, Utf8.Encode, Ascii, Spells;
    hide GoText, GoInt, GoUint, GoTime, GoIndex;
    f.Meant();
    ReturnedSpells(f.AsRow(), f.Go(), "sohocloud/fee/v0");
    var out := new ByteArray("sohocloud/fee/v0", f.AsRow());
    var x: bytes;
    x :- out.AddString(f.coordinatorID);
    x :- out.AddInt64(f.fee.contributorShareBps);
    x :- out.AddInt64(f.fee.platformFeeBps);
    x :- out.AddTime(f.effectiveAt);
    x :- out.AddUint64(f.seqNo);
    Completed(out);
    r := Ok(out.data);
  }

  method AddLeaseTerms(out: ByteArray, f: StorageLeaseRow) returns (r: Result)
    requires out.Valid() && out.row == f.AsRow() && out.done == 4
    modifies out`data, out`done
    ensures if r.Ok? then out.Valid() && out.done == 9 else Expected(out.row) == ValueError
  {
    hide Expected, Returned, ByteArray.Valid, Ordered, Means, Utf8.Encode, TagBytes;
    var x;
    x :- out.AddInt64(f.fee.contributorShareBps);
    x :- out.AddInt64(f.fee.platformFeeBps);
    x :- out.AddTime(f.issuedAt);
    x :- out.AddTime(f.expiresAt);
    x :- out.AddUint64(f.seqNo);
    r := Ok(out.data);
  }

  method CanonStorageLease(f: StorageLeaseRow) returns (r: Result)
    ensures r == Returned(f.AsRow(), f.Go())
    ensures r.Ok? ==> Spells(r.value, "sohocloud/lease/v0",
      [VStr(GoText(f.leaseID)), VStr(GoText(f.nodeID)), VStr(f.shardRef), IntV(GoInt(f.sizeClass)),
       IntV(GoInt(f.fee.contributorShareBps)), IntV(GoInt(f.fee.platformFeeBps)), VTime(GoTime(f.issuedAt)),
       VTime(GoTime(f.expiresAt)), VWord(GoUint(f.seqNo))])
  {
    hide Expected, Returned, ByteArray.Valid, Ordered, Means, Utf8.Encode, Ascii, Spells;
    hide GoText, GoInt, GoUint, GoTime, GoIndex;
    f.Meant();
    ReturnedSpells(f.AsRow(), f.Go(), "sohocloud/lease/v0");
    var out := new ByteArray("sohocloud/lease/v0", f.AsRow());
    var x: bytes;
    x :- out.AddString(f.leaseID);
    x :- out.AddString(f.nodeID);
    out.AddBytes(f.shardRef);
    x :- out.AddInt64(f.sizeClass);
    x :- AddLeaseTerms(out, f);
    Completed(out);
    r := Ok(out.data);
  }

  method CanonLeaseDecline(f: LeaseDeclineRow) returns (r: Result)
    ensures r == Returned(f.AsRow(), f.Go())
    ensures r.Ok? ==> Spells(r.value, "sohocloud/lease-decline/v0",
      [VStr(GoText(f.leaseID)), VStr(GoText(f.nodeID)), VStr(GoText(f.reason)), VTime(GoTime(f.declinedAt))])
  {
    hide Expected, Returned, ByteArray.Valid, Ordered, Means, Utf8.Encode, Ascii, Spells;
    hide GoText, GoInt, GoUint, GoTime, GoIndex;
    f.Meant();
    ReturnedSpells(f.AsRow(), f.Go(), "sohocloud/lease-decline/v0");
    var out := new ByteArray("sohocloud/lease-decline/v0", f.AsRow());
    var x: bytes;
    x :- out.AddString(f.leaseID);
    x :- out.AddString(f.nodeID);
    x :- out.AddString(f.reason);
    x :- out.AddTime(f.declinedAt);
    Completed(out);
    r := Ok(out.data);
  }

  method CanonLeaseRelease(f: LeaseReleaseRow) returns (r: Result)
    ensures r == Returned(f.AsRow(), f.Go())
    ensures r.Ok? ==> Spells(r.value, "sohocloud/lease-release/v0",
      [VStr(GoText(f.leaseID)), VStr(GoText(f.nodeID)), VTime(GoTime(f.releasedAt))])
  {
    hide Expected, Returned, ByteArray.Valid, Ordered, Means, Utf8.Encode, Ascii, Spells;
    hide GoText, GoInt, GoUint, GoTime, GoIndex;
    f.Meant();
    ReturnedSpells(f.AsRow(), f.Go(), "sohocloud/lease-release/v0");
    var out := new ByteArray("sohocloud/lease-release/v0", f.AsRow());
    var x: bytes;
    x :- out.AddString(f.leaseID);
    x :- out.AddString(f.nodeID);
    x :- out.AddTime(f.releasedAt);
    Completed(out);
    r := Ok(out.data);
  }

  method CanonProofResponse(f: ProofResponseRow) returns (r: Result)
    ensures r == Returned(f.AsRow(), f.Go())
    ensures r.Ok? ==> Spells(r.value, "sohocloud/proof/v0",
      [VStr(GoText(f.leaseID)), VStr(GoText(f.nodeID)), IntV(GoInt(f.offset)), IntV(GoInt(f.length)),
       VStr(f.proofNonce), VStr(f.digest), VTime(GoTime(f.respondedAt))])
  {
    hide Expected, Returned, ByteArray.Valid, Ordered, Means, Utf8.Encode, Ascii, Spells;
    hide GoText, GoInt, GoUint, GoTime, GoIndex;
    f.Meant();
    ReturnedSpells(f.AsRow(), f.Go(), "sohocloud/proof/v0");
    var out := new ByteArray("sohocloud/proof/v0", f.AsRow());
    var x: bytes;
    x :- out.AddString(f.leaseID);
    x :- out.AddString(f.nodeID);
    x :- out.AddInt64(f.offset);
    x :- out.AddInt64(f.length);
    out.AddBytes(f.proofNonce);
    out.AddBytes(f.digest);
    x :- out.AddTime(f.respondedAt);
    Completed(out);
    r := Ok(out.data);
  }

  method CanonKeyRotation(f: KeyRotationRow) returns (r: Result)
    ensures r == Returned(f.AsRow(), f.Go())
    ensures r.Ok? ==> Spells(r.value, "sohocloud/node-rotate/v0",
      [VStr(GoText(f.nodeID)), VStr(f.newPublicKey), VStr(GoText(f.algo)), VTime(GoTime(f.rotatedAt)),
       VWord(GoUint(f.seqNo))])
  {
    hide Expected, Returned, ByteArray.Valid, Ordered, Means, Utf8.Encode, Ascii, Spells;
    hide GoText, GoInt, GoUint, GoTime, GoIndex;
    f.Meant();
    ReturnedSpells(f.AsRow(), f.Go(), "sohocloud/node-rotate/v0");
    var out := new ByteArray("sohocloud/node-rotate/v0", f.AsRow());
    var x: bytes;
    x :- out.AddString(f.nodeID);
    out.AddBytes(f.newPublicKey);
    x :- out.AddString(f.algo);
    x :- out.AddTime(f.rotatedAt);
    x :- out.AddUint64(f.seqNo);
    Completed(out);
    r := Ok(out.data);
  }

  method CanonKeyRevocation(f: KeyRevocationRow) returns (r: Result)
    ensures r == Returned(f.AsRow(), f.Go())
    ensures r.Ok? ==> Spells(r.value, "sohocloud/node-revoke/v0",
      [VStr(GoText(f.nodeID)), VStr(f.revokedPublicKey), VTime(GoTime(f.revokedAt)), VWord(GoUint(f.seqNo))])
  {
    hide Expected, Returned, ByteArray.Valid, Ordered, Means, Utf8.Encode, Ascii, Spells;
    hide GoText, GoInt, GoUint, GoTime, GoIndex;
    f.Meant();
    ReturnedSpells(f.AsRow(), f.Go(), "sohocloud/node-revoke/v0");
    var out := new ByteArray("sohocloud/node-revoke/v0", f.AsRow());
    var x: bytes;
    x :- out.AddString(f.nodeID);
    out.AddBytes(f.revokedPublicKey);
    x :- out.AddTime(f.revokedAt);
    x :- out.AddUint64(f.seqNo);
    Completed(out);
    r := Ok(out.data);
  }

  method AddTransmissionEnd(out: ByteArray, f: OperatorTransmissionRow) returns (r: Result)
    requires out.Valid() && out.row == f.AsRow() && out.done == 4
    modifies out`data, out`done
    ensures if r.Ok? then out.Valid() && out.done == 7 else Expected(out.row) == ValueError
  {
    hide Expected, Returned, ByteArray.Valid, Ordered, Means, Utf8.Encode, TagBytes;
    var x;
    x :- out.AddString(f.algo);
    x :- out.AddIndex(f.idx0);
    x :- out.AddIndex(f.idx1);
    r := Ok(out.data);
  }

  method CanonOperatorTransmission(f: OperatorTransmissionRow) returns (r: Result)
    ensures r == Returned(f.AsRow(), f.Go())
    ensures r.Ok? ==> Spells(r.value, "sohocloud/operator/v0",
      [VStr(GoText(f.operatorID)), IntV(GoInt(f.tsUnixNano)), VStr(f.nonce), VWord(GoUint(f.seqNo)),
       VStr(GoText(f.algo)), IntV(GoIndex(f.idx0)), IntV(GoIndex(f.idx1))])
  {
    hide Expected, Returned, ByteArray.Valid, Ordered, Means, Utf8.Encode, Ascii, Spells;
    hide GoText, GoInt, GoUint, GoTime, GoIndex;
    f.Meant();
    ReturnedSpells(f.AsRow(), f.Go(), "sohocloud/operator/v0");
    var out := new ByteArray("sohocloud/operator/v0", f.AsRow());
    var x: bytes;
    x :- out.AddString(f.operatorID);
    x :- out.AddInt64(f.tsUnixNano);
    out.AddBytes(f.nonce);
    x :- out.AddUint64(f.seqNo);
    x :- AddTransmissionEnd(out, f);
    Completed(out);
    r := Ok(out.data);
  }

  method AddRotationEnd(out: ByteArray, f: OperatorRotationRow) returns (r: Result)
    requires out.Valid() && out.row == f.AsRow() && out.done == 3
    modifies out`data, out`done
    ensures if r.Ok? then out.Valid() && out.done == 9 else Expected(out.row) == ValueError
  {
    hide Expected, Returned, ByteArray.Valid, Ordered, Means, Utf8.Encode, TagBytes;
    var x;
    x :- out.AddString(f.algo);
    x :- out.AddInt64(f.tsUnixNano);
    out.AddBytes(f.nonce);
    x :- out.AddUint64(f.seqNo);
    x :- out.AddIndex(f.idx0);
    x :- out.AddIndex(f.idx1);
    r := Ok(out.data);
  }

  method CanonOperatorRotation(f: OperatorRotationRow) returns (r: Result)
    ensures r == Returned(f.AsRow(), f.Go())
    ensures r.Ok? ==> Spells(r.value, "sohocloud/operator-rotate/v0",
      [VStr(GoText(f.operatorID)), IntV(GoIndex(f.keyIndex)), VStr(f.newPublicKey), VStr(GoText(f.algo)),
       IntV(GoInt(f.tsUnixNano)), VStr(f.nonce), VWord(GoUint(f.seqNo)), IntV(GoIndex(f.idx0)),
       IntV(GoIndex(f.idx1))])
  {
    hide Expected, Returned, ByteArray.Valid, Ordered, Means, Utf8.Encode, Ascii, Spells;
    hide GoText, GoInt, GoUint, GoTime, GoIndex;
    f.Meant();
    ReturnedSpells(f.AsRow(), f.Go(), "sohocloud/operator-rotate/v0");
    var out := new ByteArray("sohocloud/operator-rotate/v0", f.AsRow());
    var x: bytes;
    x :- out.AddString(f.operatorID);
    x :- out.AddIndex(f.keyIndex);
    out.AddBytes(f.newPublicKey);
    x :- AddRotationEnd(out, f);
    Completed(out);
    r := Ok(out.data);
  }

  method CanonConformanceResponse(f: ConformanceResponseRow) returns (r: Result)
    ensures r == Returned(f.AsRow(), f.Go())
    ensures r.Ok? ==> Spells(r.value, "sohocloud/operator-conformance/v0",
      [VStr(GoText(f.operatorID)), VStr(f.challenge), VStr(GoText(f.algo)), IntV(GoIndex(f.idx0)),
       IntV(GoIndex(f.idx1))])
  {
    hide Expected, Returned, ByteArray.Valid, Ordered, Means, Utf8.Encode, Ascii, Spells;
    hide GoText, GoInt, GoUint, GoTime, GoIndex;
    f.Meant();
    ReturnedSpells(f.AsRow(), f.Go(), "sohocloud/operator-conformance/v0");
    var out := new ByteArray("sohocloud/operator-conformance/v0", f.AsRow());
    var x: bytes;
    x :- out.AddString(f.operatorID);
    out.AddBytes(f.challenge);
    x :- out.AddString(f.algo);
    x :- out.AddIndex(f.idx0);
    x :- out.AddIndex(f.idx1);
    Completed(out);
    r := Ok(out.data);
  }
}
