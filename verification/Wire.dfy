/** The field encoding every message shares, and the parser that shows it uniquely decodable.
    A message's signed payload is a list of values; a value's shape is fixed by its message type. */
module Wire {
  import opened Bytes
  import opened Instants

  datatype Shape = SStr | SFixed(len: nat) | SWord | SBool | STime | SRep(row: seq<Shape>)

  datatype Value =
    | VStr(s: Slice<byte>)                // string or []byte: length prefix, then the bytes
    | VWord(u: uint64)                    // uint64, or int64 as two's complement
    | VBool(v: bool)
    | VTime(t: Instant)                   // int64 nanoseconds, or nothing at all when out of range
    | VRep(rows: Slice<Row>)              // count, then each element's fields inline
  datatype Row = Row(fields: seq<Value>)

  /** Nanoseconds of an instant as the eight-byte word that carries them. */
  function TimeWord(t: Instant): uint64 {
    AsUint64(UnixNano(t))
  }

  function Encode(v: Value): bytes {
    match v
    case VStr(s) => Uvarint(|s|) + s
    case VWord(u) => Word(u)
    case VBool(b) => [if b then 1 else 0]
    case VTime(t) => if ValidTime(t) then Word(TimeWord(t)) else []
    case VRep(rows) => Uvarint(|rows|) + EncodeRows(rows)
  }

  function EncodeAll(vs: seq<Value>): bytes {
    if vs == [] then [] else Encode(vs[0]) + EncodeAll(vs[1..])
  }

  function EncodeRows(rows: seq<Row>): bytes {
    if rows == [] then [] else EncodeAll(rows[0].fields) + EncodeRows(rows[1..])
  }

  /** The value has the shape, and every time inside it is representable. */
  predicate Fits(v: Value, sh: Shape)
    decreases sh, 0
  {
    match sh
    case SStr => v.VStr?
    case SFixed(n) => v.VStr? && |v.s| == n
    case SWord => v.VWord?
    case SBool => v.VBool?
    case STime => v.VTime? && ValidTime(v.t)
    case SRep(row) => v.VRep? && FitRows(v.rows, row)
  }

  predicate FitAll(vs: seq<Value>, shs: seq<Shape>)
    decreases shs, 0
  {
    if shs == [] then vs == []
    else vs != [] && Fits(vs[0], shs[0]) && FitAll(vs[1..], shs[1..])
  }

  predicate FitRows(rows: seq<Row>, row: seq<Shape>)
    decreases row, |rows| + 1
  {
    rows == [] || (FitAll(rows[0].fields, row) && FitRows(rows[1..], row))
  }

  /** Fitting a list of shapes, position by position. */
  lemma {:induction false} FitAllAt(vs: seq<Value>, shs: seq<Shape>)
    ensures FitAll(vs, shs) <==> |vs| == |shs| && forall i :: 0 <= i < |shs| ==> Fits(vs[i], shs[i])
  {
    if shs != [] && vs != [] {
      FitAllAt(vs[1..], shs[1..]);
      assert |vs| == |shs| ==> forall i :: 1 <= i < |shs| ==> vs[i] == vs[1..][i - 1] && shs[i] == shs[1..][i - 1];
    }
  }

  /** What stands on the wire, read independently of the encoder: a varint-shaped length or count in front of bytes or
      elements, eight-byte big-endian words, 0 or 1 for a bool, and nothing for a time out of range. */
  lemma WireBytes(v: Value)
    ensures var e := Encode(v);
      match v
      case VStr(s) =>
        && |s| < |e| && e[|e| - |s|..] == s
        && VarintForm(e[..|e| - |s|]) && VarintValue(e[..|e| - |s|]) == |s|
      case VWord(u) => |e| == 8 && FromBigEndian(e) == u
      case VBool(b) => |e| == 1 && (b ==> e[0] == 1) && (!b ==> e[0] == 0)
      case VTime(t) =>
        if -TWO_63 <= Nanos(t) < TWO_63
        then |e| == 8 && FromBigEndian(e) == if Nanos(t) < 0 then Nanos(t) + TWO_64 else Nanos(t)
        else e == []
      case VRep(rows) =>
        var n := |e| - |EncodeRows(rows)|;
        0 < n && e[n..] == EncodeRows(rows) && VarintForm(e[..n]) && VarintValue(e[..n]) == |rows|
  {
    hide Uvarint, VarintForm, VarintValue, BigEndian, FromBigEndian;
    WordRange();
    match v
    case VStr(s) =>
      UvarintShape(|s|);
      assert Encode(v)[..|Uvarint(|s|)|] == Uvarint(|s|);
    case VWord(u) => BigEndianRoundTrip(u, 8);
    case VBool(_) =>
    case VTime(t) =>
      ValidTimeExact(t);
      if ValidTime(t) {
        UnixNanoExact(t);
        BigEndianRoundTrip(TimeWord(t), 8);
      }
    case VRep(rows) =>
      UvarintShape(|rows|);
      assert Encode(v)[..|Uvarint(|rows|)|] == Uvarint(|rows|);
  }

  // ---------------------------------------------------------------- the parser

  function ParseStr(b: bytes): (r: Option<(Slice<byte>, bytes)>)
    ensures r.Some? ==> b == Uvarint(|r.value.0|) + r.value.0 + r.value.1
  {
    match ParseUvarint(b)
    case None => None
    case Some((n, rest)) =>
      if n > |rest| || n >= TWO_63 then None
      else
        assert rest == rest[..n] + rest[n..];
        Some((rest[..n], rest[n..]))
  }

  lemma ParseStrDecodes(s: Slice<byte>, rest: bytes)
    ensures ParseStr(Uvarint(|s|) + s + rest) == Some((s, rest))
  {
    hide Uvarint, ParseUvarint;
    Assoc(Uvarint(|s|), s, rest);
    UvarintDecodes(|s|, Uvarint(|s|) + s + rest, s + rest);
    assert (s + rest)[..|s|] == s && (s + rest)[|s|..] == rest;
  }

  /** The bytes are a tag, character by character the given one, followed by the payload. */
  ghost predicate Spells(b: bytes, tag: string, payload: seq<Value>) {
    && ParseStr(b).Some?
    && var (t, body) := ParseStr(b).value;
    && |t| == |tag| && (forall i :: 0 <= i < |tag| ==> t[i] == tag[i] as int) && body == EncodeAll(payload)
  }

  function Parse(sh: Shape, b: bytes): (r: Option<(Value, bytes)>)
    decreases sh, 0
  {
    match sh
    case SStr => (
      match ParseStr(b)
      case None => None
      case Some((s, rest)) => Some((VStr(s), rest)))
    case SFixed(n) => (
      match ParseStr(b)
      case None => None
      case Some((s, rest)) => if |s| != n then None else Some((VStr(s), rest)))
    case SWord => (
      match ParseWord(b)
      case None => None
      case Some((u, rest)) => Some((VWord(u), rest)))
    case SBool =>
      if b == [] || b[0] > 1 then None else Some((VBool(b[0] == 1), b[1..]))
    case STime => (
      match ParseWord(b)
      case None => None
      case Some((u, rest)) =>
        UnixNanoBijective(UnixOfNanos(AsInt64(u)), AsInt64(u));
        Some((VTime(UnixOfNanos(AsInt64(u))), rest)))
    case SRep(row) => (
      match ParseUvarint(b)
      case None => None
      case Some((n, rest)) =>
        if n >= TWO_63 then None
        else
          match ParseRows(row, n, rest)
          case None => None
          case Some((rows, tail)) => Some((VRep(rows), tail)))
  }

  function ParseAll(shs: seq<Shape>, b: bytes): (r: Option<(seq<Value>, bytes)>)
    decreases shs, 0
  {
    if shs == [] then Some(([], b))
    else
      match Parse(shs[0], b)
      case None => None
      case Some((v, rest)) =>
        match ParseAll(shs[1..], rest)
        case None => None
        case Some((vs, tail)) =>
          Some(([v] + vs, tail))
  }

  function ParseRows(row: seq<Shape>, n: nat, b: bytes): (r: Option<(seq<Row>, bytes)>)
    ensures r.Some? ==> |r.value.0| == n
    decreases row, n + 1
  {
    if n == 0 then Some(([], b))
    else
      match ParseAll(row, b)
      case None => None
      case Some((vs, rest)) =>
        match ParseRows(row, n - 1, rest)
        case None => None
        case Some((rows, tail)) => Some(([Row(vs)] + rows, tail))
  }

  /** Whatever the parser reads is the encoding of a well-shaped value, with nothing skipped. */
  lemma {:induction false} ParseSound(sh: Shape, b: bytes)
    requires Parse(sh, b).Some?
    ensures var (v, rest) := Parse(sh, b).value; Fits(v, sh) && b == Encode(v) + rest
    decreases sh, 0
  {
    match sh
    case SStr =>
    case SFixed(_) =>
    case SWord =>
    case SBool =>
      assert b == [b[0]] + b[1..];
    case STime =>
      var (u, rest) := ParseWord(b).value;
      UnixNanoBijective(UnixOfNanos(AsInt64(u)), AsInt64(u));
    case SRep(row) =>
      var (n, rest) := ParseUvarint(b).value;
      ParseRowsSound(row, n, rest);
      var (rows, tail) := ParseRows(row, n, rest).value;
      assert b == Uvarint(n) + (EncodeRows(rows) + tail);
  }

  lemma {:induction false} ParseAllSound(shs: seq<Shape>, b: bytes)
    requires ParseAll(shs, b).Some?
    ensures var (vs, rest) := ParseAll(shs, b).value; FitAll(vs, shs) && b == EncodeAll(vs) + rest
    decreases shs, 0
  {
    if shs != [] {
      var (v, rest) := Parse(shs[0], b).value;
      var (vs, tail) := ParseAll(shs[1..], rest).value;
      ParseSound(shs[0], b);
      ParseAllSound(shs[1..], rest);
      assert ([v] + vs)[1..] == vs;
    }
  }

  lemma {:induction false} ParseRowsSound(row: seq<Shape>, n: nat, b: bytes)
    requires ParseRows(row, n, b).Some?
    ensures var (rows, rest) := ParseRows(row, n, b).value;
      FitRows(rows, row) && b == EncodeRows(rows) + rest
    decreases row, n + 1
  {
    if n > 0 {
      var (vs, rest) := ParseAll(row, b).value;
      var (rows, tail) := ParseRows(row, n - 1, rest).value;
      ParseAllSound(row, b);
      ParseRowsSound(row, n - 1, rest);
      assert ([Row(vs)] + rows)[1..] == rows;
    }
  }

  lemma {:induction false} ParseEncode(sh: Shape, v: Value, rest: bytes)
    requires Fits(v, sh)
    ensures Parse(sh, Encode(v) + rest) == Some((v, rest))
    decreases sh, 0
  {
    var b := Encode(v) + rest;
    match v
    case VStr(s) =>
      ParseStrDecodes(s, rest);
    case VWord(u) => WordDecodes(u, rest);
    case VBool(_) =>
    case VTime(t) =>
      WordDecodes(TimeWord(t), rest);
      UnixNanoBijective(t, UnixNano(t));
    case VRep(rows) =>
      assert b == Uvarint(|rows|) + (EncodeRows(rows) + rest);
      UvarintDecodes(|rows|, b, EncodeRows(rows) + rest);
      ParseEncodeRows(sh.row, rows, rest);
  }

  lemma {:induction false} ParseEncodeAll(shs: seq<Shape>, vs: seq<Value>, rest: bytes)
    requires FitAll(vs, shs)
    ensures ParseAll(shs, EncodeAll(vs) + rest) == Some((vs, rest))
    decreases shs, 0
  {
    if shs == [] {
      assert EncodeAll(vs) + rest == rest;
    } else {
      assert EncodeAll(vs) + rest == Encode(vs[0]) + (EncodeAll(vs[1..]) + rest);
      ParseEncode(shs[0], vs[0], EncodeAll(vs[1..]) + rest);
      ParseEncodeAll(shs[1..], vs[1..], rest);
      assert vs == [vs[0]] + vs[1..];
    }
  }

  lemma {:induction false} ParseEncodeRows(row: seq<Shape>, rows: seq<Row>, rest: bytes)
    requires FitRows(rows, row)
    ensures ParseRows(row, |rows|, EncodeRows(rows) + rest) == Some((rows, rest))
    decreases row, |rows| + 1
  {
    if rows == [] {
      assert EncodeRows(rows) + rest == rest;
    } else {
      assert EncodeRows(rows) + rest == EncodeAll(rows[0].fields) + (EncodeRows(rows[1..]) + rest);
      ParseEncodeAll(row, rows[0].fields, EncodeRows(rows[1..]) + rest);
      ParseEncodeRows(row, rows[1..], rest);
      assert rows == [Row(rows[0].fields)] + rows[1..];
    }
  }

  // ---------------------------------------------------------------- appending

  lemma Assoc(a: bytes, b: bytes, c: bytes)
    ensures a + (b + c) == a + b + c
  {}

  lemma {:induction false} EncodeConcat(vs: seq<Value>, ws: seq<Value>)
    ensures EncodeAll(vs + ws) == EncodeAll(vs) + EncodeAll(ws)
  {
    hide Encode;
    if vs == [] {
      assert vs + ws == ws;
    } else {
      EncodeConcat(vs[1..], ws);
      assert (vs + ws)[1..] == vs[1..] + ws;
      Assoc(Encode(vs[0]), EncodeAll(vs[1..]), EncodeAll(ws));
    }
  }

  lemma EncodeOne(v: Value)
    ensures EncodeAll([v]) == Encode(v)
  {
    assert EncodeAll([v][1..]) == [];
  }

  lemma {:induction false} EncodeRowsSnoc(rows: seq<Row>, row: Row)
    ensures EncodeRows(rows + [row]) == EncodeRows(rows) + EncodeAll(row.fields)
  {
    hide EncodeAll;
    if rows == [] {
      assert rows + [row] == [row] && EncodeRows([row][1..]) == [];
    } else {
      EncodeRowsSnoc(rows[1..], row);
      assert (rows + [row])[1..] == rows[1..] + [row];
      Assoc(EncodeAll(rows[0].fields), EncodeRows(rows[1..]), EncodeAll(row.fields));
    }
  }
}
