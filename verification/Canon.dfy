/** canon.Buffer: a byte accumulator with a latched error (canon/canon.go). */
module Canon {
  import opened Bytes
  import opened Instants
  import opened Wire

  datatype Error = Nil | ErrTimeOutOfRange

  /** encoding/binary.PutUvarint into a MaxVarintLen64 scratch array. */
  method PutUvarint(tmp: array<byte>, v: uint64) returns (m: nat)
    requires tmp.Length == 10
    modifies tmp
    ensures m <= 10 && tmp[..m] == Uvarint(v)
  {
    UvarintFitsTenBytes(v);
    var x: nat := v;
    m := 0;
    while x >= 128
      invariant m + |Uvarint(x)| == |Uvarint(v)| <= 10
      invariant tmp[..m] + Uvarint(x) == Uvarint(v)
    {
      ghost var done, group := tmp[..m], x % 128 + 128;
      tmp[m] := x % 128 + 128;
      assert tmp[..m + 1] == done + [group];
      assert done + Uvarint(x) == done + [group] + Uvarint(x / 128);
      m, x := m + 1, x / 128;
    }
    ghost var done := tmp[..m];
    tmp[m] := x;
    m := m + 1;
    assert tmp[..m] == done + [x];
  }

  lemma WordBytes(v: uint64)
    ensures Word(v) == [v / 0x100_0000_0000_0000, v / 0x1_0000_0000_0000 % 256, v / 0x100_0000_0000 % 256,
                        v / 0x1_0000_0000 % 256, v / 0x100_0000 % 256, v / 0x1_0000 % 256, v / 0x100 % 256, v % 256]
  {
    var v1, v2 := v / 0x100, v / 0x1_0000;
    var v3, v4 := v / 0x100_0000, v / 0x1_0000_0000;
    var v5, v6 := v / 0x100_0000_0000, v / 0x1_0000_0000_0000;
    var v7 := v / 0x100_0000_0000_0000;
    assert v1 / 256 == v2 && v2 / 256 == v3 && v3 / 256 == v4 && v4 / 256 == v5 && v5 / 256 == v6 && v6 / 256 == v7;
    assert v7 < 256;
    assert BigEndian(v7, 1) == BigEndian(v7 / 256, 0) + [v7];
    assert BigEndian(v6, 2) == BigEndian(v7, 1) + [v6 % 256];
    assert BigEndian(v5, 3) == BigEndian(v6, 2) + [v5 % 256];
    assert BigEndian(v4, 4) == BigEndian(v5, 3) + [v4 % 256];
    assert BigEndian(v3, 5) == BigEndian(v4, 4) + [v3 % 256];
    assert BigEndian(v2, 6) == BigEndian(v3, 5) + [v2 % 256];
    assert BigEndian(v1, 7) == BigEndian(v2, 6) + [v1 % 256];
    assert BigEndian(v, 8) == BigEndian(v1, 7) + [v % 256];
  }

  /** binary.BigEndian.PutUint64 into tmp[at:]: the eight shifts, written in place. */
  method PutUint64(tmp: array<byte>, at: nat, v: uint64)
    requires at + 8 <= tmp.Length
    modifies tmp
    ensures tmp[at..at + 8] == Word(v)
    ensures tmp[..at] == old(tmp[..at]) && tmp[at + 8..] == old(tmp[at + 8..])
  {
    tmp[at] := v / 0x100_0000_0000_0000;
    tmp[at + 1] := v / 0x1_0000_0000_0000 % 256;
    tmp[at + 2] := v / 0x100_0000_0000 % 256;
    tmp[at + 3] := v / 0x1_0000_0000 % 256;
    tmp[at + 4] := v / 0x100_0000 % 256;
    tmp[at + 5] := v / 0x1_0000 % 256;
    tmp[at + 6] := v / 0x100 % 256;
    tmp[at + 7] := v % 256;
    WordBytes(v);
  }

  /** Some time among the values is out of range. */
  ghost predicate Skips(vs: seq<Value>) {
    exists i :: 0 <= i < |vs| && vs[i].VTime? && !ValidTime(vs[i].t)
  }

  class Buffer {
    var b: bytes
    var err: Error
    ghost var written: seq<Value>   // the values appended so far

    /** The bytes are those of the values written; the error is latched exactly when one of them was skipped. */
    ghost predicate Valid()
      reads this
    {
      b == EncodeAll(written) && (err == ErrTimeOutOfRange <==> Skips(written))
    }

    constructor New(domainTag: Slice<byte>)
      ensures Valid() && err == Nil && written == [VStr(domainTag)]
    {
      b, err, written := [], Nil, [];
      new;
      String(domainTag);
    }

    ghost method Wrote(v: Value)
      requires b == EncodeAll(written) + Encode(v)
      requires err == ErrTimeOutOfRange <==> Skips(written) || (v.VTime? && !ValidTime(v.t))
      modifies `written
      ensures written == old(written) + [v] && Valid()
    {
      EncodeConcat(written, [v]);
      EncodeOne(v);
      var vs := written;
      written := written + [v];
      assert written[|vs|] == v && forall i :: 0 <= i < |vs| ==> written[i] == vs[i];
    }

    /** Once a list's count and elements are on the wire, they stand as one value. */
    ghost method CloseList(fs: seq<Value>, rows: Slice<Row>)
      requires b == EncodeAll(fs) + Uvarint(|rows|) + EncodeRows(rows)
      requires err == ErrTimeOutOfRange <==> Skips(fs)
      modifies `written
      ensures written == fs + [VRep(rows)] && Valid()
    {
      written := fs;
      Wrote(VRep(rows));
    }

    method Count(n: int64)
      modifies `b
      ensures b == old(b) + Uvarint(AsUint64(n))
    {
      var tmp := new byte[10];
      var m := PutUvarint(tmp, AsUint64(n));
      b := b + tmp[..m];
    }

    method String(s: Slice<byte>)
      modifies this
      ensures b == old(b) + Encode(VStr(s)) && err == old(err)
      ensures old(Valid()) ==> Valid() && written == old(written) + [VStr(s)]
    {
      Count(|s|);
      b := b + s;
      assert b == old(b) + Encode(VStr(s));
      if old(Valid()) { Wrote(VStr(s)); }
    }

    method Bytes(p: Slice<byte>)
      modifies this
      ensures b == old(b) + Encode(VStr(p)) && err == old(err)
      ensures old(Valid()) ==> Valid() && written == old(written) + [VStr(p)]
    {
      Count(|p|);
      b := b + p;
      assert b == old(b) + Encode(VStr(p));
      if old(Valid()) { Wrote(VStr(p)); }
    }

    method Bool(v: bool)
      modifies this
      ensures b == old(b) + Encode(VBool(v)) && err == old(err)
      ensures old(Valid()) ==> Valid() && written == old(written) + [VBool(v)]
    {
      if v { b := b + [1]; } else { b := b + [0]; }
      if old(Valid()) { Wrote(VBool(v)); }
    }

    method Uint64(v: uint64)
      modifies this
      ensures b == old(b) + Encode(VWord(v)) && err == old(err)
      ensures old(Valid()) ==> Valid() && written == old(written) + [VWord(v)]
    {
      var tmp := new byte[8];
      PutUint64(tmp, 0, v);
      assert tmp[..] == tmp[0..8];
      b := b + tmp[..];
      if old(Valid()) { Wrote(VWord(v)); }
    }

    method Int64(v: int64)
      modifies this
      ensures b == old(b) + Encode(VWord(AsUint64(v))) && err == old(err)
      ensures old(Valid()) ==> Valid() && written == old(written) + [VWord(AsUint64(v))]
    {
      Uint64(AsUint64(v));
    }

    /** An out-of-range instant appends nothing and latches the error; the first error stays. */
    method Time(t: Instant)
      modifies this
      ensures b == old(b) + Encode(VTime(t))
      ensures err == if ValidTime(t) then old(err) else ErrTimeOutOfRange
      ensures old(Valid()) ==> Valid() && written == old(written) + [VTime(t)]
    {
      if !ValidTime(t) {
        if err == Nil { err := ErrTimeOutOfRange; }
        if old(Valid()) { Wrote(VTime(t)); }
        return;
      }
      ghost var before := written;
      Int64(UnixNano(t));
      written := before;
      if old(Valid()) { Wrote(VTime(t)); }
    }

    /** nil exactly when every time written so far went on the wire. */
    method Err() returns (e: Error)
      requires Valid()
      ensures e == Nil <==> !Skips(written)
    {
      e := err;
    }

    /** The bytes of all values written: whoever knows the shapes they fit reads back exactly those values. */
    method Sum() returns (out: bytes)
      requires Valid()
      ensures out == EncodeAll(written)
      ensures forall shs :: FitAll(written, shs) ==> ParseAll(shs, out) == Some((written, []))
    {
      out := b;
      forall shs | FitAll(written, shs) ensures ParseAll(shs, out) == Some((written, [])) {
        ParseEncodeAll(shs, written, []);
        assert out + [] == out;
      }
    }
  }
}
