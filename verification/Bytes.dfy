/** Bytes, machine integers, and the two integer encodings the wire format is built from. */
module Bytes {
  datatype Option<+T> = None | Some(value: T)

  const TWO_63: int := 0x8000_0000_0000_0000
  const TWO_64: int := 0x1_0000_0000_0000_0000

  type byte = x: int | 0 <= x < 256
  type bytes = seq<byte>
  type int64 = x: int | -TWO_63 <= x < TWO_63
  type uint64 = x: int | 0 <= x < TWO_64

  /** A Go string or slice: its length is an int, so it stays below 2^63. */
  type Slice<T> = s: seq<T> | |s| < TWO_63 witness []

  /** A Go string: any bytes, usually UTF-8. */
  type Text = Slice<byte>

  /** The conversion uint64(v). */
  function AsUint64(v: int64): uint64 {
    if v < 0 then v + TWO_64 else v
  }

  /** The conversion int64(u). */
  function AsInt64(u: uint64): (v: int64)
    ensures AsUint64(v) == u
  {
    if u < TWO_63 then u else u - TWO_64
  }

  /** int64 arithmetic that overflows wraps around. */
  function Wrap64(x: int): int64 {
    AsInt64(x % TWO_64)
  }

  /** An ASCII string constant of the source as the bytes Go holds for it. */
  function Ascii(s: string): (b: bytes)
    ensures |b| == |s| && forall i :: 0 <= i < |b| ==> b[i] < 128
  {
    seq(|s|, i requires 0 <= i < |s| => s[i] as int % 128)
  }

  /** The bytes are the characters of the literal, one by one. */
  predicate Spelled(b: bytes, literal: string) {
    |b| == |literal| && forall i :: 0 <= i < |literal| ==> b[i] == literal[i] as int
  }

  // ---------------------------------------------------------------- varints

  /** Unsigned LEB128 (section 7.6 of DWARF 5): seven bits a byte, least significant group first. */
  function Uvarint(n: nat): bytes {
    if n < 128 then [n] else [n % 128 + 128] + Uvarint(n / 128)
  }

  /** Reads one varint off the front of a stream, refusing a padded (non-minimal) one. */
  function ParseUvarint(b: bytes): (r: Option<(nat, bytes)>)
    ensures r.Some? ==> b == Uvarint(r.value.0) + r.value.1
  {
    if b == [] then None
    else if b[0] < 128 then Some((b[0], b[1..]))
    else
      match ParseUvarint(b[1..])
      case None => None
      case Some((n, rest)) => if n == 0 then None else Some((n * 128 + (b[0] - 128), rest))
  }

  /** A varint is read back exactly from the front of any longer stream, and nothing else reads as it. */
  lemma {:induction false} UvarintDecodes(n: nat, b: bytes, rest: bytes)
    ensures ParseUvarint(b) == Some((n, rest)) <==> b == Uvarint(n) + rest
  {
    if b == Uvarint(n) + rest && n >= 128 {
      assert b[1..] == Uvarint(n / 128) + rest;
      UvarintDecodes(n / 128, b[1..], rest);
    }
  }

  /** No varint is a prefix of another number's varint, whatever follows them. */
  lemma UvarintPrefixFree(m: nat, n: nat, s: bytes, t: bytes)
    requires Uvarint(m) + s == Uvarint(n) + t
    ensures m == n && s == t
  {
    UvarintDecodes(m, Uvarint(m) + s, s);
    UvarintDecodes(n, Uvarint(m) + s, t);
  }

  function Pow(base: nat, k: nat): nat {
    if k == 0 then 1 else base * Pow(base, k - 1)
  }

  /** The number of bytes is decided by which power of 128 the value stays below. */
  lemma {:induction false} UvarintLength(n: nat, k: nat)
    requires k >= 1
    ensures |Uvarint(n)| <= k <==> n < Pow(128, k)
  {
    if k == 1 {
      assert Pow(128, 1) == 128 * Pow(128, 0);
    } else {
      UvarintLength(n / 128, k - 1);
      assert n / 128 < Pow(128, k - 1) <==> n < 128 * Pow(128, k - 1);
      PowPositive(128, k - 1);
      if n < 128 { assert 128 <= 128 * Pow(128, k - 1); }
    }
  }

  lemma {:induction false} PowPositive(base: nat, k: nat)
    requires base > 0
    ensures Pow(base, k) > 0
  {
    if k > 0 { PowPositive(base, k - 1); }
  }

  /** Every uint64 fits the ten-byte scratch buffer PutUvarint writes into. */
  lemma UvarintFitsTenBytes(n: uint64)
    ensures 1 <= |Uvarint(n)| <= 10
  {
    UvarintLength(n, 10);
    assert Pow(128, 5) == 0x8_0000_0000 by {
      assert Pow(128, 3) == 128 * Pow(128, 2);
      assert Pow(128, 1) == 128 * Pow(128, 0);
    }
    assert Pow(128, 7) == 128 * (128 * Pow(128, 5));
    assert Pow(128, 9) == 128 * (128 * Pow(128, 7));
  }

  /** A byte string with the varint shape: a continuation bit on every byte but the last. */
  predicate VarintForm(b: bytes) {
    b != [] && b[|b| - 1] < 128 && forall i :: 0 <= i < |b| - 1 ==> b[i] >= 128
  }

  /** The number a varint-shaped string denotes, padded or not. */
  function VarintValue(b: bytes): nat {
    if b == [] then 0 else b[0] % 128 + 128 * VarintValue(b[1..])
  }

  lemma {:induction false} UvarintShape(n: nat)
    ensures VarintForm(Uvarint(n)) && VarintValue(Uvarint(n)) == n
  {
    if n >= 128 {
      UvarintShape(n / 128);
      assert Uvarint(n)[1..] == Uvarint(n / 128);
    } else {
      assert VarintValue(Uvarint(n)[1..]) == 0;
    }
  }

  /** The encoder emits the one shortest varint-shaped string that denotes the number. */
  lemma {:induction false} UvarintIsMinimal(b: bytes)
    requires VarintForm(b)
    ensures var u := Uvarint(VarintValue(b)); |u| <= |b| && (|u| == |b| ==> b == u)
  {
    var n, tail := VarintValue(b), b[1..];
    if |b| == 1 {
      assert VarintValue(tail) == 0;
    } else {
      assert VarintForm(tail) by {
        forall i | 0 <= i < |tail| - 1 ensures tail[i] >= 128 { assert tail[i] == b[i + 1]; }
      }
      UvarintIsMinimal(tail);
      assert n / 128 == VarintValue(tail) && n % 128 == b[0] - 128;
      assert b == [b[0]] + tail;
    }
  }

  // ---------------------------------------------------------------- fixed-width words

  /** The k low bytes of n, most significant first. */
  function BigEndian(n: nat, k: nat): (b: bytes)
    ensures |b| == k
  {
    if k == 0 then [] else BigEndian(n / 256, k - 1) + [n % 256]
  }

  function FromBigEndian(b: bytes): nat {
    if b == [] then 0 else FromBigEndian(b[..|b| - 1]) * 256 + b[|b| - 1]
  }

  lemma {:induction false} BigEndianRoundTrip(n: nat, k: nat)
    requires n < Pow(256, k)
    ensures FromBigEndian(BigEndian(n, k)) == n
  {
    if k > 0 {
      BigEndianRoundTrip(n / 256, k - 1);
      assert BigEndian(n, k)[..k - 1] == BigEndian(n / 256, k - 1);
    }
  }

  lemma {:induction false} FromBigEndianRoundTrip(b: bytes)
    ensures FromBigEndian(b) < Pow(256, |b|)
    ensures BigEndian(FromBigEndian(b), |b|) == b
  {
    if b != [] {
      FromBigEndianRoundTrip(b[..|b| - 1]);
      assert b == b[..|b| - 1] + [b[|b| - 1]];
    }
  }

  lemma WordRange()
    ensures Pow(256, 8) == TWO_64
  {
    assert Pow(256, 3) == 0x100_0000 by { assert Pow(256, 2) == 256 * Pow(256, 1); }
    assert Pow(256, 5) == 256 * Pow(256, 4);
    assert Pow(256, 7) == 256 * Pow(256, 6);
  }

  /** The fixed eight-byte big-endian encoding. */
  function Word(u: uint64): (b: bytes)
    ensures |b| == 8
  {
    BigEndian(u, 8)
  }

  function ParseWord(b: bytes): (r: Option<(uint64, bytes)>)
    ensures r.Some? ==> b == Word(r.value.0) + r.value.1
  {
    if |b| < 8 then None
    else
      FromBigEndianRoundTrip(b[..8]);
      WordRange();
      Some((FromBigEndian(b[..8]), b[8..]))
  }

  lemma WordDecodes(u: uint64, rest: bytes)
    ensures ParseWord(Word(u) + rest) == Some((u, rest))
  {
    WordRange();
    BigEndianRoundTrip(u, 8);
    assert (Word(u) + rest)[..8] == Word(u);
    assert (Word(u) + rest)[8..] == rest;
  }

  lemma WordInjective(u: uint64, v: uint64, s: bytes, t: bytes)
    requires Word(u) + s == Word(v) + t
    ensures u == v && s == t
  {
    WordDecodes(u, s);
    WordDecodes(v, t);
  }
}
