/** Integers and strings as bytes. */
module Coding {
  import opened Entries

  type Byte = b: nat | b < 256
  type Uint32 = n: nat | n < 0x1_0000_0000

  const TWO_32: nat := 0x1_0000_0000
  const TWO_64: nat := 0x1_0000_0000_0000_0000

  lemma Assoc(a: seq<Byte>, b: seq<Byte>, c: seq<Byte>)
    ensures a + b + c == a + (b + c)
  {
  }

  /** What is left of a stream after something has been taken off it. */
  datatype Taken<T> = Taken(v: T, rest: seq<Byte>)

  // ----- Fixed-length integers -----

  function EncodeFixed32(n: Uint32): (r: seq<Byte>)
    ensures |r| == 4
  {
    [n % 256, n / 0x100 % 256, n / 0x1_0000 % 256, n / 0x100_0000]
  }

  function DecodeFixed32(r: seq<Byte>): Uint32
    requires |r| >= 4
  {
    var a: nat, b: nat, c: nat, d: nat := r[0], r[1], r[2], r[3];
    a + b * 0x100 + c * 0x1_0000 + d * 0x100_0000
  }

  lemma DecodeEncodeFixed32(n: Uint32, rest: seq<Byte>)
    ensures DecodeFixed32(EncodeFixed32(n) + rest) == n
  {
    var r := EncodeFixed32(n) + rest;
    assert r[..4] == EncodeFixed32(n);
    assert r[0] == n % 256 && r[1] == n / 0x100 % 256 && r[2] == n / 0x1_0000 % 256 && r[3] == n / 0x100_0000;
    assert n / 0x100 == n / 0x1_0000 * 256 + n / 0x100 % 256;
    assert n / 0x1_0000 == n / 0x100_0000 * 256 + n / 0x1_0000 % 256;
  }

  function EncodeFixed64(n: nat): (r: seq<Byte>)
    requires n < TWO_64
    ensures |r| == 8
  {
    EncodeFixed32(n % TWO_32) + EncodeFixed32(n / TWO_32)
  }

  function DecodeFixed64(b: seq<Byte>): nat
    requires |b| >= 8
  {
    var low: nat, high: nat := DecodeFixed32(b), DecodeFixed32(b[4..]);
    low + high * TWO_32
  }

  lemma Fixed64RoundTrip(n: nat, rest: seq<Byte>)
    requires n < TWO_64
    ensures |EncodeFixed64(n)| == 8 && DecodeFixed64(EncodeFixed64(n) + rest) == n
  {
    var low, high := EncodeFixed32(n % TWO_32), EncodeFixed32(n / TWO_32);
    var b := EncodeFixed64(n) + rest;
    assert b == low + (high + rest) && b[4..] == high + rest;
    DecodeEncodeFixed32(n % TWO_32, high + rest);
    DecodeEncodeFixed32(n / TWO_32, rest);
  }

  // ----- Varints -----

  /** Seven bits to a byte, the lowest first; all bytes but the last have their high bit set. */
  function EncodeVarint(v: nat): (r: seq<Byte>)
    ensures |r| >= 1
  {
    if v < 128 then [v] else [v % 128 + 128] + EncodeVarint(v / 128)
  }

  /** The number at the head of `b` and how many bytes it takes, if it ends within `max` bytes. */
  function DecodeVarint(b: seq<Byte>, max: nat): (r: Option<(nat, nat)>)
    ensures r.Some? ==> 1 <= r.value.1 <= |b| && r.value.1 <= max
    decreases max
  {
    if max == 0 || b == [] then None
    else
      var low: nat := b[0];
      if low < 128 then Some((low, 1))
      else
        match DecodeVarint(b[1..], max - 1)
        case None => None
        case Some((v, n)) => Some((low - 128 + 128 * v, n + 1))
  }

  function Power128(k: nat): nat {
    if k == 0 then 1 else 128 * Power128(k - 1)
  }

  lemma PowerStep(k: nat)
    ensures Power128(k + 2) == 0x4000 * Power128(k)
  {
  }

  /** Ten bytes hold any 64-bit number. */
  lemma Uint64FitsVarint(v: nat)
    requires v < TWO_64
    ensures v < Power128(10)
  {
    PowerStep(0);
    PowerStep(2);
    PowerStep(4);
    PowerStep(6);
    PowerStep(8);
    assert Power128(0) == 1;
    hide Power128;
  }

  lemma {:induction false} VarintRoundTrip(v: nat, max: nat, rest: seq<Byte>)
    requires max > 0 && v < Power128(max)
    ensures DecodeVarint(EncodeVarint(v) + rest, max) == Some((v, |EncodeVarint(v)|)) && |EncodeVarint(v)| <= max
    decreases max
  {
    if v >= 128 {
      var tail := EncodeVarint(v / 128);
      assert (EncodeVarint(v) + rest)[1..] == tail + rest;
      assert v / 128 < Power128(max - 1);
      VarintRoundTrip(v / 128, max - 1, rest);
    }
  }

  const MAX_VARINT32_BYTES := 5

  lemma Uint32FitsVarint(v: Uint32)
    ensures v < Power128(MAX_VARINT32_BYTES)
  {
    assert Power128(1) == 128 && Power128(2) == 0x4000 && Power128(3) == 0x20_0000 && Power128(4) == 0x1000_0000;
  }

  /** Reads a 32-bit varint; the bits that do not fit are lost. */
  function GetVarint32Ptr(b: seq<Byte>): (r: Option<(nat, nat)>)
    ensures r.Some? ==> 1 <= r.value.1 <= |b|
  {
    match DecodeVarint(b, MAX_VARINT32_BYTES)
    case None => None
    case Some((v, n)) => Some((v % 0x1_0000_0000, n))
  }

  lemma Varint32RoundTrip(v: nat, rest: seq<Byte>)
    requires v < 0x1_0000_0000
    ensures GetVarint32Ptr(EncodeVarint(v) + rest) == Some((v, |EncodeVarint(v)|))
  {
    Uint32FitsVarint(v);
    VarintRoundTrip(v, MAX_VARINT32_BYTES, rest);
  }

  /** The unrolled writer of 32-bit varints. */
  method PutVarint32(v: Uint32) returns (r: seq<Byte>)
    ensures r == EncodeVarint(v)
  {
    var n: nat := v;
    if n < 0x80 {
      r := [n];
    } else if n < 0x4000 {
      r := [n % 128 + 128, n / 0x80];
    } else if n < 0x20_0000 {
      r := [n % 128 + 128, n / 0x80 % 128 + 128, n / 0x4000];
      EncodeThree(n);
    } else if n < 0x1000_0000 {
      r := [n % 128 + 128, n / 0x80 % 128 + 128, n / 0x4000 % 128 + 128, n / 0x20_0000];
      EncodeFour(n);
    } else {
      r := [n % 128 + 128, n / 0x80 % 128 + 128, n / 0x4000 % 128 + 128, n / 0x20_0000 % 128 + 128, n / 0x1000_0000];
      EncodeFive(n);
    }
  }

  lemma EncodeThree(n: nat)
    requires 0x4000 <= n < 0x20_0000
    ensures EncodeVarint(n) == [n % 128 + 128, n / 0x80 % 128 + 128, n / 0x4000]
  {
    var m := n / 128;
    assert m / 128 == n / 0x4000;
    assert EncodeVarint(m) == [m % 128 + 128, m / 128];
  }

  lemma EncodeFour(n: nat)
    requires 0x20_0000 <= n < 0x1000_0000
    ensures EncodeVarint(n) == [n % 128 + 128, n / 0x80 % 128 + 128, n / 0x4000 % 128 + 128, n / 0x20_0000]
  {
    var m := n / 128;
    assert m / 128 == n / 0x4000 && m / 0x4000 == n / 0x20_0000;
    EncodeThree(m);
  }

  lemma EncodeFive(n: nat)
    requires 0x1000_0000 <= n < 0x1_0000_0000
    ensures EncodeVarint(n) == [n % 128 + 128, n / 0x80 % 128 + 128, n / 0x4000 % 128 + 128, n / 0x20_0000 % 128 + 128, n / 0x1000_0000]
  {
    var m := n / 128;
    assert m / 128 == n / 0x4000 && m / 0x4000 == n / 0x20_0000 && m / 0x20_0000 == n / 0x1000_0000;
    EncodeFour(m);
  }

  /** Reads a varint in at most `max` bytes; the bits that do not fit the width are lost. */
  method GetVarint(b: seq<Byte>, max: nat, width: nat) returns (r: Option<(nat, nat)>)
    requires width > 0
    ensures r.Some? <==> DecodeVarint(b, max).Some?
    ensures r.Some? ==> r.value == (DecodeVarint(b, max).value.0 % width, DecodeVarint(b, max).value.1)
  {
    hide DecodeVarint;
    var result: nat, scale: nat, i := 0, 1, 0;
    assert b[0..] == b;
    while i < max && i < |b|
      invariant 0 <= i <= |b| && i <= max
      invariant Rest(DecodeVarint(b, max), DecodeVarint(b[i..], max - i), i, result, scale)
      decreases max - i
    {
      var byte: nat := b[i];
      assert b[i..][1..] == b[i + 1..];
      if byte < 128 {
        LastByte(DecodeVarint(b, max), b[i..], max - i, i, result, scale);
        return Some(((result + byte * scale) % width, i + 1));
      }
      MoreBytes(DecodeVarint(b, max), b[i..], max - i, i, result, scale);
      result := result + (byte - 128) * scale;
      scale := scale * 128;
      i := i + 1;
    }
    NoBytes(b[i..], max - i);
    r := None;
  }

  lemma NoBytes(b: seq<Byte>, max: nat)
    requires max == 0 || b == []
    ensures DecodeVarint(b, max) == None
  {
  }

  lemma LastByte(whole: Option<(nat, nat)>, b: seq<Byte>, max: nat, i: nat, result: nat, scale: nat)
    requires max > 0 && b != [] && b[0] < 128 && Rest(whole, DecodeVarint(b, max), i, result, scale)
    ensures whole == Some((result + b[0] * scale, i + 1))
  {
  }

  lemma MoreBytes(whole: Option<(nat, nat)>, b: seq<Byte>, max: nat, i: nat, result: nat, scale: nat)
    requires max > 0 && b != [] && b[0] >= 128 && Rest(whole, DecodeVarint(b, max), i, result, scale)
    ensures Rest(whole, DecodeVarint(b[1..], max - 1), i + 1, result + (b[0] - 128) * scale, scale * 128)
  {
    var after := DecodeVarint(b[1..], max - 1);
    if after.Some? {
      Distribute(result, scale, b[0] - 128, after.value.0);
    }
  }

  /** What has been read so far and what is still to be read make up the whole. */
  ghost predicate Rest(whole: Option<(nat, nat)>, rest: Option<(nat, nat)>, i: nat, result: nat, scale: nat) {
    && (whole.Some? <==> rest.Some?)
    && (rest.Some? ==> whole.value == (result + scale * rest.value.0, i + rest.value.1))
  }

  lemma Distribute(result: nat, scale: nat, low: nat, v: nat)
    ensures result + scale * (low + 128 * v) == result + low * scale + scale * 128 * v
  {
  }
}
