/** Numbers and strings taken off the front of a slice. */
module Slices {
  import opened Entries
  import opened Coding

  type Bytes = seq<Byte>

  function GetVarint32(b: Bytes): (r: Option<Taken<nat>>)
    ensures r.Some? ==> |r.value.rest| < |b|
  {
    match GetVarint32Ptr(b)
    case None => None
    case Some((v, n)) => Some(Taken(v, b[n..]))
  }

  function GetVarint64(b: Bytes): (r: Option<Taken<nat>>)
    ensures r.Some? ==> |r.value.rest| < |b|
  {
    match DecodeVarint(b, 10)
    case None => None
    case Some((v, n)) =>
      var x: nat := v % TWO_64;
      Some(Taken(x, b[n..]))
  }

  function GetString(b: Bytes): (r: Option<Taken<Bytes>>)
    ensures r.Some? ==> |r.value.rest| < |b|
  {
    match GetVarint32(b)
    case None => None
    case Some(t) => if |t.rest| < t.v then None else Some(Taken(t.rest[..t.v], t.rest[t.v..]))
  }

  /** A string after its length. */
  function PutString(b: Bytes): Bytes {
    EncodeVarint(|b|) + b
  }

  lemma Varint32Back(v: nat, rest: Bytes)
    requires v < 0x1_0000_0000
    ensures GetVarint32(EncodeVarint(v) + rest) == Some(Taken(v, rest))
  {
    Varint32RoundTrip(v, rest);
  }

  lemma Varint64Back(v: nat, rest: Bytes)
    requires v < TWO_64
    ensures GetVarint64(EncodeVarint(v) + rest) == Some(Taken(v, rest))
  {
    hide Power128, DecodeVarint, EncodeVarint;
    Uint64FitsVarint(v);
    VarintRoundTrip(v, 10, rest);
  }

  lemma StringBack(s: Bytes, rest: Bytes)
    requires |s| < 0x1_0000_0000
    ensures GetString(PutString(s) + rest) == Some(Taken(s, rest))
  {
    assert PutString(s) + rest == EncodeVarint(|s|) + (s + rest);
    Varint32Back(|s|, s + rest);
  }
}
