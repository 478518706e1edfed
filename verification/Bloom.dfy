/** The Bloom filter: it holds exactly the bits its keys probe, so a key that went in is never
    reported absent. */
module Bloom {
  import opened Coding
  import opened Bytewise

  /** The proofs hold for whatever hash both sides use. */
  type Hash = Bytes -> Uint32

  // ----- Bits -----

  function Bit(i: nat): bv8
    requires i < 8
  {
    1 << (i as bv3)
  }

  /** Bit `p` of an array of bytes. */
  predicate BitSet(a: seq<bv8>, p: nat) {
    p / 8 < |a| && a[p / 8] & Bit(p % 8) != 0
  }

  lemma SetOneBit(b: bv8, i: nat, j: nat)
    requires i < 8 && j < 8
    ensures (b | Bit(i)) & Bit(j) != 0 <==> i == j || b & Bit(j) != 0
  {
  }

  // ----- Probes -----

  /** The hash rotated right by 17 bits. */
  function Delta(h: Uint32): Uint32 {
    h / 0x2_0000 + h % 0x2_0000 * 0x8000
  }

  /** The `j`-th of the double-hashing probes. */
  function Probe(h: Uint32, j: nat): Uint32 {
    if j == 0 then h
    else
      var sum: nat := Probe(h, j - 1) + Delta(h);
      sum % 0x1_0000_0000
  }

  function ProbeCount(bitsPerKey: nat): (k: nat)
    ensures 1 <= k <= 30
  {
    var k := (bitsPerKey as real * 0.69).Floor;
    if k < 1 then 1 else if k > 30 then 30 else k
  }

  /** Whether one of the first `n` probes of one of the keys hits bit `p`. */
  ghost predicate Probed(hash: Hash, keys: seq<Bytes>, n: nat, bits: nat, p: nat)
    requires bits > 0
  {
    exists i :: 0 <= i < |keys| && KeyProbes(hash(keys[i]), n, bits, p)
  }

  ghost predicate KeyProbes(h: Uint32, n: nat, bits: nat, p: nat)
    requires bits > 0
  {
    exists j :: ProbedAt(h, n, bits, j, p)
  }

  predicate ProbedAt(h: Uint32, n: nat, bits: nat, j: nat, p: nat)
    requires bits > 0
  {
    j < n && Probe(h, j) % bits == p
  }

  /** A filter: its bits, and the number of probes in the last byte. */
  ghost predicate IsFilter(hash: Hash, keys: seq<Bytes>, k: nat, f: seq<bv8>) {
    && |f| >= 2 && k <= 30 && f[|f| - 1] as nat == k
    && forall p :: 0 <= p < 8 * (|f| - 1) ==> (BitSet(f, p) <==> Probed(hash, keys, k, 8 * (|f| - 1), p))
  }

  /** The answer of the filter, short and unknown ones included. */
  ghost predicate Matches(hash: Hash, key: Bytes, f: seq<bv8>) {
    |f| >= 2 && (f[|f| - 1] as nat > 30
                 || forall j :: 0 <= j < f[|f| - 1] as nat ==> BitSet(f, Probe(hash(key), j) % (8 * (|f| - 1))))
  }

  /** No false negatives. */
  lemma KeyOfFilterMatches(hash: Hash, keys: seq<Bytes>, k: nat, f: seq<bv8>, key: Bytes)
    requires IsFilter(hash, keys, k, f) && key in keys
    ensures Matches(hash, key, f)
  {
    var i :| 0 <= i < |keys| && keys[i] == key;
    forall j | 0 <= j < k ensures BitSet(f, Probe(hash(key), j) % (8 * (|f| - 1))) {
      var p := Probe(hash(key), j) % (8 * (|f| - 1));
      assert ProbedAt(hash(keys[i]), k, 8 * (|f| - 1), j, p);
      assert KeyProbes(hash(keys[i]), k, 8 * (|f| - 1), p);
    }
  }

  method SetBit(a: array<bv8>, p: nat)
    requires p < 8 * a.Length
    modifies a
    ensures forall q :: 0 <= q < 8 * a.Length ==> (BitSet(a[..], q) <==> q == p || BitSet(old(a[..]), q))
  {
    ghost var before := a[..];
    a[p / 8] := a[p / 8] | Bit(p % 8);
    forall q | 0 <= q < 8 * a.Length ensures BitSet(a[..], q) <==> q == p || BitSet(before, q) {
      SetOneBit(before[p / 8], p % 8, q % 8);
    }
  }

  /** Sets the probed bits of one key. */
  method SetBits(hash: Hash, a: array<bv8>, key: Bytes, k: nat)
    requires a.Length > 0
    modifies a
    ensures forall p :: 0 <= p < 8 * a.Length ==> (BitSet(a[..], p) <==> BitSet(old(a[..]), p) || KeyProbes(hash(key), k, 8 * a.Length, p))
  {
    var bits := 8 * a.Length;
    var h: nat := hash(key);
    var delta: nat := Delta(h);
    ghost var first := h;
    for j := 0 to k
      invariant h == Probe(first, j)
      invariant forall p :: 0 <= p < bits ==> (BitSet(a[..], p) <==> BitSet(old(a[..]), p) || KeyProbes(first, j, bits, p))
    {
      hide BitSet, KeyProbes, Probe;
      forall p | 0 <= p < bits ensures KeyProbes(first, j + 1, bits, p) <==> p == h % bits || KeyProbes(first, j, bits, p) {
        OneMoreProbe(first, j, bits, p);
      }
      SetBit(a, h % bits);
      NextProbe(first, j);
      h := (h + delta) % 0x1_0000_0000;
    }
  }

  lemma NextProbe(h: Uint32, j: nat)
    ensures Probe(h, j + 1) as nat == (Probe(h, j) as nat + Delta(h) as nat) % 0x1_0000_0000
  {
  }

  lemma OneMoreProbe(h: Uint32, j: nat, bits: nat, p: nat)
    requires bits > 0
    ensures KeyProbes(h, j + 1, bits, p) <==> p == Probe(h, j) % bits || KeyProbes(h, j, bits, p)
  {
    if p == Probe(h, j) % bits {
      assert ProbedAt(h, j + 1, bits, j, p);
    }
    if KeyProbes(h, j, bits, p) {
      var i :| ProbedAt(h, j, bits, i, p);
      assert ProbedAt(h, j + 1, bits, i, p);
    }
    if KeyProbes(h, j + 1, bits, p) {
      var i :| ProbedAt(h, j + 1, bits, i, p);
      assert i == j || ProbedAt(h, j, bits, i, p);
    }
  }

  lemma OneMoreKey(hash: Hash, keys: seq<Bytes>, key: Bytes, k: nat, bits: nat, p: nat)
    requires bits > 0
    ensures Probed(hash, keys + [key], k, bits, p) <==> Probed(hash, keys, k, bits, p) || KeyProbes(hash(key), k, bits, p)
  {
    var more := keys + [key];
    hide KeyProbes;
    assert more[|keys|] == key && forall i :: 0 <= i < |keys| ==> more[i] == keys[i];
  }

  /** Sets the probed bits of all keys. */
  method SetAll(hash: Hash, keys: seq<Bytes>, k: nat, bytes: nat) returns (f: seq<bv8>)
    requires bytes > 0
    ensures |f| == bytes
    ensures forall p :: 0 <= p < 8 * bytes ==> (BitSet(f, p) <==> Probed(hash, keys, k, 8 * bytes, p))
  {
    var a := new bv8[bytes](_ => 0);
    for i := 0 to |keys|
      invariant forall p :: 0 <= p < 8 * bytes ==> (BitSet(a[..], p) <==> Probed(hash, keys[..i], k, 8 * bytes, p))
    {
      hide BitSet, Probed, KeyProbes;
      assert keys[..i] + [keys[i]] == keys[..i + 1];
      forall p | 0 <= p < 8 * bytes {
        OneMoreKey(hash, keys[..i], keys[i], k, 8 * bytes, p);
      }
      SetBits(hash, a, keys[i], k);
    }
    assert keys[..|keys|] == keys;
    f := a[..];
  }

  lemma MoreBytesSameBits(a: seq<bv8>, b: seq<bv8>, p: nat)
    requires p < 8 * |a|
    ensures BitSet(a + b, p) <==> BitSet(a, p)
  {
  }

  method CreateFilter(hash: Hash, keys: seq<Bytes>, bitsPerKey: nat) returns (f: seq<bv8>)
    ensures IsFilter(hash, keys, ProbeCount(bitsPerKey), f)
  {
    hide Probed, ProbeCount, BitSet;
    var k := ProbeCount(bitsPerKey);
    var bits := |keys| * bitsPerKey;
    if bits < 64 {
      bits := 64;
    }
    var a := SetAll(hash, keys, k, (bits + 7) / 8);
    f := a + [k as bv8];
    forall p | 0 <= p < 8 * |a| ensures BitSet(f, p) <==> BitSet(a, p) {
      MoreBytesSameBits(a, [k as bv8], p);
    }
  }

  method TestBit(f: seq<bv8>, bitpos: nat) returns (on: bool)
    requires bitpos < 8 * |f|
    ensures on <==> BitSet(f, bitpos)
  {
    on := f[bitpos / 8] & Bit(bitpos % 8) != 0;
  }

  lemma FirstProbe(h: Uint32)
    ensures Probe(h, 0) == h
  {
  }

  method KeyMayMatch(hash: Hash, key: Bytes, f: seq<bv8>) returns (r: bool)
    ensures r <==> Matches(hash, key, f)
    ensures |f| < 2 ==> !r
    ensures |f| >= 2 && f[|f| - 1] > 30 ==> r
  {
    if |f| < 2 {
      return false;
    }
    var bits := 8 * (|f| - 1);
    var k := f[|f| - 1] as nat;
    if k > 30 {
      return true;
    }
    hide BitSet, Probe, Delta, Bit;
    var h: nat := hash(key);
    var delta: nat := Delta(h);
    ghost var first := h;
    FirstProbe(h);
    for j := 0 to k
      invariant h == Probe(first, j)
      invariant forall i :: 0 <= i < j ==> BitSet(f, Probe(first, i) % bits)
    {
      var on := TestBit(f, h % bits);
      if !on {
        return false;
      }
      NextProbe(first, j);
      h := (h + delta) % 0x1_0000_0000;
    }
    r := true;
  }
}
