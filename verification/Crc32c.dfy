/** CRC-32C: the table-driven, four-bytes-at-a-time form computes the bit-by-bit checksum of section 12.1
    of RFC 3720. */
module Crc32c {
  type Word = bv32

  /** The Castagnoli polynomial with its bits reversed. */
  const POLYNOMIAL: Word := 0x82f6_3b78

  const ONES: Word := 0xffff_ffff

  function Xor(a: Word, b: Word): Word { a ^ b }

  function Half(a: Word): Word { a >> 1 }

  predicate Odd(a: Word) { a & 1 == 1 }

  /** One bit is shifted out of the register. */
  function Shift(l: Word): Word {
    if Odd(l) then Xor(Half(l), POLYNOMIAL) else Half(l)
  }

  /** Eight bits are shifted out. */
  function ShiftByte(l: Word): Word {
    Shift(Shift(Shift(Shift(Shift(Shift(Shift(Shift(l))))))))
  }

  /** The register after a byte string, bit by bit. */
  function Register(l: Word, data: seq<bv8>): Word {
    if data == [] then l
    else ShiftByte(Xor(Register(l, data[..|data| - 1]), data[|data| - 1] as Word))
  }

  function Extend(crc: Word, data: seq<bv8>): Word {
    Xor(Register(Xor(crc, ONES), data), ONES)
  }

  // ----- Shifting is linear -----

  lemma OddXor(a: Word, b: Word)
    ensures Odd(Xor(a, b)) <==> Odd(a) != Odd(b)
  {
  }

  lemma HalfXor(a: Word, b: Word)
    ensures Half(Xor(a, b)) == Xor(Half(a), Half(b))
  {
  }

  lemma XorAssoc(a: Word, b: Word, p: Word)
    ensures Xor(a, Xor(b, p)) == Xor(Xor(a, b), p)
  {
  }

  lemma XorComm(a: Word, b: Word)
    ensures Xor(a, b) == Xor(b, a)
  {
  }

  lemma XorSwap(a: Word, b: Word, p: Word)
    ensures Xor(Xor(a, p), b) == Xor(Xor(a, b), p)
  {
    hide Xor;
    XorAssoc(a, p, b);
    XorComm(p, b);
    XorAssoc(a, b, p);
  }

  lemma XorTwice(a: Word, p: Word)
    ensures Xor(Xor(a, p), p) == a
  {
  }

  lemma XorCancel(a: Word, b: Word, p: Word)
    ensures Xor(Xor(a, p), Xor(b, p)) == Xor(a, b)
  {
    hide Xor;
    XorAssoc(Xor(a, p), b, p);
    XorSwap(a, b, p);
    XorTwice(Xor(a, b), p);
  }

  lemma ShiftXor(a: Word, b: Word)
    ensures Shift(Xor(a, b)) == Xor(Shift(a), Shift(b))
  {
    hide Xor, Half, Odd;
    OddXor(a, b);
    HalfXor(a, b);
    XorSwap(Half(a), Half(b), POLYNOMIAL);
    XorAssoc(Half(a), Half(b), POLYNOMIAL);
    XorCancel(Half(a), Half(b), POLYNOMIAL);
  }

  lemma ShiftByteXor(a: Word, b: Word)
    ensures ShiftByte(Xor(a, b)) == Xor(ShiftByte(a), ShiftByte(b))
  {
    hide Xor, Shift;
    var a1, b1 := Shift(a), Shift(b);
    var a2, b2 := Shift(a1), Shift(b1);
    var a3, b3 := Shift(a2), Shift(b2);
    var a4, b4 := Shift(a3), Shift(b3);
    var a5, b5 := Shift(a4), Shift(b4);
    var a6, b6 := Shift(a5), Shift(b5);
    var a7, b7 := Shift(a6), Shift(b6);
    ShiftXor(a, b);
    ShiftXor(a1, b1);
    ShiftXor(a2, b2);
    ShiftXor(a3, b3);
    ShiftXor(a4, b4);
    ShiftXor(a5, b5);
    ShiftXor(a6, b6);
    ShiftXor(a7, b7);
  }

  function Double(x: Word): Word { x << 1 }

  predicate Small(x: Word) { x < 0x8000_0000 }

  lemma ShiftOfDouble(x: Word)
    requires Small(x)
    ensures Shift(Double(x)) == x
  {
    assert !Odd(Double(x)) && Half(Double(x)) == x;
    hide Odd, Half, Double, Small;
  }

  /** The register moved up one byte. */
  function Up(x: Word): Word { x << 8 }

  lemma UpIsDoubles(x: Word)
    requires x < 0x100_0000
    ensures var d1 := Double(x); var d2 := Double(d1); var d3 := Double(d2); var d4 := Double(d3);
            var d5 := Double(d4); var d6 := Double(d5); var d7 := Double(d6);
            Up(x) == Double(d7) && Small(x) && Small(d1) && Small(d2) && Small(d3) && Small(d4) && Small(d5) && Small(d6) && Small(d7)
  {
  }

  /** Nothing but zeros is shifted out of a register whose low byte is zero. */
  lemma ShiftByteOfUp(x: Word)
    requires x < 0x100_0000
    ensures ShiftByte(Up(x)) == x
  {
    UpIsDoubles(x);
    hide Shift, Double, Up, Small;
    var d1 := Double(x);
    var d2 := Double(d1);
    var d3 := Double(d2);
    var d4 := Double(d3);
    var d5 := Double(d4);
    var d6 := Double(d5);
    var d7 := Double(d6);
    ShiftOfDouble(d7);
    ShiftOfDouble(d6);
    ShiftOfDouble(d5);
    ShiftOfDouble(d4);
    ShiftOfDouble(d3);
    ShiftOfDouble(d2);
    ShiftOfDouble(d1);
    ShiftOfDouble(x);
  }

  /** What comes in above a byte is found in the register once the byte has been shifted out. */
  lemma ShiftIn(l: Word, b: Word, w: Word)
    requires w < 0x100_0000
    ensures ShiftByte(Xor(l, Xor(b, Up(w)))) == Xor(ShiftByte(Xor(l, b)), w)
  {
    ShiftByteOfUp(w);
    hide Xor, Up, ShiftByte;
    XorAssoc(l, b, Up(w));
    ShiftByteXor(Xor(l, b), Up(w));
  }

  // ----- The tables -----

  /** What one byte does to the register, and what it does one, two and three bytes later. */
  function Table0(c: Word): Word { ShiftByte(c) }

  function Table1(c: Word): Word { ShiftByte(Table0(c)) }

  function Table2(c: Word): Word { ShiftByte(Table1(c)) }

  function Table3(c: Word): Word { ShiftByte(Table2(c)) }

  /** The entries of the four tables for single bits, and the last ones, as the program lists them: 40 of
      its 1024 constants.  The tables are defined here by what they are for, and every other entry is
      the exclusive or of single-bit ones. */
  lemma TableEntries()
    ensures Table0(1) == 0xf26b_8303 && Table0(2) == 0xe13b_70f7 && Table0(4) == 0xc79a_971f && Table0(8) == 0x8ad9_58cf
    ensures Table0(16) == 0x105e_c76f && Table0(32) == 0x20bd_8ede && Table0(64) == 0x417b_1dbc && Table0(128) == 0x82f6_3b78
    ensures Table0(0) == 0 && Table0(255) == 0xad7d_5351
    ensures Table1(1) == 0x13a2_9877 && Table1(2) == 0x2745_30ee && Table1(4) == 0x4e8a_61dc && Table1(8) == 0x9d14_c3b8
    ensures Table1(16) == 0x3fc5_f181 && Table1(32) == 0x7f8b_e302 && Table1(64) == 0xff17_c604 && Table1(128) == 0xfbc3_faf9
    ensures Table1(0) == 0 && Table1(255) == 0xa3e3_2483
    ensures Table2(1) == 0xa541_927e && Table2(2) == 0x4f6f_520d && Table2(4) == 0x9ede_a41a && Table2(8) == 0x3851_3ec5
    ensures Table2(16) == 0x70a2_7d8a && Table2(32) == 0xe144_fb14 && Table2(64) == 0xc765_80d9 && Table2(128) == 0x8b27_7743
    ensures Table2(0) == 0 && Table2(255) == 0x9105_2ba8
    ensures Table3(1) == 0xdd45_aab8 && Table3(2) == 0xbf67_2381 && Table3(4) == 0x7b22_31f3 && Table3(8) == 0xf644_63e6
    ensures Table3(16) == 0xe964_b13d && Table3(32) == 0xd725_148b && Table3(64) == 0xaba6_5fe7 && Table3(128) == 0x52a0_c93f
    ensures Table3(0) == 0 && Table3(255) == 0x2803_e842
  {
  }

  lemma TablesAreLinear(a: Word, b: Word)
    ensures Table0(Xor(a, b)) == Xor(Table0(a), Table0(b)) && Table1(Xor(a, b)) == Xor(Table1(a), Table1(b))
    ensures Table2(Xor(a, b)) == Xor(Table2(a), Table2(b)) && Table3(Xor(a, b)) == Xor(Table3(a), Table3(b))
  {
    hide Xor, ShiftByte;
    ShiftByteXor(a, b);
    ShiftByteXor(Table0(a), Table0(b));
    ShiftByteXor(Table1(a), Table1(b));
    ShiftByteXor(Table2(a), Table2(b));
  }

  function ByteOf(l: Word, i: nat): (c: Word)
    requires i < 4
  {
    if i == 0 then l & 0xff else if i == 1 then (l >> 8) & 0xff else if i == 2 then (l >> 16) & 0xff else l >> 24
  }

  function Above(l: Word): Word { l >> 8 }

  lemma SplitByte(l: Word)
    ensures l == Xor(ByteOf(l, 0), Up(Above(l))) && Above(l) < 0x100_0000
  {
  }

  lemma SplitWord1(l: Word)
    ensures Above(l) == Xor(ByteOf(l, 1), Up(Above(Above(l)))) && Above(Above(l)) < 0x100_0000
  {
  }

  lemma SplitWord2(l: Word)
    ensures Above(Above(l)) == Xor(ByteOf(l, 2), Up(ByteOf(l, 3))) && ByteOf(l, 3) < 0x100_0000
  {
  }

  /** One byte by table. */
  function Step1(l: Word, b: bv8): Word {
    Xor(Table0(Xor(ByteOf(l, 0), b as Word)), Above(l))
  }

  lemma Step1IsByte(l: Word, b: bv8)
    ensures Step1(l, b) == ShiftByte(Xor(l, b as Word))
  {
    ByteIntoWord(l, b as Word);
    SplitByte(Xor(l, b as Word));
    ShiftByteOfUp(Above(l));
    hide Xor, Up, ShiftByte, ByteOf, Above;
    ShiftByteXor(Xor(ByteOf(l, 0), b as Word), Up(Above(l)));
  }

  lemma ByteIntoWord(l: Word, b: Word)
    requires b < 0x100
    ensures ByteOf(Xor(l, b), 0) == Xor(ByteOf(l, 0), b) && Above(Xor(l, b)) == Above(l)
  {
  }

  /** Four bytes by four tables. */
  function Step4(l: Word, w: Word): Word {
    var c := Xor(l, w);
    Xor(Xor(Xor(Table3(ByteOf(c, 0)), Table2(ByteOf(c, 1))), Table1(ByteOf(c, 2))), Table0(ByteOf(c, 3)))
  }

  lemma FourBytesOut(c: Word)
    ensures ShiftByte(ShiftByte(ShiftByte(ShiftByte(c)))) ==
            Xor(Xor(Xor(Table3(ByteOf(c, 0)), Table2(ByteOf(c, 1))), Table1(ByteOf(c, 2))), Table0(ByteOf(c, 3)))
  {
    SplitByte(c);
    SplitWord1(c);
    SplitWord2(c);
    ShiftByteOfUp(Above(c));
    ShiftByteOfUp(Above(Above(c)));
    ShiftByteOfUp(ByteOf(c, 3));
    hide Xor, Up, ShiftByte, ByteOf, Above;
    var c0, c1, c2, c3 := ByteOf(c, 0), ByteOf(c, 1), ByteOf(c, 2), ByteOf(c, 3);
    var w1, w2 := Above(c), Above(Above(c));
    ShiftByteXor(c0, Up(w1));
    var s1 := Table0(c0);
    assert ShiftByte(c) == Xor(s1, Xor(c1, Up(w2)));
    XorAssoc(s1, c1, Up(w2));
    ShiftByteXor(Xor(s1, c1), Up(w2));
    ShiftByteXor(s1, c1);
    var s2 := Xor(Table1(c0), Table0(c1));
    assert ShiftByte(ShiftByte(c)) == Xor(s2, Xor(c2, Up(c3)));
    XorAssoc(s2, c2, Up(c3));
    ShiftByteXor(Xor(s2, c2), Up(c3));
    ShiftByteXor(s2, c2);
    ShiftByteXor(Table1(c0), Table0(c1));
    var s3 := Xor(Xor(Table2(c0), Table1(c1)), Table0(c2));
    assert ShiftByte(ShiftByte(ShiftByte(c))) == Xor(s3, c3);
    ShiftByteXor(s3, c3);
    ShiftByteXor(Xor(Table2(c0), Table1(c1)), Table0(c2));
    ShiftByteXor(Table2(c0), Table1(c1));
  }

  /** Four bytes, the lowest first, as one word. */
  function Load32(b0: bv8, b1: bv8, b2: bv8, b3: bv8): Word {
    (b0 as Word) | ((b1 as Word) << 8) | ((b2 as Word) << 16) | ((b3 as Word) << 24)
  }

  lemma LoadSplits(b0: bv8, b1: bv8, b2: bv8, b3: bv8)
    ensures var w2 := Xor(b2 as Word, Up(b3 as Word));
            var w1 := Xor(b1 as Word, Up(w2));
            Load32(b0, b1, b2, b3) == Xor(b0 as Word, Up(w1)) && w1 < 0x100_0000 && w2 < 0x100_0000 && (b3 as Word) < 0x100_0000
  {
  }

  lemma Step4IsFourBytes(l: Word, b0: bv8, b1: bv8, b2: bv8, b3: bv8)
    ensures Step4(l, Load32(b0, b1, b2, b3)) ==
            ShiftByte(Xor(ShiftByte(Xor(ShiftByte(Xor(ShiftByte(Xor(l, b0 as Word)), b1 as Word)), b2 as Word)), b3 as Word))
  {
    LoadSplits(b0, b1, b2, b3);
    hide Xor, Up, ShiftByte, ByteOf, Load32;
    var w2 := Xor(b2 as Word, Up(b3 as Word));
    var w1 := Xor(b1 as Word, Up(w2));
    FourBytesOut(Xor(l, Load32(b0, b1, b2, b3)));
    ShiftIn(l, b0 as Word, w1);
    var r1 := ShiftByte(Xor(l, b0 as Word));
    ShiftIn(r1, b1 as Word, w2);
    var r2 := ShiftByte(Xor(r1, b1 as Word));
    ShiftIn(r2, b2 as Word, b3 as Word);
  }

  /** The table form, starting at an address that is `alignment` past a multiple of four. */
  method Sixteen(ghost start: Word, l: Word, data: seq<bv8>, p: nat) returns (r: Word)
    requires p + 16 <= |data| && l == Register(start, data[..p])
    ensures r == Register(start, data[..p + 16])
  {
    hide Register, Step1, Step4, Xor, ShiftByte, Load32;
    FourBytes(start, data, p);
    r := Step4(l, Load32(data[p], data[p + 1], data[p + 2], data[p + 3]));
    FourBytes(start, data, p + 4);
    r := Step4(r, Load32(data[p + 4], data[p + 5], data[p + 6], data[p + 7]));
    FourBytes(start, data, p + 8);
    r := Step4(r, Load32(data[p + 8], data[p + 9], data[p + 10], data[p + 11]));
    FourBytes(start, data, p + 12);
    r := Step4(r, Load32(data[p + 12], data[p + 13], data[p + 14], data[p + 15]));
  }

  method ExtendByTables(crc: Word, data: seq<bv8>, alignment: nat) returns (r: Word)
    requires alignment < 4
    ensures r == Extend(crc, data)
  {
    hide Register, Step1, Step4, Xor, ShiftByte, Load32;
    ghost var start := Xor(crc, ONES);
    var l, p := Xor(crc, ONES), 0;
    EmptyRegister(start, data[..0]);
    var x := (4 - alignment) % 4;
    if x <= |data| {
      while p != x
        invariant 0 <= p <= x && l == Register(start, data[..p])
      {
        OneByte(start, data, p);
        l := Step1(l, data[p]);
        p := p + 1;
      }
    }
    while |data| - p >= 16
      invariant 0 <= p <= |data| && l == Register(start, data[..p])
    {
      l := Sixteen(start, l, data, p);
      p := p + 16;
    }
    while |data| - p >= 4
      invariant 0 <= p <= |data| && l == Register(start, data[..p])
    {
      FourBytes(start, data, p);
      l := Step4(l, Load32(data[p], data[p + 1], data[p + 2], data[p + 3]));
      p := p + 4;
    }
    while p != |data|
      invariant 0 <= p <= |data| && l == Register(start, data[..p])
    {
      OneByte(start, data, p);
      l := Step1(l, data[p]);
      p := p + 1;
    }
    assert data[..p] == data;
    r := Xor(l, ONES);
  }

  lemma EmptyRegister(l: Word, data: seq<bv8>)
    requires data == []
    ensures Register(l, data) == l
  {
  }

  lemma RegisterStep(l: Word, data: seq<bv8>, p: nat)
    requires p < |data|
    ensures Register(l, data[..p + 1]) == ShiftByte(Xor(Register(l, data[..p]), data[p] as Word))
  {
    hide Xor, ShiftByte;
    assert data[..p + 1][..p] == data[..p];
  }

  lemma OneByte(l: Word, data: seq<bv8>, p: nat)
    requires p < |data|
    ensures Register(l, data[..p + 1]) == Step1(Register(l, data[..p]), data[p])
  {
    hide Xor, ShiftByte, Step1, Register;
    RegisterStep(l, data, p);
    Step1IsByte(Register(l, data[..p]), data[p]);
  }

  lemma FourBytes(l: Word, data: seq<bv8>, p: nat)
    requires p + 4 <= |data|
    ensures Register(l, data[..p + 4]) == Step4(Register(l, data[..p]), Load32(data[p], data[p + 1], data[p + 2], data[p + 3]))
  {
    hide Xor, ShiftByte, Step4, Load32, Register;
    RegisterStep(l, data, p);
    RegisterStep(l, data, p + 1);
    RegisterStep(l, data, p + 2);
    RegisterStep(l, data, p + 3);
    Step4IsFourBytes(Register(l, data[..p]), data[p], data[p + 1], data[p + 2], data[p + 3]);
  }

  // ----- Checksums of concatenations -----

  lemma {:induction false} RegisterConcat(l: Word, a: seq<bv8>, b: seq<bv8>)
    ensures Register(l, a + b) == Register(Register(l, a), b)
  {
    hide Xor, ShiftByte;
    if b == [] {
      assert a + b == a;
    } else {
      assert (a + b)[..|a + b| - 1] == a + b[..|b| - 1];
      RegisterConcat(l, a, b[..|b| - 1]);
    }
  }

  /** A checksum can be taken piece by piece. */
  lemma ExtendConcat(crc: Word, a: seq<bv8>, b: seq<bv8>)
    ensures Extend(Extend(crc, a), b) == Extend(crc, a + b)
  {
    hide Xor, Register;
    var start := Xor(crc, ONES);
    RegisterConcat(start, a, b);
    XorTwice(Register(start, a), ONES);
  }
}
