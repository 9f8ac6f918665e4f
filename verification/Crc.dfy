/** The checksum that guards a select entry's sequence number. */
module Crc {
  import opened Bytes
  import opened Polynomials
  import CrcRegister

  /** Checksums are kept as register contents. */
  type Sum = bv32

  /** The bits of a byte, least significant first, as the register sees them and as a number. */
  function Pack(b0: bool, b1: bool, b2: bool, b3: bool, b4: bool, b5: bool, b6: bool, b7: bool): bv8 {
    (if b0 then 1 else 0) | (if b1 then 2 else 0) | (if b2 then 4 else 0) | (if b3 then 8 else 0) |
    (if b4 then 16 else 0) | (if b5 then 32 else 0) | (if b6 then 64 else 0) | (if b7 then 128 else 0)
  }

  /** `n` with the bit `b` put below its own. */
  function Below(b: bool, n: nat): nat {
    (if b then 1 else 0) + 2 * n
  }

  function Sum8(b0: bool, b1: bool, b2: bool, b3: bool, b4: bool, b5: bool, b6: bool, b7: bool): byte {
    Below(b0, Below(b1, Below(b2, Below(b3, Below(b4, Below(b5, Below(b6, Below(b7, 0))))))))
  }

  predicate Odd(n: nat) {
    n % 2 == 1
  }

  function Octet(b: byte): bv8 {
    var (h1, h2, h3) := (b / 2, b / 2 / 2, b / 2 / 2 / 2);
    var (h4, h5, h6) := (h3 / 2, h3 / 2 / 2, h3 / 2 / 2 / 2);
    Pack(Odd(b), Odd(h1), Odd(h2), Odd(h3), Odd(h4), Odd(h5), Odd(h6), Odd(h6 / 2))
  }

  function ByteOf(o: bv8): byte {
    Sum8(o & 1 == 1, o & 2 == 2, o & 4 == 4, o & 8 == 8, o & 16 == 16, o & 32 == 32, o & 64 == 64, o & 128 == 128)
  }

  /** The bytes of a message as the octets the register takes in. */
  function Octets(data: seq<byte>): (o: seq<bv8>)
    ensures |o| == |data|
    ensures forall i :: 0 <= i < |data| ==> o[i] == Octet(data[i])
  {
    seq(|data|, i requires 0 <= i < |data| => Octet(data[i]))
  }

  /** The CRC of a message. */
  function Checksum(data: seq<byte>): Sum {
    CrcRegister.Checksum(Octets(data))
  }

  /** The CRC of the four little-endian bytes of a sequence number. */
  function SeqChecksum(s: u32): Sum {
    Checksum(ToLe(s))
  }

  /** The checksum stored in four little-endian bytes, and the bytes that store it. */
  function SumOf(b: seq<byte>): Sum
    requires |b| == 4
  {
    CrcRegister.Word(Octet(b[0]), Octet(b[1]), Octet(b[2]), Octet(b[3]))
  }

  function SumBytes(c: Sum): (b: seq<byte>)
    ensures |b| == 4
  {
    var o := CrcRegister.Octets(c);
    [ByteOf(o[0]), ByteOf(o[1]), ByteOf(o[2]), ByteOf(o[3])]
  }

  lemma PackInjective(a0: bool, a1: bool, a2: bool, a3: bool, a4: bool, a5: bool, a6: bool, a7: bool,
                      b0: bool, b1: bool, b2: bool, b3: bool, b4: bool, b5: bool, b6: bool, b7: bool)
    requires Pack(a0, a1, a2, a3, a4, a5, a6, a7) == Pack(b0, b1, b2, b3, b4, b5, b6, b7)
    ensures a0 == b0 && a1 == b1 && a2 == b2 && a3 == b3 && a4 == b4 && a5 == b5 && a6 == b6 && a7 == b7
  {
  }

  lemma PackBits(o: bv8)
    ensures Pack(o & 1 == 1, o & 2 == 2, o & 4 == 4, o & 8 == 8,
                 o & 16 == 16, o & 32 == 32, o & 64 == 64, o & 128 == 128) == o
  {
  }

  lemma LowBit(x: nat, b: bool, n: nat)
    ensures x == Below(b, n) <==> b == Odd(x) && n == x / 2
  {
  }

  /** A byte is the sum of its bits, and its bits are those of the sum. */
  lemma ByteBits(x: byte, x1: nat, x2: nat, x3: nat, x4: nat, x5: nat, x6: nat, x7: nat,
                 b0: bool, b1: bool, b2: bool, b3: bool, b4: bool, b5: bool, b6: bool, b7: bool)
    requires x1 == x / 2 && x2 == x1 / 2 && x3 == x2 / 2 && x4 == x3 / 2
    requires x5 == x4 / 2 && x6 == x5 / 2 && x7 == x6 / 2
    ensures x == Sum8(b0, b1, b2, b3, b4, b5, b6, b7) <==>
            && b0 == Odd(x) && b1 == Odd(x1) && b2 == Odd(x2) && b3 == Odd(x3)
            && b4 == Odd(x4) && b5 == Odd(x5) && b6 == Odd(x6) && b7 == Odd(x7)
  {
    hide Below, Odd;
    var n7 := Below(b7, 0);
    var n6 := Below(b6, n7);
    var n5 := Below(b5, n6);
    var n4 := Below(b4, n5);
    var n3 := Below(b3, n4);
    var n2 := Below(b2, n3);
    var n1 := Below(b1, n2);
    assert x7 / 2 == 0;
    LowBit(x, b0, n1);
    LowBit(x1, b1, n2);
    LowBit(x2, b2, n3);
    LowBit(x3, b3, n4);
    LowBit(x4, b4, n5);
    LowBit(x5, b5, n6);
    LowBit(x6, b6, n7);
    LowBit(x7, b7, 0);
  }

  lemma OctetAsByte(x: bv8)
    ensures Octet(ByteOf(x)) == x
  {
    hide Below, Odd, Sum8, Pack;
    var b := ByteOf(x);
    var (b3, b6) := (b / 2 / 2 / 2, b / 2 / 2 / 2 / 2 / 2 / 2);
    ByteBits(b, b / 2, b / 2 / 2, b3, b3 / 2, b3 / 2 / 2, b6, b6 / 2, x & 1 == 1, x & 2 == 2, x & 4 == 4, x & 8 == 8,
             x & 16 == 16, x & 32 == 32, x & 64 == 64, x & 128 == 128);
    PackBits(x);
  }

  lemma WordOfOctets(w: bv32)
    ensures var o := CrcRegister.Octets(w); CrcRegister.Word(o[0], o[1], o[2], o[3]) == w
  {
  }

  lemma SumRoundTrip(c: Sum)
    ensures SumOf(SumBytes(c)) == c
  {
    var o := CrcRegister.Octets(c);
    OctetAsByte(o[0]);
    OctetAsByte(o[1]);
    OctetAsByte(o[2]);
    OctetAsByte(o[3]);
    WordOfOctets(c);
  }

  lemma SameByte(x: byte, y: byte)
    requires Octet(x) == Octet(y)
    ensures x == y
  {
    hide Below, Odd, Sum8, Pack;
    var (x3, y3) := (x / 2 / 2 / 2, y / 2 / 2 / 2);
    var (x6, y6) := (x3 / 2 / 2 / 2, y3 / 2 / 2 / 2);
    PackInjective(Odd(x), Odd(x / 2), Odd(x / 2 / 2), Odd(x3), Odd(x3 / 2), Odd(x3 / 2 / 2), Odd(x6), Odd(x6 / 2),
                  Odd(y), Odd(y / 2), Odd(y / 2 / 2), Odd(y3), Odd(y3 / 2), Odd(y3 / 2 / 2), Odd(y6), Odd(y6 / 2));
    ByteBits(x, x / 2, x / 2 / 2, x3, x3 / 2, x3 / 2 / 2, x6, x6 / 2,
             Odd(x), Odd(x / 2), Odd(x / 2 / 2), Odd(x3), Odd(x3 / 2), Odd(x3 / 2 / 2), Odd(x6), Odd(x6 / 2));
    ByteBits(y, y / 2, y / 2 / 2, y3, y3 / 2, y3 / 2 / 2, y6, y6 / 2,
             Odd(y), Odd(y / 2), Odd(y / 2 / 2), Odd(y3), Odd(y3 / 2), Odd(y3 / 2 / 2), Odd(y6), Odd(y6 / 2));
  }

  /** Four bytes and the checksum they store determine each other. */
  lemma SumOfInjective(a: seq<byte>, b: seq<byte>)
    requires |a| == |b| == 4 && SumOf(a) == SumOf(b)
    ensures a == b
  {
    CrcRegister.WordInjective(Octet(a[0]), Octet(a[1]), Octet(a[2]), Octet(a[3]),
                              Octet(b[0]), Octet(b[1]), Octet(b[2]), Octet(b[3]));
    SameByte(a[0], b[0]);
    SameByte(a[1], b[1]);
    SameByte(a[2], b[2]);
    SameByte(a[3], b[3]);
  }

  lemma FourOctets(o: seq<bv8>, w: bv32)
    requires |o| == 4 && w == CrcRegister.Word(o[0], o[1], o[2], o[3])
    ensures o == CrcRegister.Octets(w)
  {
    CrcRegister.OctetsOfWord(o[0], o[1], o[2], o[3]);
  }

  lemma SeqChecksumOnWords(s: u32)
    ensures SeqChecksum(s) == CrcRegister.SeqChecksum(SumOf(ToLe(s)))
  {
    FourOctets(Octets(ToLe(s)), SumOf(ToLe(s)));
  }

  /** Distinct sequence numbers have distinct checksums. */
  lemma SeqChecksumInjective(s: u32, t: u32)
    requires SeqChecksum(s) == SeqChecksum(t)
    ensures s == t
  {
    SeqChecksumOnWords(s);
    SeqChecksumOnWords(t);
    CrcRegister.SeqChecksumInjective(SumOf(ToLe(s)), SumOf(ToLe(t)), 32);
    SumOfInjective(ToLe(s), ToLe(t));
    LeRoundTrip(s);
    LeRoundTrip(t);
  }

  const ERASED_SUM: Sum := 0xFFFF_FFFF

  lemma ConstantOctets()
    ensures Octet(0) == 0 && Octet(ERASED) == 0xFF
  {
  }

  lemma ErasedSum()
    ensures SumOf([ERASED, ERASED, ERASED, ERASED]) == ERASED_SUM
  {
    hide Octet;
    ConstantOctets();
  }

  // ---- What the checksum is ----

  /** The bits of a byte, as the register sees them, are the number's own. */
  lemma OctetBits(b: byte, n: nat)
    requires n == 8
    ensures CrcRegister.Bits(Octet(b) as bv32, n) == Reflected(b, n)
  {
  }

  lemma {:induction false} MessageBits(data: seq<byte>)
    ensures CrcRegister.BitsOf(Octets(data)) == ReflectedBytes(data)
    decreases |data|
  {
    hide Octet, CrcRegister.Bits;
    if data != [] {
      OctetBits(data[0], 8);
      assert Octets(data)[1..] == Octets(data[1..]);
      MessageBits(data[1..]);
    }
  }

  function ReflectedBytes(data: seq<byte>): (p: Poly)
    ensures |p| == 8 * |data|
    decreases |data|
  {
    if data == [] then [] else Reflected(data[0], 8) + ReflectedBytes(data[1..])
  }

  lemma {:induction false} LittleEndianBits(w: u32)
    ensures ReflectedBytes(ToLe(w)) == Reflected(w, 32)
  {
    hide Reflected;
    var b := ToLe(w);
    var (w1, w2, w3) := (w / 0x100, w / 0x100 / 0x100, w / 0x100 / 0x100 / 0x100);
    BytePower();
    ReflectedSplit(b[0], w1, 8, 24);
    ReflectedSplit(b[1], w2, 8, 16);
    ReflectedSplit(b[2], w3, 8, 8);
    assert b[1..] == [b[1], b[2], b[3]] && b[1..][1..] == [b[2], b[3]] && b[1..][1..][1..] == [b[3]];
    assert ReflectedBytes([b[3]]) == Reflected(b[3], 8);
    assert ReflectedBytes([b[2], b[3]]) == Reflected(b[2], 8) + ReflectedBytes([b[3]]);
    assert ReflectedBytes([b[1], b[2], b[3]]) == Reflected(b[1], 8) + ReflectedBytes([b[2], b[3]]);
  }

  /** Four bytes have the same bits as a word of the register and as a number. */
  lemma StoredBits(b: seq<byte>)
    requires |b| == 4
    ensures CrcRegister.Bits(SumOf(b), 32) == Reflected(FromLe(b), 32)
  {
    hide Octet, CrcRegister.Bits, CrcRegister.Word, Reflected;
    var w := SumOf(b);
    FourOctets(Octets(b), w);
    CrcRegister.LeBytesSpell(w);
    CrcRegister.SpelledBits(w, Octets(b), 8);
    MessageBits(b);
    LittleEndianBits(FromLe(b));
    LeRoundTrip(FromLe(b));
    FromLeInjective(b, ToLe(FromLe(b)));
  }

  /** The generator of section 8 of RFC 1952. */
  function Generator(): Poly {
    Plain(0x1_04C1_1DB7, 33)
  }

  lemma DivisorIsGenerator()
    ensures CrcRegister.Divisor(32) == Generator()
  {
    hide Plain, CrcRegister.Bits;
    PolyBytes();
    BytePower();
    PlainSplit(0xB7, 0x1_04C1_1D, 8, 25);
    PlainSplit(0x1D, 0x1_04C1, 8, 17);
    PlainSplit(0xC1, 0x1_04, 8, 9);
    PlainSplit(0x04, 0x1, 8, 1);
    GeneratorBytes();
  }

  /** What is fed back, byte by byte. */
  lemma PolyBytes()
    ensures CrcRegister.Bits(CrcRegister.POLY, 32) ==
            CrcRegister.Bits(0x20, 8)
            + (CrcRegister.Bits(0x83, 8) + (CrcRegister.Bits(0xB8, 8) + CrcRegister.Bits(0xED, 8)))
  {
    hide CrcRegister.Bits;
    CrcRegister.BitsOfByte(CrcRegister.POLY, 0x20, 8, 24);
    CrcRegister.BitsOfByte(0xED_B883, 0x83, 8, 16);
    CrcRegister.BitsOfByte(0xEDB8, 0xB8, 8, 8);
  }

  lemma GeneratorBytes()
    ensures Plain(0x1, 1) == [true]
    ensures Plain(0x04, 8) == CrcRegister.Bits(0x20, 8) && Plain(0xC1, 8) == CrcRegister.Bits(0x83, 8)
    ensures Plain(0x1D, 8) == CrcRegister.Bits(0xB8, 8) && Plain(0xB7, 8) == CrcRegister.Bits(0xED, 8)
  {
    assert Mirrors(0x04, 0x20, 8);
    Mirrored(0x04, 0x20, 8);
    assert Mirrors(0xC1, 0x83, 8);
    Mirrored(0xC1, 0x83, 8);
    assert Mirrors(0x1D, 0xB8, 8);
    Mirrored(0x1D, 0xB8, 8);
    assert Mirrors(0xB7, 0xED, 8);
    Mirrored(0xB7, 0xED, 8);
  }

  /** The `n` lowest bits of `x` are those of `w` in reverse order. */
  predicate Mirrors(x: nat, w: bv32, n: nat)
    decreases n
  {
    if n == 0 then x == 0
    else if CrcRegister.Low(w) then
      x >= PowerOfTwo(n - 1) && Mirrors(x - PowerOfTwo(n - 1), CrcRegister.Half(w), n - 1)
    else
      Mirrors(x, CrcRegister.Half(w), n - 1)
  }

  lemma {:induction false} Mirrored(x: nat, w: bv32, n: nat)
    requires Mirrors(x, w, n)
    ensures x < PowerOfTwo(n) && Plain(x, n) == CrcRegister.Bits(w, n)
    decreases n
  {
    hide CrcRegister.Low, CrcRegister.Half;
    if n > 0 {
      var (b, k) := (if CrcRegister.Low(w) then 1 else 0, PowerOfTwo(n - 1));
      Mirrored(x - b * k, CrcRegister.Half(w), n - 1);
      PlainSplit(x - b * k, b, n - 1, 1);
      assert Plain(b, 1) == [b == 1];
    }
  }

  /**
   The checksum of a number: its complement is, of all words the only one, the remainder of the
   number, read with its lowest bit first, times x^32 divided by the generator.
   */
  lemma SeqChecksumIsRemainder(s: u32, c: Sum)
    ensures c == SeqChecksum(s) <==> Remainder(Reflected(s, 32) + Zeros(32), Generator(), CrcRegister.Bits(!c, 32))
  {
    hide SeqChecksum, CrcRegister.Bits, Reflected, Generator;
    SeqChecksumOnWords(s);
    StoredBits(ToLe(s));
    LeRoundTrip(s);
    DivisorIsGenerator();
    CrcRegister.ChecksumIsRemainder(SumOf(ToLe(s)), c, !c, 32);
  }

  /** `sum` is the checksum of `number`, both as plain 32-bit numbers. */
  ghost predicate Passes(number: u32, sum: u32) {
    Remainder(Reflected(number, 32) + Zeros(32), Generator(), Reflected(U32_MAX - sum, 32))
  }

  /** The bits of a complemented word are those of the number's complement. */
  lemma ComplementBits(b: seq<byte>)
    requires |b| == 4
    ensures CrcRegister.Bits(!SumOf(b), 32) == Reflected(U32_MAX - FromLe(b), 32)
  {
    hide SumOf, CrcRegister.Bits, Reflected, CrcRegister.IsXor, PowerOfTwo;
    var erased := [ERASED, ERASED, ERASED, ERASED];
    CrcRegister.ComplementIsXor(SumOf(b));
    CrcRegister.BitsOfXor(!SumOf(b), SumOf(b), ERASED_SUM, 32);
    StoredBits(b);
    ErasedSum();
    StoredBits(erased);
    assert FromLe(erased) == U32_MAX;
    WordPower();
    ReflectedComplement(FromLe(b), 32);
  }

  /** Four bytes store the checksum of a number exactly if the number they spell does. */
  lemma StoredSumPasses(number: u32, b: seq<byte>)
    requires |b| == 4
    ensures SumOf(b) == SeqChecksum(number) <==> Passes(number, FromLe(b))
  {
    hide *;
    SeqChecksumIsRemainder(number, SumOf(b));
    ComplementBits(b);
    PassesByBits(number, FromLe(b), CrcRegister.Bits(!SumOf(b), 32));
  }

  lemma PassesByBits(number: u32, sum: u32, r: Poly)
    requires r == Reflected(U32_MAX - sum, 32)
    ensures Passes(number, sum) <==> Remainder(Reflected(number, 32) + Zeros(32), Generator(), r)
  {
    hide Remainder, Reflected, Generator;
  }

  /** Number 1, the first that a device has. */
  lemma ChecksumOfOne()
    ensures SeqChecksum(1) == 0x4743_989A
  {
    hide SeqChecksum, Octet;
    SeqChecksumOnWords(1);
    OneWord();
    CrcRegister.ChecksumOfOne(32);
  }

  lemma OneWord()
    ensures SumOf(ToLe(1)) == 1
  {
    hide Octet;
    ConstantOctets();
    OneOctet();
  }

  lemma OneOctet()
    ensures Octet(1) == 1
  {
  }

  lemma ZeroWord()
    ensures SumOf(ToLe(0)) == 0
  {
    hide Octet;
    ConstantOctets();
  }

  /** The checksum reads as erased flash exactly for sequence number 0. */
  lemma SeqChecksumErased(s: u32)
    ensures SeqChecksum(s) == ERASED_SUM <==> s == 0
  {
    SeqChecksumOnWords(s);
    CrcRegister.SeqChecksumErased(SumOf(ToLe(s)), 32);
    ZeroWord();
    if SumOf(ToLe(s)) == 0 {
      SumOfInjective(ToLe(s), ToLe(0));
      LeRoundTrip(s);
      LeRoundTrip(0);
    }
  }
}
