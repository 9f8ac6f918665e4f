/**
 A 32-bit CRC register on bit vectors: polynomial 0x04C11DB7 reflected, message bits least
 significant first.
 */
module CrcRegister {
  import opened Polynomials

  type octet = bv8

  /** The word whose bytes are `b0` (least significant) to `b3`. */
  function Word(b0: octet, b1: octet, b2: octet, b3: octet): bv32 {
    (b0 as bv32) | ((b1 as bv32) << 8) | ((b2 as bv32) << 16) | ((b3 as bv32) << 24)
  }

  function Octets(w: bv32): (b: seq<octet>)
    ensures |b| == 4
  {
    [ (w & 0xFF) as octet,
      ((w >> 8) & 0xFF) as octet,
      ((w >> 16) & 0xFF) as octet,
      ((w >> 24) & 0xFF) as octet ]
  }

  lemma WordInjective(a0: octet, a1: octet, a2: octet, a3: octet, b0: octet, b1: octet, b2: octet, b3: octet)
    requires Word(a0, a1, a2, a3) == Word(b0, b1, b2, b3)
    ensures a0 == b0 && a1 == b1 && a2 == b2 && a3 == b3
  {
  }

  lemma OctetsOfWord(b0: octet, b1: octet, b2: octet, b3: octet)
    ensures Octets(Word(b0, b1, b2, b3))[0] == b0
    ensures Octets(Word(b0, b1, b2, b3))[1] == b1
    ensures Octets(Word(b0, b1, b2, b3))[2] == b2
    ensures Octets(Word(b0, b1, b2, b3))[3] == b3
  {
  }

  const POLY: bv32 := 0xEDB8_8320

  /** `w` with its 32 bits in reverse order. */
  function Reflect(w: bv32): bv32 {
    var a := ((w >> 1) & 0x5555_5555) | ((w & 0x5555_5555) << 1);
    var b := ((a >> 2) & 0x3333_3333) | ((a & 0x3333_3333) << 2);
    var c := ((b >> 4) & 0x0F0F_0F0F) | ((b & 0x0F0F_0F0F) << 4);
    var d := ((c >> 8) & 0x00FF_00FF) | ((c & 0x00FF_00FF) << 8);
    (d >> 16) | (d << 16)
  }

  /** What the lowest bit of `v` feeds back into the register. */
  function Feed(v: bv32): bv32 {
    if v & 1 == 1 then POLY else 0
  }

  /** It feeds back the generator's bits in reverse order. */
  lemma PolyIsReflected(v: bv32)
    ensures Feed(v) == if v & 1 == 1 then Reflect(0x04C1_1DB7) else 0
  {
  }

  /** The register moved on by one bit, with `f` fed back. */
  function Shift(r: bv32, f: bv32): bv32 {
    (r >> 1) ^ f
  }

  /** One clock of the register, taking in the lowest bit of `w`. */
  function ClockIn(r: bv32, w: bv32): bv32 {
    Shift(r, Feed(r ^ w))
  }

  /** The register after the `n` lowest bits of `w`, least significant first. */
  function Serial(r: bv32, w: bv32, n: nat): bv32
    decreases n
  {
    if n == 0 then r else Serial(ClockIn(r, w), w >> 1, n - 1)
  }

  /** The register after the bytes of `data`. */
  function Register(r: bv32, data: seq<octet>): bv32
    decreases |data|
  {
    if data == [] then r else Register(Serial(r, data[0] as bv32, 8), data[1..])
  }

  function Checksum(data: seq<octet>): bv32 {
    !Register(0, data)
  }

  /** The checksum of a sequence number. */
  function SeqChecksum(s: bv32): bv32 {
    Checksum(Octets(s))
  }

  // ---- A free-running clock is a bijection ----

  function Clock(r: bv32): bv32 {
    Shift(r, Feed(r))
  }

  function Steps(r: bv32, n: nat): bv32
    decreases n
  {
    if n == 0 then r else Steps(Clock(r), n - 1)
  }

  lemma ClockInjective(a: bv32, b: bv32)
    requires Clock(a) == Clock(b)
    ensures a == b
  {
  }

  lemma {:induction false} StepsInjective(a: bv32, b: bv32, n: nat)
    requires Steps(a, n) == Steps(b, n)
    ensures a == b
    decreases n
  {
    if n > 0 {
      StepsInjective(Clock(a), Clock(b), n - 1);
      ClockInjective(a, b);
    }
  }

  lemma {:induction false} StepsOfZero(n: nat)
    ensures Steps(0, n) == 0
    decreases n
  {
    if n > 0 {
      StepsOfZero(n - 1);
    }
  }

  // ---- Taking bits in one at a time equals starting the clock on the whole word ----

  function Drop(w: bv32, n: nat): bv32
    decreases n
  {
    if n == 0 then w else Drop(w >> 1, n - 1)
  }

  lemma ShiftedXor(r: bv32, w: bv32, v: bv32, f: bv32)
    requires v == r ^ w
    ensures Shift(v, f) == Shift(r, f) ^ (w >> 1)
  {
  }

  lemma ClockPreloaded(r: bv32, w: bv32, v: bv32)
    requires v == r ^ w
    ensures Clock(v) == ClockIn(r, w) ^ (w >> 1)
  {
    hide Feed, Shift;
    ShiftedXor(r, w, v, Feed(v));
  }

  lemma {:induction false} Preloaded(r: bv32, w: bv32, v: bv32, n: nat)
    requires v == r ^ w
    ensures Steps(v, n) == Serial(r, w, n) ^ Drop(w, n)
    decreases n
  {
    if n > 0 {
      ClockPreloaded(r, w, v);
      Preloaded(ClockIn(r, w), w >> 1, Clock(v), n - 1);
    }
  }

  lemma DropByte(w: bv32)
    ensures Drop(w, 8) == w >> 8
  {
  }

  lemma {:induction false} SerialCompose(r: bv32, w: bv32, m: nat, n: nat)
    ensures Serial(r, w, m + n) == Serial(Serial(r, w, m), Drop(w, m), n)
    decreases m
  {
    if m > 0 {
      SerialCompose(ClockIn(r, w), w >> 1, m - 1, n);
    }
  }

  ghost predicate Ones(m: bv32, n: nat)
    decreases n
  {
    n == 0 || (m & 1 == 1 && Ones(m >> 1, n - 1))
  }

  lemma SameLowBit(r: bv32, w: bv32, v: bv32, m: bv32)
    requires w & m == v & m && m & 1 == 1
    ensures ClockIn(r, w) == ClockIn(r, v)
    ensures (w >> 1) & (m >> 1) == (v >> 1) & (m >> 1)
  {
  }

  /** Only the bits taken in matter. */
  lemma {:induction false} SerialLowBits(r: bv32, w: bv32, v: bv32, m: bv32, n: nat)
    requires w & m == v & m && Ones(m, n)
    ensures Serial(r, w, n) == Serial(r, v, n)
    decreases n
  {
    if n > 0 {
      SameLowBit(r, w, v, m);
      SerialLowBits(ClockIn(r, w), w >> 1, v >> 1, m >> 1, n - 1);
    }
  }

  lemma SerialByte(r: bv32, w: bv32, b: bv32, n: nat, rest: nat)
    requires n == 8
    requires b == w & 0xFF
    ensures Serial(r, w, n + rest) == Serial(Serial(r, b, n), w >> 8, rest)
  {
    assert Ones(0xFF, n);
    assert w & 0xFF == b & 0xFF;
    SerialLowBits(r, w, b, 0xFF, n);
    SerialCompose(r, w, n, rest);
    DropByte(w);
  }

  lemma RegisterByte(r: bv32, data: seq<octet>, b: bv32, n: nat)
    requires n == 8 && |data| > 0 && b == data[0] as bv32
    ensures Register(r, data) == Register(Serial(r, b, n), data[1..])
  {
  }

  /** `b` holds the lowest |b| bytes of `s`, least significant first. */
  ghost predicate Spells(s: bv32, b: seq<octet>)
    decreases |b|
  {
    b == [] || (b[0] as bv32 == s & 0xFF && Spells(s >> 8, b[1..]))
  }

  lemma OctetsSpells(s: bv32, b: seq<octet>)
    requires |b| == 4
    requires b[0] as bv32 == s & 0xFF && b[1] as bv32 == (s >> 8) & 0xFF
    requires b[2] as bv32 == ((s >> 8) >> 8) & 0xFF && b[3] as bv32 == (((s >> 8) >> 8) >> 8) & 0xFF
    ensures Spells(s, b)
  {
    assert Spells(((s >> 8) >> 8) >> 8, b[1..][1..][1..]);
    assert Spells((s >> 8) >> 8, b[1..][1..]);
  }

  lemma Portions(s: bv32)
    ensures Octets(s)[0] as bv32 == s & 0xFF
    ensures Octets(s)[1] as bv32 == (s >> 8) & 0xFF
    ensures Octets(s)[2] as bv32 == ((s >> 8) >> 8) & 0xFF
    ensures Octets(s)[3] as bv32 == (((s >> 8) >> 8) >> 8) & 0xFF
  {
  }

  /** Byte by byte or bit by bit, the register takes in the same message. */
  lemma {:induction false} BytesAreBits(r: bv32, s: bv32, b: seq<octet>, n: nat)
    requires n == 8 && Spells(s, b)
    ensures Register(r, b) == Serial(r, s, 8 * |b|)
    decreases |b|
  {
    if b != [] {
      RegisterByte(r, b, b[0] as bv32, n);
      SerialByte(r, s, b[0] as bv32, n, 8 * (|b| - 1));
      BytesAreBits(Serial(r, b[0] as bv32, n), s >> 8, b[1..], n);
    }
  }

  lemma LeBytesSpell(s: bv32)
    ensures Spells(s, Octets(s))
  {
    Portions(s);
    OctetsSpells(s, Octets(s));
  }

  lemma SpelledChecksum(s: bv32, b: seq<octet>, n: nat)
    requires n == 32 && |b| == 4 && Spells(s, b)
    ensures Checksum(b) == !Steps(s, n)
  {
    hide Serial, Steps, Register, Spells;
    BytesAreBits(0, s, b, 8);
    BitsArePreloaded(s, n);
  }

  /** The byte-serial checksum of a word is the word clocked 32 times and complemented. */
  lemma WordSerial(s: bv32, n: nat)
    requires n == 32
    ensures SeqChecksum(s) == !Steps(s, n)
  {
    LeBytesSpell(s);
    SpelledChecksum(s, Octets(s), n);
  }

  lemma BitsArePreloaded(s: bv32, n: nat)
    requires n == 32
    ensures Serial(0, s, n) == Steps(s, n)
  {
    hide Serial, Steps, Drop;
    XorZero(s);
    XorZero(Serial(0, s, n));
    Preloaded(0, s, s, n);
    DropWord(s, 8);
  }

  lemma XorZero(w: bv32)
    ensures w ^ 0 == w && 0 ^ w == w
  {
  }

  lemma DropWord(w: bv32, n: nat)
    requires n == 8
    ensures Drop(w, n + n + n + n) == 0
  {
    DropCompose(w, n, n + n + n);
    DropCompose(w >> 8, n, n + n);
    DropCompose((w >> 8) >> 8, n, n);
    DropByte(w);
    DropByte(w >> 8);
    DropByte((w >> 8) >> 8);
    DropByte(((w >> 8) >> 8) >> 8);
  }

  lemma {:induction false} DropCompose(w: bv32, m: nat, n: nat)
    ensures Drop(w, m + n) == Drop(Drop(w, m), n)
    decreases m
  {
    if m > 0 {
      DropCompose(w >> 1, m - 1, n);
    }
  }

  // ---- The register divides polynomials ----

  predicate Low(w: bv32) {
    w & 1 == 1
  }

  function Half(w: bv32): bv32 {
    w >> 1
  }

  /** The `n` lowest bits of `w`, least significant first. */
  function Bits(w: bv32, n: nat): (b: Poly)
    ensures |b| == n
    decreases n
  {
    if n == 0 then [] else [Low(w)] + Bits(Half(w), n - 1)
  }

  predicate IsXor(x: bv32, v: bv32, w: bv32) {
    x == v ^ w
  }

  lemma LowBitOfXor(x: bv32, v: bv32, w: bv32)
    requires IsXor(x, v, w)
    ensures Low(x) <==> Low(v) != Low(w)
    ensures IsXor(Half(x), Half(v), Half(w))
  {
  }

  lemma {:induction false} BitsOfXor(x: bv32, v: bv32, w: bv32, n: nat)
    requires IsXor(x, v, w)
    ensures Bits(x, n) == Sum(Bits(v, n), Bits(w, n))
    decreases n
  {
    hide Low, Half, IsXor;
    if n > 0 {
      LowBitOfXor(x, v, w);
      BitsOfXor(Half(x), Half(v), Half(w), n - 1);
      SumFirst(Low(v), Low(w), Bits(Half(v), n - 1), Bits(Half(w), n - 1));
    }
  }

  lemma {:induction false} BitsSplit(w: bv32, m: nat, n: nat)
    ensures Bits(w, m + n) == Bits(w, m) + Bits(Drop(w, m), n)
    decreases m
  {
    hide Low;
    if m > 0 {
      BitsSplit(Half(w), m - 1, n);
    }
  }

  lemma {:induction false} BitsInjective(v: bv32, w: bv32, n: nat)
    requires Bits(v, n) == Bits(w, n) && Drop(v, n) == Drop(w, n)
    ensures v == w
    decreases n
  {
    if n > 0 {
      var (bv, bw) := (Bits(v, n), Bits(w, n));
      assert bv[0] == bw[0] && bv[1..] == bw[1..];
      BitsInjective(Half(v), Half(w), n - 1);
      BitAndRest(v, w);
    }
  }

  lemma BitAndRest(v: bv32, w: bv32)
    requires Low(v) == Low(w) && Half(v) == Half(w)
    ensures v == w
  {
  }

  lemma NoBitsAbove(w: bv32, n: nat)
    requires n == 32
    ensures Drop(w, n) == 0
  {
    DropWord(w, 8);
  }

  lemma WordsByBits(v: bv32, w: bv32, n: nat)
    requires n == 32 && Bits(v, n) == Bits(w, n)
    ensures v == w
  {
    hide Bits, Drop;
    NoBitsAbove(v, n);
    NoBitsAbove(w, n);
    BitsInjective(v, w, n);
  }

  /** A word moved down by one bit. */
  lemma BitsMoved(w: bv32, n: nat)
    requires n == 32
    ensures Bits(w, n) + [false] == [Low(w)] + Bits(Half(w), n)
  {
    hide Low, Half, Drop;
    BitsSplit(w, n, 1);
    NoBitsAbove(w, n);
    assert Bits(w, n + 1) == [Low(w)] + Bits(Half(w), n);
    NoBits(Drop(w, n), 1);
  }

  lemma {:induction false} NoBits(w: bv32, n: nat)
    requires w == 0
    ensures Bits(w, n) == Zeros(n)
    decreases n
  {
    if n > 0 {
      NoBits(Half(w), n - 1);
    }
  }

  lemma SameLow(v: bv32, w: bv32, m: bv32)
    requires v & m == w & m && m & 1 == 1
    ensures Low(v) == Low(w)
    ensures Half(v) & (m >> 1) == Half(w) & (m >> 1)
  {
  }

  lemma {:induction false} SameBits(v: bv32, w: bv32, m: bv32, n: nat)
    requires v & m == w & m && Ones(m, n)
    ensures Bits(v, n) == Bits(w, n)
    decreases n
  {
    if n > 0 {
      SameLow(v, w, m);
      SameBits(Half(v), Half(w), m >> 1, n - 1);
    }
  }

  /** The lowest byte of a word, and the rest. */
  lemma BitsOfByte(w: bv32, b: bv32, n: nat, rest: nat)
    requires n == 8 && b == w & 0xFF
    ensures Bits(w, n + rest) == Bits(b, n) + Bits(w >> 8, rest)
  {
    assert Ones(0xFF, n);
    assert w & 0xFF == b & 0xFF;
    SameBits(w, b, 0xFF, n);
    BitsSplit(w, n, rest);
    DropByte(w);
  }

  lemma {:induction false} SpelledBits(s: bv32, b: seq<octet>, n: nat)
    requires n == 8 && Spells(s, b)
    ensures Bits(s, 8 * |b|) == BitsOf(b)
    decreases |b|
  {
    if b != [] {
      BitsOfByte(s, b[0] as bv32, n, 8 * (|b| - 1));
      SpelledBits(s >> 8, b[1..], n);
    }
  }

  /** The bits of a message, in the order in which they are taken in. */
  function BitsOf(data: seq<octet>): (p: Poly)
    ensures |p| == 8 * |data|
    decreases |data|
  {
    if data == [] then [] else Bits(data[0] as bv32, 8) + BitsOf(data[1..])
  }

  lemma ComplementIsXor(w: bv32)
    ensures IsXor(!w, w, 0xFFFF_FFFF)
  {
  }

  /** What the register divides by: the power it shifts out, and what is fed back for it. */
  function Divisor(n: nat): (g: Poly)
    ensures |g| == n + 1 && g[0]
  {
    [true] + Bits(POLY, n)
  }

  /** One clock is one step of long division. */
  lemma ClockDivides(r: bv32, n: nat, k: nat)
    requires n == 32
    ensures
      var p := Bits(r, n) + Zeros(k + 1);
      var rest := Bits(Clock(r), n) + Zeros(k);
      p == Sum(Scaled(Low(r), Divisor(n)) + Zeros(k), [false] + rest)
  {
    hide Bits, Clock, Feed, Low, Half, IsXor;
    BitsMoved(r, n);
    ClockByFeed(r);
    BitsOfXor(Clock(r), Half(r), Feed(r), n);
    NoBits(0, n);
    OneStep(Bits(r, n), Bits(Half(r), n), Bits(POLY, n), Bits(Clock(r), n), Low(r), k);
  }

  lemma OneStep(p: Poly, moved: Poly, poly: Poly, clocked: Poly, b: bool, k: nat)
    requires |p| == |moved| == |poly| == |clocked|
    requires p + [false] == [b] + moved && clocked == Sum(moved, Scaled(b, poly))
    ensures p + Zeros(k + 1) == Sum(Scaled(b, [true] + poly) + Zeros(k), [false] + (clocked + Zeros(k)))
  {
    var n := |p|;
    var (s, t) := (Scaled(b, [true] + poly) + Zeros(k), [false] + (clocked + Zeros(k)));
    forall i | 0 <= i < n + 1 + k ensures (p + Zeros(k + 1))[i] == Sum(s, t)[i] {
      if i <= n {
        assert (p + Zeros(k + 1))[i] == (p + [false])[i] == ([b] + moved)[i];
      }
    }
  }

  lemma ClockByFeed(r: bv32)
    ensures IsXor(Clock(r), Half(r), Feed(r))
    ensures Feed(r) == if Low(r) then POLY else 0
  {
  }

  /** `k` clocks are a division that leaves the register as the remainder. */
  lemma {:induction false} StepsDivide(r: bv32, n: nat, k: nat) returns (q: Poly)
    requires n == 32
    ensures Division(Bits(r, n) + Zeros(k), Divisor(n), q, Bits(Steps(r, k), n)) && |q| == k
    decreases k
  {
    hide Bits, Clock, Division, Divisor, Low;
    if k == 0 {
      q := [];
      NothingDivided(Bits(r, n), Divisor(n));
    } else {
      var rest := StepsDivide(Clock(r), n, k - 1);
      ClockDivides(r, n, k - 1);
      q := [Low(r)] + rest;
      DivisionStep(Bits(r, n) + Zeros(k), Divisor(n), Low(r), Bits(Clock(r), n) + Zeros(k - 1), rest,
                   Bits(Steps(r, k), n));
    }
  }

  lemma NothingDivided(r: Poly, g: Poly)
    requires |g| == |r| + 1
    ensures Division(r + Zeros(0), g, [], r)
  {
    var s := Sum(Times([], g), Zeros(0) + r);
    assert forall i :: 0 <= i < |r| ==> s[i] == r[i];
  }

  /** The remainder of a word times x^32 is the register after 32 clocks, and only that is. */
  lemma StepsAreRemainder(s: bv32, r: bv32, n: nat)
    requires n == 32
    ensures r == Steps(s, n) <==> Remainder(Bits(s, n) + Zeros(n), Divisor(n), Bits(r, n))
  {
    hide Bits, Steps, Division, Divisor;
    var q := StepsDivide(s, n, n);
    if Remainder(Bits(s, n) + Zeros(n), Divisor(n), Bits(r, n)) {
      RemainderUnique(Bits(s, n) + Zeros(n), Divisor(n), Bits(Steps(s, n), n), Bits(r, n));
      WordsByBits(Steps(s, n), r, n);
    }
  }

  /** A checksum `c` is the right one exactly if its complement `r` is that remainder. */
  lemma ChecksumIsRemainder(s: bv32, c: bv32, r: bv32, n: nat)
    requires n == 32 && IsComplement(r, c)
    ensures c == SeqChecksum(s) <==> Remainder(Bits(s, n) + Zeros(n), Divisor(n), Bits(r, n))
  {
    hide *;
    ChecksumIsComplement(s, n);
    StepsAreRemainder(s, r, n);
    if r == Steps(s, n) {
      ComplementSymmetric(SeqChecksum(s), Steps(s, n));
      ComplementUnique(r, c, SeqChecksum(s));
    } else if c == SeqChecksum(s) {
      ComplementSymmetric(r, c);
      ComplementUnique(c, r, Steps(s, n));
    }
  }

  predicate IsComplement(v: bv32, w: bv32) {
    v == !w
  }

  lemma ChecksumIsComplement(s: bv32, n: nat)
    requires n == 32
    ensures IsComplement(SeqChecksum(s), Steps(s, n))
  {
    hide Steps, SeqChecksum;
    WordSerial(s, n);
  }

  lemma ComplementSymmetric(v: bv32, w: bv32)
    requires IsComplement(v, w)
    ensures IsComplement(w, v)
  {
  }

  lemma ComplementUnique(v: bv32, w: bv32, w': bv32)
    requires IsComplement(v, w) && IsComplement(v, w')
    ensures w == w'
  {
  }

  lemma {:induction false} StepsCompose(r: bv32, m: nat, n: nat)
    ensures Steps(r, m + n) == Steps(Steps(r, m), n)
    decreases m
  {
    if m > 0 {
      StepsCompose(Clock(r), m - 1, n);
    }
  }

  /** The checksum of number 1. */
  lemma ChecksumOfOne(n: nat)
    requires n == 32
    ensures SeqChecksum(1) == 0x4743_989A
  {
    hide Steps;
    WordSerial(1, n);
    StepsCompose(1, 8, 24);
    StepsCompose(0x7707_3096, 8, 16);
    StepsCompose(0x191B_3141, 8, 8);
    StepsOfOne();
  }

  lemma StepsOfOne()
    ensures Steps(1, 8) == 0x7707_3096 && Steps(0x7707_3096, 8) == 0x191B_3141
    ensures Steps(0x191B_3141, 8) == 0x01C2_6A37 && Steps(0x01C2_6A37, 8) == 0xB8BC_6765
  {
    hide Steps;
    EightClocks(1);
    EightClocks(0x7707_3096);
    EightClocks(0x191B_3141);
    EightClocks(0x01C2_6A37);
  }

  lemma EightClocks(r: bv32)
    ensures Steps(r, 8) == Clock(Clock(Clock(Clock(Clock(Clock(Clock(Clock(r))))))))
  {
    hide Clock;
    assert forall v :: Steps(v, 1) == Clock(v);
  }

  // ---- What the select entries rely on ----

  /** Distinct sequence numbers have distinct checksums. */
  lemma SeqChecksumInjective(a: bv32, b: bv32, n: nat)
    requires n == 32
    requires SeqChecksum(a) == SeqChecksum(b)
    ensures a == b
  {
    hide SeqChecksum;
    WordSerial(a, n);
    WordSerial(b, n);
    ComplementInjective(Steps(a, n), Steps(b, n));
    StepsInjective(a, b, n);
  }

  lemma ComplementInjective(a: bv32, b: bv32)
    ensures !a == !b ==> a == b
  {
  }

  /** The checksum reads as erased flash exactly for sequence number 0. */
  lemma SeqChecksumErased(s: bv32, n: nat)
    requires n == 32
    ensures SeqChecksum(s) == 0xFFFF_FFFF <==> s == 0
  {
    WordSerial(s, n);
    StepsOfZero(n);
    if SeqChecksum(s) == 0xFFFF_FFFF {
      assert Steps(s, n) == 0;
      StepsInjective(s, 0, n);
    }
  }
}
