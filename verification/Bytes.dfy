/** Bytes, 32-bit words and their little-endian layout. */
module Bytes {

  type byte = b: int | 0 <= b < 0x100
  type u32 = w: int | 0 <= w < 0x1_0000_0000

  const U32_MAX: u32 := 0xFFFF_FFFF

  /** What erased flash reads as. */
  const ERASED: byte := 0xFF

  /** The word whose bytes are `b0` (least significant) to `b3`. */
  function Word(b0: byte, b1: byte, b2: byte, b3: byte): u32 {
    b0 as int + 0x100 * (b1 as int + 0x100 * (b2 as int + 0x100 * b3 as int))
  }

  /** The four bytes of `w`, least significant first. */
  function ToLe(w: u32): (b: seq<byte>)
    ensures |b| == 4
  {
    var w1 := w / 0x100;
    var w2 := w1 / 0x100;
    var w3 := w2 / 0x100;
    [w % 0x100, w1 % 0x100, w2 % 0x100, w3]
  }

  /** The word stored in four little-endian bytes. */
  function FromLe(b: seq<byte>): u32
    requires |b| == 4
  {
    Word(b[0], b[1], b[2], b[3])
  }

  lemma LeRoundTrip(w: u32)
    ensures FromLe(ToLe(w)) == w
  {
  }

  lemma LowByte(a: byte, p: int, b: byte, q: int)
    requires a as int + 0x100 * p == b as int + 0x100 * q
    ensures a == b && p == q
  {
  }

  lemma WordInjective(a0: byte, a1: byte, a2: byte, a3: byte, b0: byte, b1: byte, b2: byte, b3: byte)
    requires Word(a0, a1, a2, a3) == Word(b0, b1, b2, b3)
    ensures a0 == b0 && a1 == b1 && a2 == b2 && a3 == b3
  {
    LowByte(a0, a1 as int + 0x100 * (a2 as int + 0x100 * a3 as int),
            b0, b1 as int + 0x100 * (b2 as int + 0x100 * b3 as int));
    LowByte(a1, a2 as int + 0x100 * a3 as int, b1, b2 as int + 0x100 * b3 as int);
    LowByte(a2, a3, b2, b3);
  }

  /** Four bytes and the word they spell determine each other. */
  lemma FromLeInjective(a: seq<byte>, b: seq<byte>)
    requires |a| == |b| == 4 && FromLe(a) == FromLe(b)
    ensures a == b
  {
    WordInjective(a[0], a[1], a[2], a[3], b[0], b[1], b[2], b[3]);
  }

  /** A number whose low part is replaced: the high part decides. */
  lemma LowPartReplaced(low: nat, high: nat, low': nat, high': nat, unit: nat)
    requires unit in {0x100, 0x1_0000, 0x100_0000} && low < unit && low' < unit
    requires low + unit * high >= low' + unit * high'
    ensures low' + unit * high >= low' + unit * high'
  {
    if unit == 0x100 {
      assert high >= high';
    } else if unit == 0x1_0000 {
      assert high >= high';
    } else {
      assert high >= high';
    }
  }

  /**
   Overwriting the `k` lowest bytes of a word by those of `n` never leads from a value that is
   at least `n` to one below `n`.
   */
  lemma LowBytesReplaced(old4: seq<byte>, new4: seq<byte>, t: seq<byte>, k: nat)
    requires |old4| == |new4| == |t| == 4
    requires forall i :: 0 <= i < 4 ==> t[i] == if i < k then new4[i] else old4[i]
    requires FromLe(old4) >= FromLe(new4)
    ensures FromLe(t) >= FromLe(new4)
  {
    var (o0, o1, o2, o3) := (old4[0] as int, old4[1] as int, old4[2] as int, old4[3] as int);
    var (n0, n1, n2, n3) := (new4[0] as int, new4[1] as int, new4[2] as int, new4[3] as int);
    if k == 1 {
      LowPartReplaced(o0, o1 + 0x100 * (o2 + 0x100 * o3), n0, n1 + 0x100 * (n2 + 0x100 * n3), 0x100);
    } else if k == 2 {
      LowPartReplaced(o0 + 0x100 * o1, o2 + 0x100 * o3, n0 + 0x100 * n1, n2 + 0x100 * n3, 0x1_0000);
    } else if k == 3 {
      LowPartReplaced(o0 + 0x100 * (o1 + 0x100 * o2), o3, n0 + 0x100 * (n1 + 0x100 * n2), n3, 0x100_0000);
    }
  }
}
