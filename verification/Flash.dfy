/** The flash chip: partition layout, the effect of a write, and what an interrupted write leaves behind. */
module Flash {
  import opened Bytes

  // ---- Layout ----

  const SECTOR_SIZE: nat := 4096

  datatype Partition = Partition(offset: nat, size: nat)

  const NVS: Partition := Partition(0x9000, 0x4000)
  const OTA_DATA: Partition := Partition(0xD000, 0x2000)
  const OTA_0: Partition := Partition(0x1_0000, 0x18_0000)
  const OTA_1: Partition := Partition(0x19_0000, 0x18_0000)

  /** The end of the last partition; the chip is at least this large. */
  const LAYOUT_END: nat := 0x31_0000

  function SectorStart(a: nat): nat {
    a / SECTOR_SIZE * SECTOR_SIZE
  }

  /** The first sector boundary at or after `a`. */
  function SectorEnd(a: nat): nat {
    (a + SECTOR_SIZE - 1) / SECTOR_SIZE * SECTOR_SIZE
  }

  // ---- A write ----

  ghost predicate Fits(m: seq<byte>, offset: nat, buf: seq<byte>) {
    offset + |buf| <= |m|
  }

  /** The contents after `buf` was written at `offset`. */
  function Written(m: seq<byte>, offset: nat, buf: seq<byte>): (w: seq<byte>)
    requires offset + |buf| <= |m|
    ensures |w| == |m|
    ensures w[offset..offset + |buf|] == buf
    ensures forall i :: 0 <= i < |m| && !(offset <= i < offset + |buf|) ==> w[i] == m[i]
  {
    m[..offset] + buf + m[offset + |buf|..]
  }

  lemma WrittenAt(m: seq<byte>, offset: nat, buf: seq<byte>, j: nat)
    requires offset + |buf| <= |m| && j < |m|
    ensures Written(m, offset, buf)[j] == if offset <= j < offset + |buf| then buf[j - offset] else m[j]
  {
  }

  /** A write changes no range beside it. */
  lemma WrittenBeside(m: seq<byte>, offset: nat, buf: seq<byte>, i: nat, j: nat)
    requires offset + |buf| <= |m| && i <= j <= |m|
    requires j <= offset || offset + |buf| <= i
    ensures Written(m, offset, buf)[i..j] == m[i..j]
  {
  }

  /** A range cut in three. */
  lemma RangeInThree(m: seq<byte>, a: nat, i: nat, j: nat, n: nat)
    requires i <= j <= n && a + n <= |m|
    ensures m[a..a + n] == m[a..a + i] + m[a + i..a + j] + m[a + j..a + n]
    ensures m[a..a + n][..i] == m[a..a + i] && m[a..a + n][j..] == m[a + j..a + n]
  {
  }

  /** A range of the rest of the flash from `a` on. */
  lemma RangeOfRest(m: seq<byte>, a: nat, i: nat, j: nat)
    requires a <= i <= j <= |m|
    ensures m[a..][i - a..j - a] == m[i..j]
  {
  }

  /**
   The byte at `i` when a write of `buf` stopped at position `p`: everything before `p` is
   done; if the sector around `p` had been erased to be rewritten, the rest of it is still
   erased; everything else is old.
   */
  function TornByte(m: seq<byte>, offset: nat, buf: seq<byte>, p: nat, erased: bool, i: nat): byte
    requires offset + |buf| <= |m| && i < |m|
  {
    if i < p then Written(m, offset, buf)[i]
    else if erased && i < SectorStart(p) + SECTOR_SIZE then ERASED
    else m[i]
  }

  ghost predicate TornAt(m: seq<byte>, t: seq<byte>, offset: nat, buf: seq<byte>, p: nat, erased: bool)
    requires Fits(m, offset, buf)
  {
    && |t| == |m|
    && SectorStart(offset) <= p <= SectorEnd(offset + |buf|)
    && (erased ==> p < SectorEnd(offset + |buf|))
    && forall i :: 0 <= i < |m| ==> t[i] == TornByte(m, offset, buf, p, erased, i)
  }

  /** `t` is what an interrupted write of `buf` at `offset` can leave of `m`. */
  ghost predicate Torn(m: seq<byte>, t: seq<byte>, offset: nat, buf: seq<byte>)
    requires Fits(m, offset, buf)
  {
    exists p: nat, erased: bool :: TornAt(m, t, offset, buf, p, erased)
  }

  lemma TornAtAddress(m: seq<byte>, t: seq<byte>, offset: nat, buf: seq<byte>, p: nat, erased: bool, j: nat)
    requires Fits(m, offset, buf) && TornAt(m, t, offset, buf, p, erased) && j < |m|
    ensures |t| == |m|
    ensures t[j] == if j < p then (if offset <= j < offset + |buf| then buf[j - offset] else m[j])
                    else if erased && j < SectorStart(p) + SECTOR_SIZE then ERASED else m[j]
  {
    hide Written, SectorStart;
    assert t[j] == TornByte(m, offset, buf, p, erased, j);
    WrittenAt(m, offset, buf, j);
  }

  lemma TornSomewhere(m: seq<byte>, t: seq<byte>, offset: nat, buf: seq<byte>, p: nat, erased: bool)
    requires Fits(m, offset, buf) && TornAt(m, t, offset, buf, p, erased)
    ensures Torn(m, t, offset, buf)
  {
  }

  /** An interrupted write stays within the sectors it touches. */
  lemma TornOutside(m: seq<byte>, t: seq<byte>, offset: nat, buf: seq<byte>)
    requires Fits(m, offset, buf) && Torn(m, t, offset, buf)
    ensures |t| == |m|
    ensures forall i :: 0 <= i < |m| && !(SectorStart(offset) <= i < SectorEnd(offset + |buf|)) ==> t[i] == m[i]
  {
    var p: nat, erased: bool :| TornAt(m, t, offset, buf, p, erased);
    forall i | 0 <= i < |m| && !(SectorStart(offset) <= i < SectorEnd(offset + |buf|)) ensures t[i] == m[i] {
      assert t[i] == TornByte(m, offset, buf, p, erased, i);
    }
  }

  /** A finished write is the last of the states it passes through, untouched flash the first. */
  lemma TornEnds(m: seq<byte>, offset: nat, buf: seq<byte>)
    requires Fits(m, offset, buf)
    ensures Torn(m, m, offset, buf)
    ensures Torn(m, Written(m, offset, buf), offset, buf)
  {
    assert TornAt(m, m, offset, buf, SectorStart(offset), false);
    assert TornAt(m, Written(m, offset, buf), offset, buf, SectorEnd(offset + |buf|), false);
  }

  /** Within the bytes written, an interruption leaves a prefix of the new over the old, or over erased flash. */
  lemma TornRange(m: seq<byte>, t: seq<byte>, offset: nat, buf: seq<byte>) returns (k: nat, erased: bool)
    requires Fits(m, offset, buf) && Torn(m, t, offset, buf)
    requires SectorStart(offset) == offset && |buf| < SECTOR_SIZE
    ensures |t| == |m| && k <= |buf|
    ensures
      var (before, after) := (m[offset..offset + |buf|], t[offset..offset + |buf|]);
      forall i :: 0 <= i < |buf| ==> after[i] == if i < k then buf[i] else if erased then ERASED else before[i]
  {
    var p: nat, e: bool :| TornAt(m, t, offset, buf, p, e);
    k := if p - offset <= |buf| then p - offset else |buf|;
    erased := e;
    var (before, after) := (m[offset..offset + |buf|], t[offset..offset + |buf|]);
    forall i | 0 <= i < |buf|
      ensures after[i] == if i < k then buf[i] else if erased then ERASED else before[i]
    {
      var j := offset + i;
      assert t[j] == TornByte(m, offset, buf, p, e, j);
      assert Written(m, offset, buf)[j] == Written(m, offset, buf)[offset..offset + |buf|][i] == buf[i];
    }
  }

  // ---- The driver ----

  /** Erased flash. */
  ghost predicate Blank(b: seq<byte>) {
    forall i :: 0 <= i < |b| ==> b[i] == ERASED
  }

  datatype StorageError = OutOfBounds | IoError
  datatype Result<+T> = Ok(value: T) | Err(error: StorageError)

  class FlashStorage {
    const cells: array<byte>

    /** Whether this chip never fails. */
    const reliable: bool

    ghost predicate Valid() {
      cells.Length >= LAYOUT_END
    }

    constructor (capacity: nat, reliable: bool)
      requires capacity >= LAYOUT_END
      ensures Valid() && fresh(cells) && cells.Length == capacity && this.reliable == reliable
      ensures Blank(cells[..])
    {
      this.reliable := reliable;
      cells := new byte[capacity](_ => ERASED);
    }

    /** Reads `len` bytes, unless out of bounds or the chip fails. */
    method Read(offset: nat, len: nat) returns (r: Result<seq<byte>>)
      ensures r.Ok? ==> offset + len <= cells.Length && r.value == cells[offset..offset + len]
      ensures r == Err(OutOfBounds) <==> offset + len > cells.Length
      ensures r == Err(IoError) ==> !reliable
    {
      if offset + len > cells.Length {
        return Err(OutOfBounds);
      }
      var fault: bool := *;
      if fault && !reliable {
        return Err(IoError);
      }
      return Ok(cells[offset..offset + len]);
    }

    /** Writes `buf`; a failure of the chip leaves the write interrupted anywhere. */
    method Write(offset: nat, buf: seq<byte>) returns (r: Result<()>)
      modifies cells
      ensures r == Err(OutOfBounds) <==> offset + |buf| > cells.Length
      ensures r == Err(OutOfBounds) ==> cells[..] == old(cells[..])
      ensures r.Ok? ==> cells[..] == Written(old(cells[..]), offset, buf)
      ensures r == Err(IoError) ==> !reliable && Torn(old(cells[..]), cells[..], offset, buf)
    {
      if offset + |buf| > cells.Length {
        return Err(OutOfBounds);
      }
      var before := cells[..];
      var fault: bool, erased: bool := *, *;
      if reliable {
        fault := false;
      }
      var p: nat := SectorEnd(offset + |buf|);
      if fault {
        p :| SectorStart(offset) <= p <= SectorEnd(offset + |buf|);
      }
      if !fault || p == SectorEnd(offset + |buf|) {
        erased := false;
      }
      forall i | 0 <= i < cells.Length {
        cells[i] := TornByte(before, offset, buf, p, erased, i);
      }
      if fault {
        assert TornAt(before, cells[..], offset, buf, p, erased);
        return Err(IoError);
      }
      assert cells[..] == Written(before, offset, buf);
      return Ok(());
    }
  }
}
