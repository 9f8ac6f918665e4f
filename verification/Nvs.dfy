/** The non-volatile store: a validity magic followed by fields. */
module Nvs {
  import opened Bytes
  import opened Flash

  const MAGIC: u32 := 0xDEAD_BEEF
  const MIN_OFFSET: u32 := 4

  /** Offsets and lengths are added in 32 bits. */
  const WRAP: int := 0x1_0000_0000

  datatype NvsError = OutOfBounds | Storage(error: StorageError)
  datatype NvsResult<+T> = Done(value: T) | Failed(error: NvsError)

  function MagicBytes(m: seq<byte>): (b: seq<byte>)
    requires |m| >= LAYOUT_END
    ensures |b| == 4
  {
    m[NVS.offset..NVS.offset + 4]
  }

  predicate IsValid(m: seq<byte>)
    requires |m| >= LAYOUT_END
  {
    FromLe(MagicBytes(m)) == MAGIC
  }

  /** The store accepts the range, in 32-bit arithmetic. */
  predicate ValidOffset(offset: u32, len: u32) {
    !(offset < MIN_OFFSET || (offset + len) % WRAP > NVS.size)
  }

  /** Where a range of the store starts in flash. */
  function Address(offset: u32): nat {
    (NVS.offset + offset) % WRAP
  }

  /** The range lies between the magic and the end of the partition. */
  predicate InStore(offset: u32, len: u32) {
    4 <= offset && offset as int + len as int <= 0x4000
  }

  /**
   Every range in the store is accepted.  Beyond those, exactly the ranges are that end past the
   32-bit numbers and, wrapped around, at or before the end of the partition.
   */
  lemma ValidOffsetExact(offset: u32, len: u32)
    ensures InStore(offset, len) ==> ValidOffset(offset, len) && Address(offset) == NVS.offset + offset
    ensures ValidOffset(offset, len) != InStore(offset, len) <==>
            offset >= 4 && 0 <= offset as int + len as int - 0x1_0000_0000 <= 0x4000
  {
  }

  /** The magic, and the flash with it set or cleared. */
  function MagicFor(valid: bool): (b: seq<byte>)
    ensures |b| == 4
  {
    if valid then ToLe(MAGIC) else [0, 0, 0, 0]
  }

  lemma MagicIsReadBack(m: seq<byte>, valid: bool)
    requires |m| >= LAYOUT_END
    ensures IsValid(Written(m, NVS.offset, MagicFor(valid))) <==> valid
  {
    LeRoundTrip(MAGIC);
    assert MagicBytes(Written(m, NVS.offset, MagicFor(valid))) == MagicFor(valid);
  }

  /** The store is valid exactly if it begins with these four bytes. */
  lemma ValidOnBytes(m: seq<byte>)
    requires |m| >= LAYOUT_END
    ensures IsValid(m) <==> m[0x9000..0x9004] == [0xEF, 0xBE, 0xAD, 0xDE]
  {
    LeRoundTrip(MAGIC);
    assert ToLe(MAGIC) == [0xEF, 0xBE, 0xAD, 0xDE];
    if IsValid(m) {
      FromLeInjective(MagicBytes(m), ToLe(MAGIC));
    }
  }

  /** The first or last byte of the magic being wrong makes the store invalid. */
  lemma MagicByteWrong(m: seq<byte>)
    requires |m| >= LAYOUT_END
    requires m[NVS.offset] != 0xEF || m[NVS.offset + 3] != 0xDE
    ensures !IsValid(m)
  {
    LeRoundTrip(MAGIC);
    if IsValid(m) {
      FromLeInjective(MagicBytes(m), ToLe(MAGIC));
    }
  }

  class Nvs {
    const flash: FlashStorage
    const offset: nat
    const size: nat

    ghost predicate Valid() {
      flash.Valid() && offset == NVS.offset && size == NVS.size
    }

    constructor (flash: FlashStorage)
      requires flash.Valid()
      ensures Valid() && this.flash == flash
    {
      this.flash := flash;
      offset, size := NVS.offset, NVS.size;
    }

    method IsValidMagic() returns (r: NvsResult<bool>)
      requires Valid()
      ensures r.Done? ==> r.value == IsValid(flash.cells[..])
      ensures r.Failed? ==> r.error == Storage(IoError) && !flash.reliable
    {
      assert offset + 4 <= flash.cells.Length;
      var b := flash.Read(offset, 4);
      match b {
        case Ok(buf) =>
          assert buf == MagicBytes(flash.cells[..]);
          return Done(FromLe(buf) == MAGIC);
        case Err(e) =>
          assert e == IoError;
          return Failed(Storage(e));
      }
    }

    method SetValid(valid: bool) returns (r: NvsResult<()>)
      requires Valid()
      modifies flash.cells
      ensures r.Done? ==> flash.cells[..] == Written(old(flash.cells[..]), NVS.offset, MagicFor(valid))
      ensures r.Failed? ==>
                && r.error == Storage(IoError) && !flash.reliable
                && Torn(old(flash.cells[..]), flash.cells[..], NVS.offset, MagicFor(valid))
    {
      assert offset + 4 <= flash.cells.Length;
      var w := flash.Write(offset, MagicFor(valid));
      if w.Err? {
        assert w.error == IoError;
        return Failed(Storage(w.error));
      }
      return Done(());
    }

    /** Reads `len` bytes at `at`, counted from the start of the partition. */
    method Read(at: u32, len: u32) returns (r: NvsResult<seq<byte>>)
      requires Valid()
      ensures r == Failed(NvsError.OutOfBounds) <==> !ValidOffset(at, len)
      ensures r.Done? ==>
                Address(at) + len <= flash.cells.Length && r.value == flash.cells[Address(at)..Address(at) + len]
      ensures r.Failed? && r.error.Storage? ==>
                (r.error.error == StorageError.OutOfBounds <==> Address(at) + len > flash.cells.Length)
      ensures r == Failed(Storage(IoError)) ==> !flash.reliable
    {
      if !ValidOffset(at, len) {
        return Failed(NvsError.OutOfBounds);
      }
      var b := flash.Read((offset + at) % WRAP, len);
      match b {
        case Ok(buf) => return Done(buf);
        case Err(e) => return Failed(Storage(e));
      }
    }

    method Write(at: u32, buf: seq<byte>) returns (r: NvsResult<()>)
      requires Valid() && |buf| < WRAP
      modifies flash.cells
      ensures r == Failed(NvsError.OutOfBounds) <==> !ValidOffset(at, |buf|)
      ensures r == Failed(NvsError.OutOfBounds) ==> flash.cells[..] == old(flash.cells[..])
      ensures r.Done? ==>
                Address(at) + |buf| <= flash.cells.Length
                && flash.cells[..] == Written(old(flash.cells[..]), Address(at), buf)
      ensures r.Failed? && r.error.Storage? ==>
                if Address(at) + |buf| > flash.cells.Length then
                  r.error.error == StorageError.OutOfBounds && flash.cells[..] == old(flash.cells[..])
                else
                  && r.error.error == IoError && !flash.reliable
                  && Torn(old(flash.cells[..]), flash.cells[..], Address(at), buf)
    {
      hide Written, Torn;
      if !ValidOffset(at, |buf|) {
        return Failed(NvsError.OutOfBounds);
      }
      var w := flash.Write((offset + at) % WRAP, buf);
      if w.Err? {
        assert w.error == StorageError.OutOfBounds || w.error == IoError;
        return Failed(Storage(w.error));
      }
      return Done(());
    }
  }
}
