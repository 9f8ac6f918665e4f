/** The firmware update as the program drives it. */
module Firmware {
  import opened Bytes
  import opened Crc
  import opened Flash
  import opened SelectEntry
  import opened SlotChoice
  import opened Ota
  import opened Wrappers

  /** The flash with `image` written to `slot`. */
  function WithImage(m: seq<byte>, slot: Slot, image: seq<byte>): (w: seq<byte>)
    requires |m| >= LAYOUT_END && |image| <= slot.Area().size
    ensures |w| == |m|
  {
    Written(m, slot.Area().offset, image)
  }

  /** A commit sees the same OTA data as the preparation did. */
  lemma ImageKeepsOtaData(m: seq<byte>, t: seq<byte>, slot: Slot)
    requires |m| >= LAYOUT_END && SameOutside(m, t, slot)
    ensures ChosenSlot(t) == ChosenSlot(m) && CommitSlot(t) == CommitSlot(m)
    ensures NextNumber(t) == NextNumber(m) && CommitEntry(t) == CommitEntry(m)
  {
    hide Parse, UpdateChoice, CommitChoice, CommitSeq, NewEntry;
    FirmwareKeepsEntries(m, t, slot);
  }

  lemma SameOutsideSelf(m: seq<byte>, slot: Slot)
    ensures SameOutside(m, m, slot)
  {
  }

  /** How an update ends: as its last call did, or because the download broke off. */
  datatype Ending = Ended(outcome: Outcome) | DownloadFailed

  /** What an update that was given `image`, perhaps not all of it, and ended in `end` leaves of `m`. */
  ghost predicate UpdateEffect(m: seq<byte>, t: seq<byte>, image: seq<byte>, end: Ending)
    requires |m| >= LAYOUT_END
  {
    var slot := ChosenSlot(m);
    if |image| > slot.Area().size then
      && SameOutside(m, t, slot)
      && (end == Ended(Failure(TooLarge)) || end == Ended(Failure(Storage(IoError))))
    else if end.DownloadFailed? then
      t == WithImage(m, slot, image)
    else
      var w := WithImage(m, slot, image);
      match end.outcome
      case Success => CommitSlot(m) == slot && t == Committed(w)
      case Panic => CommitSlot(m) != slot && t == w
      case Failure(e) => e == Storage(IoError) && (SameOutside(m, t, slot) || TornCommit(w, t))
  }

  /** How an update ends on a chip that does not fail. */
  function EndingFor(m: seq<byte>, image: seq<byte>, complete: bool): Ending
    requires |m| >= LAYOUT_END
  {
    if |image| > ChosenSlot(m).Area().size then Ended(Failure(TooLarge))
    else if !complete then DownloadFailed
    else if ChosenSlot(m) == CommitSlot(m) then Ended(Success)
    else Ended(Panic)
  }

  /**
   What a successful update has changed: the image lies at the start of the chosen slot, the
   32 bytes of that slot's entry are a new one, and every other byte is as it was.
   */
  lemma UpdatedBytes(m: seq<byte>, t: seq<byte>, image: seq<byte>)
    requires |m| >= LAYOUT_END && UpdateEffect(m, t, image, Ended(Success))
    ensures |t| == |m| && |image| <= 0x18_0000
    ensures
      var (base, a) := if ChosenSlot(m) == Slot0 then (0x1_0000, 0xD000) else (0x19_0000, 0xE000);
      && t[base..base + |image|] == image
      && NumberAt(t, a) == NextNumber(m) && t[a + 24..a + 28] == [0, 0, 0, 0]
      && Passes(NumberAt(t, a), NumberAt(t, a + 28))
      && (forall i :: 0 <= i < |m| && !(base <= i < base + |image|) && !(a <= i < a + 32) ==> t[i] == m[i])
  {
    hide *;
    SuccessMeans(m, t, image);
    var slot := ChosenSlot(m);
    AreaOf(slot);
    var (base, w) := (slot.Area().offset, WithImage(m, slot, image));
    WithImageMeans(m, slot, image);
    FirmwareWrite(m, slot, 0, image);
    ImageKeepsOtaData(m, w, slot);
    CommittedOnBytes(w);
    ChangedTwice(m, w, t, base, image, if slot == Slot0 then 0xD000 else 0xE000);
  }

  lemma SuccessMeans(m: seq<byte>, t: seq<byte>, image: seq<byte>)
    requires |m| >= LAYOUT_END && UpdateEffect(m, t, image, Ended(Success))
    ensures ChosenSlot(m) != NoSlot && CommitSlot(m) == ChosenSlot(m) && |image| <= ChosenSlot(m).Area().size
    ensures t == Committed(WithImage(m, ChosenSlot(m), image))
  {
    hide CommitSlot, Committed, WithImage, UpdateChoice, EntryAt;
  }

  lemma WithImageMeans(m: seq<byte>, slot: Slot, image: seq<byte>)
    requires |m| >= LAYOUT_END && |image| <= slot.Area().size
    ensures slot.Area().offset + 0 + |image| <= |m|
    ensures WithImage(m, slot, image) == Written(m, slot.Area().offset, image)
  {
    hide Written;
  }

  lemma AreaOf(slot: Slot)
    ensures slot.Area() == Partition(if slot == Slot1 then 0x19_0000 else 0x1_0000, 0x18_0000)
  {
  }

  lemma ChangedTwice(m: seq<byte>, w: seq<byte>, t: seq<byte>, base: nat, image: seq<byte>, a: nat)
    requires a + 32 <= base && base + |image| <= |m| && |t| == |m| && w == Written(m, base, image)
    requires t[..a] == w[..a] && t[a + 32..] == w[a + 32..]
    ensures t[base..base + |image|] == image
    ensures forall i :: 0 <= i < |m| && !(base <= i < base + |image|) && !(a <= i < a + 32) ==> t[i] == m[i]
  {
    hide Written;
    RangeOfRest(t, a + 32, base, base + |image|);
    RangeOfRest(w, a + 32, base, base + |image|);
    forall i | 0 <= i < |m| && !(base <= i < base + |image|) && !(a <= i < a + 32) ensures t[i] == m[i] {
      if i < a {
        assert t[i] == t[..a][i] && w[i] == w[..a][i];
      } else {
        assert t[i] == t[a + 32..][i - a - 32] && w[i] == w[a + 32..][i - a - 32];
      }
    }
  }

  lemma FailedEffect(m: seq<byte>, t: seq<byte>, image: seq<byte>, o: Outcome)
    requires |m| >= LAYOUT_END && SameOutside(m, t, ChosenSlot(m))
    requires o == Failure(Storage(IoError)) || (o == Failure(TooLarge) && |image| > ChosenSlot(m).Area().size)
    ensures UpdateEffect(m, t, image, Ended(o))
  {
  }

  lemma CommitEffect(m: seq<byte>, t: seq<byte>, image: seq<byte>, o: Outcome)
    requires |m| >= LAYOUT_END && |image| <= ChosenSlot(m).Area().size
    requires
      var w := WithImage(m, ChosenSlot(m), image);
      && (o == Panic ==> CommitSlot(w) != ChosenSlot(m) && t == w)
      && (o == Success ==> CommitSlot(w) == ChosenSlot(m) && t == Committed(w))
      && (o.Failure? ==> o.error == Storage(IoError) && TornCommit(w, t))
    ensures UpdateEffect(m, t, image, Ended(o))
    ensures CommitSlot(WithImage(m, ChosenSlot(m), image)) == CommitSlot(m)
  {
    hide Written, Committed, TornCommit;
    FirmwareWrite(m, ChosenSlot(m), 0, image);
    ImageKeepsOtaData(m, WithImage(m, ChosenSlot(m), image), ChosenSlot(m));
  }

  /**
   One update: prepare, then every chunk as it is downloaded, then commit.  The first error ends
   it, and so does a download that breaks off after these chunks.
   */
  method UpdateFirmware(ota: Ota, chunks: seq<seq<byte>>, complete: bool) returns (end: Ending)
    requires ota.Valid()
    requires forall i :: 0 <= i < |chunks| ==> |chunks[i]| <= MAX_SLICE
    modifies ota, ota.flash.cells
    ensures ota.Valid()
    ensures UpdateEffect(old(ota.flash.cells[..]), ota.flash.cells[..], Concat(chunks), end)
    ensures end.DownloadFailed? ==> !complete
    ensures !complete ==> end.DownloadFailed? || end.outcome.Failure?
    ensures end != EndingFor(old(ota.flash.cells[..]), Concat(chunks), complete) ==>
              end == Ended(Failure(Storage(IoError))) && !ota.flash.reliable
  {
    hide Written, Committed, TornCommit, CommitSlot, ChosenSlot, Concat, SameOutside;
    ghost var m := ota.flash.cells[..];
    ghost var image := Concat(chunks);
    var o := ota.PrepareForUpdate();
    assert ota.flash.cells[..] == m;
    if o != Success {
      SameOutsideSelf(m, ChosenSlot(m));
      FailedEffect(m, m, image, o);
      return Ended(o);
    }
    o := WriteImage(ota, chunks, ChosenSlot(m));
    if o != Success {
      FailedEffect(m, ota.flash.cells[..], image, o);
      return Ended(o);
    }
    if !complete {
      return DownloadFailed;
    }
    o := ota.CommitUpdate();
    CommitEffect(m, ota.flash.cells[..], image, o);
    return Ended(o);
  }

  /** Hands every chunk on as it is downloaded. */
  method WriteImage(ota: Ota, chunks: seq<seq<byte>>, ghost slot: Slot) returns (o: Outcome)
    requires ota.Valid() && ota.updateState == Option.Some((slot, 0))
    requires forall i :: 0 <= i < |chunks| ==> |chunks[i]| <= MAX_SLICE
    modifies ota, ota.flash.cells
    ensures ota.Valid() && o != Panic
    ensures
      var m := old(ota.flash.cells[..]);
      var t := ota.flash.cells[..];
      var image := Concat(chunks);
      && (o == Success ==>
            && |image| <= slot.Area().size
            && t == WithImage(m, slot, image)
            && ota.updateState == Option.Some((slot, |image|)))
      && (|image| > slot.Area().size ==> o.Failure?)
      && (o == Failure(TooLarge) ==> |image| > slot.Area().size)
      && (o.Failure? && o.error != TooLarge ==> o.error == Storage(IoError) && !ota.flash.reliable)
      && (o.Failure? ==> SameOutside(m, t, slot))
  {
    hide Written;
    ghost var m := ota.flash.cells[..];
    WriteNothing(m, slot.Area().offset);
    for i := 0 to |chunks|
      invariant ota.Valid()
      invariant |Concat(chunks[..i])| <= slot.Area().size
      invariant ota.updateState == Option.Some((slot, |Concat(chunks[..i])|))
      invariant ota.flash.cells[..] == WithImage(m, slot, Concat(chunks[..i]))
    {
      ghost var done := Concat(chunks[..i]);
      assert chunks[..i + 1] == chunks[..i] + [chunks[i]];
      ConcatAppend(chunks[..i], chunks[i]);
      ConcatPrefix(chunks, i + 1);
      FirmwareWrite(m, slot, 0, done);
      o := ota.WriteUpdate(chunks[i]);
      if o != Success {
        return;
      }
      WriteTwice(m, slot.Area().offset, done, chunks[i]);
    }
    assert chunks[..|chunks|] == chunks;
    o := Success;
  }

  lemma {:induction false} ConcatPrefix(chunks: seq<seq<byte>>, n: nat)
    requires n <= |chunks|
    ensures |Concat(chunks[..n])| <= |Concat(chunks)|
    decreases |chunks| - n
  {
    if n < |chunks| {
      assert chunks[..n + 1] == chunks[..n] + [chunks[n]];
      ConcatAppend(chunks[..n], chunks[n]);
      ConcatPrefix(chunks, n + 1);
    } else {
      assert chunks[..n] == chunks;
    }
  }
}
