/** One update as the program drives it, started from any state that the whole-run invariant allows. */
module FirmwareSafety {
  import opened Bytes
  import opened Flash
  import opened SelectEntry
  import opened SlotChoice
  import opened Ota
  import opened Firmware
  import opened OtaRuns
  import opened OtaSafety
  import opened OtaNumbers
  import opened Wrappers

  /** The system after `image` was streamed. */
  function Streamed(s: System, image: seq<byte>): (w: System)
    requires |s.flash| >= LAYOUT_END && |image| <= ChosenSlot(s.flash).Area().size
  {
    s.(flash := WithImage(s.flash, ChosenSlot(s.flash), image),
       update := Some((ChosenSlot(s.flash), |image|)), streamed := image)
  }

  function Prepared(s: System): System
    requires |s.flash| >= LAYOUT_END
  {
    s.(update := Some((ChosenSlot(s.flash), 0)), streamed := [])
  }

  lemma StreamingEvents(s: System, image: seq<byte>)
    requires |s.flash| >= LAYOUT_END && |image| <= ChosenSlot(s.flash).Area().size
    ensures Next(s, Prepare, Prepared(s)) && Next(Prepared(s), Write(image), Streamed(s, image))
  {
    hide EntryAt, Written, ChosenSlot, CommitSlot, CommitTarget, NextNumber, Committed, TornCommit, Torn, WithState,
         Pending;
    assert [] + image == image;
  }

  /** Streaming any image that fits, then losing power or going on, is a run of events. */
  lemma StreamedInv(s: System, c: EntrySlot, image: seq<byte>)
    requires Inv(s, c) && |s.flash| >= LAYOUT_END && |image| <= ChosenSlot(s.flash).Area().size
    ensures Inv(Streamed(s, image), c) && SlotOf(c.Other()) == ChosenSlot(s.flash)
  {
    AnchorOfInv(s, c);
    hide *;
    ChoicesAgree(s.flash, c);
    StreamingEvents(s, image);
    PrepareStep(s, Prepared(s), c);
    WriteStep(Prepared(s), image, Streamed(s, image), c);
  }

  lemma AnchorOfInv(s: System, c: EntrySlot)
    requires Inv(s, c)
    ensures |s.flash| >= LAYOUT_END && Core(EntryAt(s.flash, c), EntryAt(s.flash, c.Other()))
  {
    hide Core, EntryAt, Holds;
  }

  /** Trouble inside the slot being written harms nobody. */
  lemma SlotTrouble(s: System, c: EntrySlot, t: seq<byte>) returns (r: System)
    requires Inv(s, c) && SameOutside(s.flash, t, SlotOf(c.Other()))
    ensures r == s.(flash := t, update := None) && Inv(r, c)
  {
    hide Core, EntryAt;
    SlotChangeKeeps(s.flash, t, c.Other(), s.Image(c));
    r := s.(flash := t, update := None);
  }

  /**
   Whatever fails in an update, download or chip, and whatever update was under way before, the
   commit's assertion does not fire, and the device keeps its anchor and the anchor's image.  A
   successful update leaves the new image in its slot under a new, checksum-ok entry numbered
   above the anchor, which counts unless numbers have run out.
   */
  lemma UpdateKeepsDevice(s: System, c: EntrySlot, image: seq<byte>, t: seq<byte>, end: Ending) returns (r: System)
    requires Sound(s, c) && |s.flash| >= LAYOUT_END && UpdateEffect(s.flash, t, image, end)
    ensures end != Ended(Panic)
    ensures r.flash == t && Inv(r, c) && r.Image(c) == s.Image(c) && Safe(r)
    ensures end == Ended(Success) ==> Succeeded(s.flash, t, c, image)
  {
    hide Core, EntryAt, Written, Holds, Committed, TornCommit, SameOutside, Safe, CommitSlot, CommitTarget,
         CommitEntry, NextNumber,
         Succeeded;
    var u := s.(update := None);
    UpdateDropped(s, c);
    ChoicesAgree(u.flash, c);
    hide Inv, StaleInv, WithImage, Highest, ChosenSlot;
    var slot := ChosenSlot(s.flash);
    if end == DownloadFailed {
      FirmwareWrite(s.flash, slot, 0, image);
      BrokenOff(s.flash, image, t);
      r := SlotTrouble(u, c, t);
    } else if |image| > slot.Area().size || (end.outcome.Failure? && SameOutside(s.flash, t, slot)) {
      r := SlotTrouble(u, c, t);
    } else {
      r := DrivenCommit(u, c, image, t, end.outcome);
    }
    SoundIsSafe(r, c);
  }

  /** On a chip that does not fail, every completely downloaded image that fits is committed. */
  lemma ReliableUpdateSucceeds(s: System, c: EntrySlot, image: seq<byte>)
    requires Sound(s, c) && |s.flash| >= LAYOUT_END
    ensures EndingFor(s.flash, image, true) ==
            if |image| <= 0x18_0000 then Ended(Success) else Ended(Failure(TooLarge))
  {
    UpdateDropped(s, c);
    hide Core, EntryAt, Holds, CommitSlot, ChosenSlot, CommitTarget, NextNumber, StaleInv;
    ChoicesAgree(s.flash, c);
  }

  lemma BrokenOff(m: seq<byte>, image: seq<byte>, t: seq<byte>)
    requires |m| >= LAYOUT_END && UpdateEffect(m, t, image, DownloadFailed)
    ensures |image| <= ChosenSlot(m).Area().size && SameOutside(m, t, ChosenSlot(m))
  {
    hide Written, ChosenSlot, SameOutside;
    FirmwareWrite(m, ChosenSlot(m), 0, image);
  }

  /** What a successful update leaves beside the anchor `c`. */
  ghost predicate Succeeded(m: seq<byte>, t: seq<byte>, c: EntrySlot, image: seq<byte>)
    requires |m| >= LAYOUT_END && |t| >= LAYOUT_END
  {
    var e := EntryAt(t, c.Other());
    && Holds(t, c.Other(), image)
    && e.ChecksumOk() && e.state == New && e.seqNo > EntryAt(t, c).seqNo
    && (e.Live() <==> NextNumber(m) != U32_MAX)
  }

  /** An update that got as far as its commit. */
  lemma DrivenCommit(s: System, c: EntrySlot, image: seq<byte>, t: seq<byte>, o: Outcome) returns (r: System)
    requires Inv(s, c) && |image| <= ChosenSlot(s.flash).Area().size && o != Panic
    requires o == Success ==> t == Committed(WithImage(s.flash, ChosenSlot(s.flash), image))
    requires o.Failure? ==> TornCommit(WithImage(s.flash, ChosenSlot(s.flash), image), t)
    ensures r.flash == t && Inv(r, c) && r.Image(c) == s.Image(c)
    ensures o == Success ==> Succeeded(s.flash, t, c, image)
  {
    hide Core, EntryAt, Written, ChosenSlot, Holds, Committed, TornCommit, SameOutside, NextNumber, CommitSlot,
         CommitTarget, CommitEntry,
         Succeeded;
    var w := Streamed(s, image);
    StreamedInv(s, c, image);
    FirmwareWrite(s.flash, ChosenSlot(s.flash), 0, image);
    ImageKeepsOtaData(s.flash, w.flash, ChosenSlot(s.flash));
    hide Inv, WithImage;
    r := CommittedDevice(w, c, t, o);
    SucceededFrom(s.flash, w.flash, t, c, image);
  }

  lemma SucceededFrom(m: seq<byte>, w: seq<byte>, t: seq<byte>, c: EntrySlot, image: seq<byte>)
    requires |m| >= LAYOUT_END && |w| >= LAYOUT_END && |t| >= LAYOUT_END && NextNumber(w) == NextNumber(m)
    ensures Succeeded(m, t, c, image) == Succeeded(w, t, c, image)
  {
    hide EntryAt, Holds, NextNumber;
  }

  /** What a successful commit leaves of the entries. */
  lemma CommittedEntry(m: seq<byte>, c: EntrySlot)
    requires |m| >= LAYOUT_END
    requires Core(EntryAt(m, c), EntryAt(m, c.Other()))
    ensures
      var t := Committed(m);
      && EntryAt(t, c.Other()).ChecksumOk() && EntryAt(t, c.Other()).state == New
      && EntryAt(t, c.Other()).seqNo > EntryAt(t, c).seqNo
      && (EntryAt(t, c.Other()).Live() <==> NextNumber(m) != U32_MAX)
  {
    hide EntryAt, Committed, CommitEntry, CommitTarget, SumBelow, NextNumber;
    ChoicesAgree(m, c);
    CommitSupremacy(m);
    NextIsAbove(m);
  }

  /** The commit at the end of an update. */
  lemma CommittedDevice(w: System, c: EntrySlot, t: seq<byte>, o: Outcome) returns (r: System)
    requires Inv(w, c) && w.update.Some?
    requires o == Success ==> t == Committed(w.flash)
    requires o.Failure? ==> TornCommit(w.flash, t)
    requires o != Panic
    ensures r.flash == t && Inv(r, c) && r.Image(c) == w.Image(c)
    ensures o == Success ==> Succeeded(w.flash, t, c, w.streamed)
  {
    hide Core, EntryAt, Holds, Committed, TornCommit, CommitTarget, CommitSlot, NextNumber;
    ChoicesAgree(w.flash, c);
    CommittedIsTorn(w.flash);
    TornFrame(w.flash, t);
    r := w.WithCommit(CommitTarget(w.flash), t);
    CommitEntries(w, r, c);
    CommittedEntry(w.flash, c);
  }
}
