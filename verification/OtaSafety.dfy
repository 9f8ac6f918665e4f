/** What every run of the update protocol keeps. */
module OtaSafety {
  import opened Bytes
  import opened Crc
  import opened Flash
  import opened SelectEntry
  import opened SlotChoice
  import opened Ota
  import opened OtaRuns
  import opened Wrappers

  // ---- Two entries, one of them the anchor ----

  /** The checksum `crc` can only match numbers below `bound`. */
  ghost predicate SumBelow(crc: Sum, bound: u32) {
    forall x: u32 :: SeqChecksum(x) == crc ==> x < bound
  }

  /**
   `c` is confirmed and newest.  Whatever commits were interrupted on the other entry `o`, one
   after the other, they cannot bring it back as confirmed with a number as high as `c`'s, nor
   with the same number.
   */
  ghost predicate Core(c: Entry, o: Entry) {
    && Bootable(c) && c.seqNo >= 1
    && (o.state == Valid ==> SumBelow(o.crc, c.seqNo))
    && (o.crc == SeqChecksum(c.seqNo) ==> o.seqNo > c.seqNo)
  }

  /** An entry in the undefined state is a torn one with its checksum still erased. */
  ghost predicate UndefinedIsTorn(c: Entry, o: Entry) {
    o.state == Undefined ==> o.crc == ERASED_SUM && o.seqNo > c.seqNo
  }

  lemma UndefinedIsNotOk(c: Entry, o: Entry)
    requires UndefinedIsTorn(c, o) && o.state == Undefined
    ensures !o.ChecksumOk()
  {
    SeqChecksumErased(o.seqNo);
  }

  lemma AnchorIsNewest(c: Entry, o: Entry)
    requires Core(c, o)
    ensures Confirmed(o) ==> o.seqNo < c.seqNo && Bootable(o)
    ensures o.ChecksumOk() ==> o.seqNo != c.seqNo
  {
    hide SeqChecksum;
    if Confirmed(o) {
      assert SeqChecksum(o.seqNo) == o.crc;
    }
  }

  /** If the other entry's stored checksum matches the anchor's number, it does not match its own. */
  lemma StaleSum(c: Entry, o: Entry)
    requires Core(c, o) && o.crc == SeqChecksum(c.seqNo)
    ensures !o.ChecksumOk()
  {
    hide SeqChecksum;
    if o.ChecksumOk() {
      SeqChecksumInjective(o.seqNo, c.seqNo);
    }
  }

  /** A commit over the other entry, complete or not, keeps the two-entry invariant. */
  lemma CommitKeepsCore(c: Entry, old32: seq<byte>, n: Entry, t: seq<byte>, k: nat, erased: bool)
    requires |old32| == ENTRY_SIZE && Core(c, Parse(old32))
    requires |n.seqLabel| == LABEL_SIZE && n.state == New
    requires n.seqNo as int == Highest(c, Parse(old32)) + 1
    requires Mixed(if erased then ERASED_ENTRY else old32, Encode(n), t, k)
    ensures Core(c, Parse(t))
    ensures UndefinedIsTorn(c, Parse(old32)) ==> UndefinedIsTorn(c, Parse(t))
  {
    hide SeqChecksum, Encode, Parse, Mixed;
    ErasedEntry();
    SeqChecksumErased(c.seqNo);
    MixedFields(if erased then ERASED_ENTRY else old32, n, t, k);
    var o := Parse(old32);
    if !erased {
      if o.crc == SeqChecksum(c.seqNo) {
        StaleSum(c, o);
      }
      if o.state == Undefined && UndefinedIsTorn(c, o) {
        UndefinedIsNotOk(c, o);
      }
    }
  }

  /** Confirming the other entry keeps the invariant, with whichever entry is newer as anchor. */
  lemma ConfirmKeepsCore(c: Entry, o: Entry)
    requires Core(c, o) && Pending(o)
    ensures o.seqNo > c.seqNo ==> Core(o.(state := Valid), c)
    ensures o.seqNo <= c.seqNo ==> Core(c, o.(state := Valid))
  {
    hide SeqChecksum;
    AnchorIsNewest(c, o);
    forall x: u32 | SeqChecksum(x) == c.crc ensures x == c.seqNo {
      SeqChecksumInjective(x, c.seqNo);
    }
    forall x: u32 | SeqChecksum(x) == o.crc ensures x == o.seqNo {
      SeqChecksumInjective(x, o.seqNo);
    }
    if c.crc == SeqChecksum(o.seqNo) {
      SeqChecksumInjective(c.seqNo, o.seqNo);
    }
  }

  // ---- The system invariant ----

  ghost predicate Inv(s: System, c: EntrySlot) {
    && |s.flash| >= LAYOUT_END
    && !s.panicked
    && Core(EntryAt(s.flash, c), EntryAt(s.flash, c.Other()))
    && Intact(s, c)
    && (s.update.Some? ==>
          && s.update.value.0 == SlotOf(c.Other()) && s.update.value.1 == |s.streamed|
          && Holds(s.flash, c.Other(), s.streamed))
  }

  /** Power-on of a freshly flashed device: entry 0 confirmed with number 1, entry 1 erased. */
  ghost predicate Init(s: System) {
    && |s.flash| >= LAYOUT_END
    && !s.panicked && s.update.None?
    && Bootable(EntryAt(s.flash, Zero)) && EntryAt(s.flash, Zero).seqNo == 1
    && Blank(EntryBytes(s.flash, One))
    && Intact(s, Zero)
  }

  lemma InitEntries(s: System)
    requires Init(s)
    ensures Core(EntryAt(s.flash, Zero), EntryAt(s.flash, One))
    ensures UndefinedIsTorn(EntryAt(s.flash, Zero), EntryAt(s.flash, One))
    ensures !Pending(EntryAt(s.flash, One))
  {
    hide SeqChecksum;
    assert EntryBytes(s.flash, One) == ERASED_ENTRY;
    ErasedEntry();
    SeqChecksumErased(1);
  }

  /** Firmware writes to one slot leave the entries and the other slot as they are. */
  lemma SlotChangeKeeps(m: seq<byte>, t: seq<byte>, e: EntrySlot, image: seq<byte>)
    requires |m| >= LAYOUT_END && SameOutside(m, t, SlotOf(e))
    ensures EntryAt(t, Zero) == EntryAt(m, Zero) && EntryAt(t, One) == EntryAt(m, One)
    ensures Holds(m, e.Other(), image) ==> Holds(t, e.Other(), image)
  {
    hide Parse;
    FirmwareKeepsEntries(m, t, SlotOf(e));
    if Holds(m, e.Other(), image) {
      FirmwareKeepsOtherSlot(m, t, SlotOf(e), SlotOf(e.Other()), |image|);
    }
  }

  /** Appending to an image held by a slot. */
  lemma HoldsAppended(m: seq<byte>, e: EntrySlot, image: seq<byte>, buf: seq<byte>)
    requires |m| >= LAYOUT_END && Holds(m, e, image) && |image| + |buf| <= SlotOf(e).Area().size
    ensures Holds(Written(m, SlotOf(e).Area().offset + |image|, buf), e, image + buf)
  {
    hide Written;
    var (base, n, all) := (SlotOf(e).Area().offset, |image|, |image| + |buf|);
    var w := Written(m, base + n, buf);
    WrittenBeside(m, base + n, buf, base, base + n);
    RangeInThree(w, base, n, all, all);
    assert w[base..base + n] == image && w[base + n..base + all] == buf && w[base + all..base + all] == [];
  }

  /** Entry writes leave firmware as it is. */
  lemma FirmwareKept(m: seq<byte>, t: seq<byte>, e: EntrySlot, image: seq<byte>)
    requires |m| >= LAYOUT_END && |t| == |m| && t[OTA_0.offset..] == m[OTA_0.offset..]
    requires Holds(m, e, image)
    ensures Holds(t, e, image)
  {
    var (base, len) := (SlotOf(e).Area().offset, |image|);
    RangeOfRest(m, OTA_0.offset, base, base + len);
    RangeOfRest(t, OTA_0.offset, base, base + len);
  }

  /** With an anchor, update and commit agree on the other slot. */
  lemma ChoicesAgree(m: seq<byte>, c: EntrySlot)
    requires |m| >= LAYOUT_END && Core(EntryAt(m, c), EntryAt(m, c.Other()))
    ensures ChosenSlot(m) == CommitSlot(m) == SlotOf(c.Other())
    ensures CommitTarget(m) == c.Other()
    ensures NextNumber(m) as int == Highest(EntryAt(m, c), EntryAt(m, c.Other())) + 1
  {
    hide SeqChecksum, EntryAt, UpdateChoice, CommitChoice, CommitSeq;
    AnchorIsNewest(EntryAt(m, c), EntryAt(m, c.Other()));
    ChoicesSpareNewest(EntryAt(m, Zero), EntryAt(m, One), c);
    CommitSeqIsNext(EntryAt(m, Zero), EntryAt(m, One));
  }

  lemma PrepareStep(s: System, t: System, c: EntrySlot)
    requires Inv(s, c) && Next(s, Prepare, t)
    ensures Inv(t, c)
  {
    hide Core, EntryAt, Written, Torn, CommitSlot, CommitTarget, NextNumber, Committed, TornCommit, WithState, Pending;
    ChoicesAgree(s.flash, c);
  }

  lemma WriteStep(s: System, buf: seq<byte>, t: System, c: EntrySlot)
    requires Inv(s, c) && Next(s, Write(buf), t)
    ensures Inv(t, c)
  {
    hide Core, EntryAt, Written, Torn, ChosenSlot, CommitSlot, CommitTarget, NextNumber, Committed, TornCommit,
         WithState, Pending;
    var slot := SlotOf(c.Other());
    if |s.streamed| + |buf| <= slot.Area().size {
      FirmwareWrite(s.flash, slot, |s.streamed|, buf);
      SlotChangeKeeps(s.flash, t.flash, c.Other(), s.Image(c));
      HoldsAppended(s.flash, c.Other(), s.streamed, buf);
    }
  }

  lemma WriteCutMeans(s: System, buf: seq<byte>, upto: nat, erased: bool, t: System)
    requires |s.flash| >= LAYOUT_END && Next(s, WriteCut(buf, upto, erased), t)
    ensures s.update.Some? && s.update.value.1 + |buf| <= s.update.value.0.Area().size
    ensures Fits(s.flash, s.update.value.0.Area().offset + s.update.value.1, buf)
    ensures TornAt(s.flash, t.flash, s.update.value.0.Area().offset + s.update.value.1, buf, upto, erased)
    ensures Torn(s.flash, t.flash, s.update.value.0.Area().offset + s.update.value.1, buf)
    ensures t == s.(flash := t.flash, update := None)
  {
    hide EntryAt, ChosenSlot, CommitSlot, CommitTarget, NextNumber, Committed, TornCommit, Torn, TornAt, Written,
         WithState, Pending;
    TornSomewhere(s.flash, t.flash, s.update.value.0.Area().offset + s.update.value.1, buf, upto, erased);
  }

  lemma WriteCutStep(s: System, buf: seq<byte>, upto: nat, erased: bool, t: System, c: EntrySlot)
    requires Inv(s, c) && Next(s, WriteCut(buf, upto, erased), t)
    ensures Inv(t, c)
  {
    hide Core, EntryAt, Torn, TornAt, Next;
    WriteCutMeans(s, buf, upto, erased, t);
    FirmwareTorn(s.flash, t.flash, SlotOf(c.Other()), |s.streamed|, buf);
    SlotChangeKeeps(s.flash, t.flash, c.Other(), s.Image(c));
  }

  /** Entries and images after a commit, complete or cut short. */
  lemma CommitEntries(s: System, t: System, c: EntrySlot)
    requires Inv(s, c) && s.update.Some?
    requires TornCommit(s.flash, t.flash)
    requires |t.flash| == |s.flash|
    requires t == s.WithCommit(CommitTarget(s.flash), t.flash) || t == s.AfterCut(CommitTarget(s.flash), t.flash)
    ensures Inv(t, c)
    ensures EntryAt(t.flash, c) == EntryAt(s.flash, c)
    ensures t == s.WithCommit(CommitTarget(s.flash), t.flash) ==> Intact(t, c.Other())
    ensures Intact(t, c.Other()) || EntryAt(t.flash, c.Other()) == EntryAt(s.flash, c.Other())
    ensures UndefinedIsTorn(EntryAt(s.flash, c), EntryAt(s.flash, c.Other())) ==>
              UndefinedIsTorn(EntryAt(t.flash, c), EntryAt(t.flash, c.Other()))
  {
    hide SeqChecksum, Encode, Parse, Torn, Core, UndefinedIsTorn, CommitEntry, Holds;
    ChoicesAgree(s.flash, c);
    var n := CommitEntry(s.flash);
    TornSectorFrame(s.flash, t.flash, c.Other(), Encode(n));
    FirmwareKept(s.flash, t.flash, c, s.Image(c));
    FirmwareKept(s.flash, t.flash, c.Other(), s.streamed);
    var k, erased := TornSectorTarget(s.flash, t.flash, c.Other(), Encode(n));
    CommitKeepsCore(EntryAt(s.flash, c), EntryBytes(s.flash, c.Other()), n, EntryBytes(t.flash, c.Other()), k, erased);
  }

  lemma CommitStep(s: System, t: System, c: EntrySlot)
    requires Inv(s, c) && (Next(s, Commit, t) || Next(s, CommitCut, t))
    ensures Inv(t, c)
    ensures EntryAt(t.flash, c) == EntryAt(s.flash, c)
    ensures Next(s, Commit, t) ==> Intact(t, c.Other())
    ensures Intact(t, c.Other()) || EntryAt(t.flash, c.Other()) == EntryAt(s.flash, c.Other())
    ensures UndefinedIsTorn(EntryAt(s.flash, c), EntryAt(s.flash, c.Other())) ==>
              UndefinedIsTorn(EntryAt(t.flash, c), EntryAt(t.flash, c.Other()))
  {
    hide SeqChecksum, Encode, EntryAt, Torn, Core, UndefinedIsTorn, CommitEntry, Holds, Written, Intact;
    ChoicesAgree(s.flash, c);
    TornEnds(s.flash, CommitTarget(s.flash).Address(), Encode(CommitEntry(s.flash)));
    CommitEntries(s, t, c);
  }

  lemma StateBytes(m: seq<byte>, e: EntrySlot, w: seq<byte>, t: seq<byte>)
    requires |m| >= LAYOUT_END && |w| == 4 && t == Written(m, e.Address() + 24, w)
    ensures EntryBytes(t, e) == EntryBytes(m, e)[..24] + w + EntryBytes(m, e)[28..]
    ensures EntryBytes(t, e.Other()) == EntryBytes(m, e.Other())
    ensures t[OTA_0.offset..] == m[OTA_0.offset..]
  {
    hide Written;
    var (a, o) := (e.Address(), e.Other().Address());
    WrittenBeside(m, a + 24, w, a, a + 24);
    WrittenBeside(m, a + 24, w, a + 28, a + 32);
    WrittenBeside(m, a + 24, w, o, o + ENTRY_SIZE);
    WrittenBeside(m, a + 24, w, OTA_0.offset, |m|);
    RangeInThree(m, a, 24, 28, ENTRY_SIZE);
    RangeInThree(t, a, 24, 28, ENTRY_SIZE);
    assert t[a + 24..a + 28] == w;
  }

  lemma ParseWithState(b: seq<byte>, w: seq<byte>)
    requires |b| == ENTRY_SIZE && |w| == 4
    ensures Parse(b[..24] + w + b[28..]) == Parse(b).(state := StateFrom(FromLe(w)))
  {
    hide SumOf, FromLe;
    var v := b[..24] + w + b[28..];
    assert v[0..4] == b[0..4] && v[4..24] == b[4..24] && v[24..28] == w && v[28..32] == b[28..32];
  }

  /** Rewriting the state word of an entry changes nothing else. */
  lemma StateWritten(m: seq<byte>, e: EntrySlot, state: State)
    requires |m| >= LAYOUT_END
    ensures EntryAt(WithState(m, e, state), e) == EntryAt(m, e).(state := state)
    ensures EntryAt(WithState(m, e, state), e.Other()) == EntryAt(m, e.Other())
    ensures WithState(m, e, state)[OTA_0.offset..] == m[OTA_0.offset..]
  {
    hide Parse, EntryBytes;
    LeRoundTrip(StateCode(state));
    StateBytes(m, e, ToLe(StateCode(state)), WithState(m, e, state));
    ParseWithState(EntryBytes(m, e), ToLe(StateCode(state)));
  }

  // ---- Confirming an entry, also one whose slot is being written ----

  /** The entry of a firmware slot. */
  function EntryFor(slot: Slot): EntrySlot {
    if slot == Slot1 then One else Zero
  }

  /** Confirmed, and newer than the other entry if that is confirmed, too. */
  predicate NewestConfirmed(m: seq<byte>, e: EntrySlot)
    requires |m| >= LAYOUT_END
  {
    && Bootable(EntryAt(m, e))
    && (Bootable(EntryAt(m, e.Other())) ==> EntryAt(m, e.Other()).seqNo < EntryAt(m, e).seqNo)
  }

  /** The update under way writes to the newest confirmed slot: its entry was confirmed since the preparation. */
  predicate Stale(s: System)
    requires |s.flash| >= LAYOUT_END
  {
    s.update.Some? && NewestConfirmed(s.flash, EntryFor(s.update.value.0))
  }

  /** The invariant while the update under way is stale: the anchor is the entry being written. */
  ghost predicate StaleInv(s: System, c: EntrySlot) {
    && |s.flash| >= LAYOUT_END
    && !s.panicked
    && Core(EntryAt(s.flash, c), EntryAt(s.flash, c.Other()))
    && EntryAt(s.flash, c.Other()).state == Valid
    && Intact(s, c)
    && s.update.Some? && s.update.value.0 == SlotOf(c) && s.update.value.1 <= SlotOf(c).Area().size
  }

  ghost predicate Sound(s: System, c: EntrySlot) {
    Inv(s, c) || StaleInv(s, c)
  }

  /**
   The device can boot: some entry is confirmed, two confirmed entries are never confused, the
   newest confirmed one has its image, and the assertion in the commit has not fired.
   */
  ghost predicate Safe(s: System)
    requires |s.flash| >= LAYOUT_END
  {
    var (e0, e1) := (EntryAt(s.flash, Zero), EntryAt(s.flash, One));
    && !s.panicked
    && (Bootable(e0) || Bootable(e1))
    && (Confirmed(e0) && Confirmed(e1) ==> e0.seqNo != e1.seqNo)
    && (NewestConfirmed(s.flash, Zero) ==> Intact(s, Zero))
    && (NewestConfirmed(s.flash, One) ==> Intact(s, One))
  }

  lemma AnchorOfSystem(s: System, c: EntrySlot)
    requires Sound(s, c)
    ensures |s.flash| >= LAYOUT_END
    ensures NewestConfirmed(s.flash, c) && !NewestConfirmed(s.flash, c.Other())
    ensures Stale(s) <==> StaleInv(s, c)
  {
    hide SeqChecksum, EntryAt, Intact, Holds;
    AnchorIsNewest(EntryAt(s.flash, c), EntryAt(s.flash, c.Other()));
  }

  lemma SoundIsSafe(s: System, c: EntrySlot)
    requires Sound(s, c)
    ensures Safe(s)
  {
    hide SeqChecksum, EntryAt, Intact, NewestConfirmed;
    AnchorOfSystem(s, c);
    AnchorIsNewest(EntryAt(s.flash, c), EntryAt(s.flash, c.Other()));
    NewestIsBootable(s.flash, c);
  }

  lemma NewestIsBootable(m: seq<byte>, e: EntrySlot)
    requires |m| >= LAYOUT_END && NewestConfirmed(m, e)
    ensures Bootable(EntryAt(m, e))
  {
  }

  /** `buf` repeats the image it is written over. */
  predicate Repeats(image: seq<byte>, offset: nat, buf: seq<byte>) {
    forall i :: 0 <= i < |buf| && offset + i < |image| ==> buf[i] == image[offset + i]
  }

  /**
   A write cut at the address `upto` spares the image at `base`: what was written before the cut
   repeats it, and what was left erased in the sector of the cut is erased in the image, too.
   */
  predicate CutSpares(image: seq<byte>, base: nat, offset: nat, buf: seq<byte>, upto: nat, erased: bool) {
    && (forall i :: 0 <= i < |buf| && offset + i < |image| && base + offset + i < upto ==> buf[i] == image[offset + i])
    && (erased ==> forall i :: 0 <= i < |image| && upto <= base + i < SectorStart(upto) + SECTOR_SIZE ==>
        image[i] == ERASED)
  }

  /**
   What an event must not do.  An entry that is the newest is confirmed only with its image
   still in its slot.  A stale update writes nothing but what is there already, is cut by power
   only where that spares the image, and is never committed.
   */
  ghost predicate Harmless(s: System, ev: Event)
    requires |s.flash| >= LAYOUT_END
  {
    match ev
    case SetState(e, state) =>
      state == Valid ==> Intact(s, e) || EntryAt(s.flash, e).seqNo < EntryAt(s.flash, e.Other()).seqNo
    case Write(buf) =>
      Stale(s) ==>
        var (slot, offset) := s.update.value;
        offset + |buf| <= slot.Area().size ==> Repeats(s.Image(EntryFor(slot)), offset, buf)
    case WriteCut(buf, upto, erased) =>
      Stale(s) ==>
        var (slot, offset) := s.update.value;
        CutSpares(s.Image(EntryFor(slot)), slot.Area().offset, offset, buf, upto, erased)
    case Commit => !Stale(s)
    case _ => true
  }

  lemma SetStateStep(s: System, e: EntrySlot, state: State, t: System, c: EntrySlot) returns (d: EntrySlot)
    requires Inv(s, c) && Next(s, SetState(e, state), t)
    requires state == Valid ==> Intact(s, e) || EntryAt(s.flash, e).seqNo < EntryAt(s.flash, e.Other()).seqNo
    ensures if d == c || s.update.None? then Inv(t, d) else StaleInv(t, d)
    ensures e == c.Other()
    ensures d == if state == Valid && EntryAt(s.flash, e).seqNo > EntryAt(s.flash, c).seqNo then e else c
    ensures EntryAt(t.flash, e) == EntryAt(s.flash, e).(state := state)
    ensures EntryAt(t.flash, c) == EntryAt(s.flash, c)
    ensures Intact(s, e) ==> Intact(t, e)
  {
    hide SeqChecksum, EntryAt, SumBelow, Holds, Written, Torn, ChosenSlot, CommitSlot, CommitTarget, Committed,
         TornCommit;
    StateWritten(s.flash, e, state);
    var (a, o) := (EntryAt(s.flash, c), EntryAt(s.flash, e));
    d := if state == Valid && o.seqNo > a.seqNo then e else c;
    if state == Valid {
      ConfirmKeepsCore(a, o);
    }
    FirmwareKept(s.flash, t.flash, c, s.Image(c));
    if Intact(s, e) {
      FirmwareKept(s.flash, t.flash, e, s.Image(e));
    }
    if s.update.Some? {
      FirmwareKept(s.flash, t.flash, c.Other(), s.streamed);
      HoldsFits(s.flash, c.Other(), s.streamed);
    }
  }

  lemma HoldsFits(m: seq<byte>, e: EntrySlot, image: seq<byte>)
    requires |m| >= LAYOUT_END && Holds(m, e, image)
    ensures |image| <= SlotOf(e).Area().size
  {
  }

  lemma PowerLossStep(s: System, t: System, c: EntrySlot)
    requires Inv(s, c) && Next(s, PowerLoss, t)
    ensures Inv(t, c)
  {
    hide Core, EntryAt, Holds, Next;
    PowerLossEndsUpdate(s, t);
  }

  lemma PowerLossEndsUpdate(s: System, t: System)
    requires |s.flash| >= LAYOUT_END && Next(s, PowerLoss, t)
    ensures t == s.(update := None)
  {
    hide EntryAt, ChosenSlot, CommitSlot, NextNumber, CommitTarget, Committed, TornCommit, Torn, Written, WithState,
         Pending;
  }

  // ---- A stale update ----

  /** Giving up the update under way restores the invariant. */
  lemma UpdateDropped(s: System, c: EntrySlot)
    requires Sound(s, c)
    ensures Inv(s.(update := None), c)
  {
    hide Core, EntryAt, Holds;
  }

  lemma StalePrepare(s: System, t: System, c: EntrySlot)
    requires StaleInv(s, c) && Next(s, Prepare, t)
    ensures Inv(t, c)
  {
    hide Core, EntryAt, Written, Torn, CommitSlot, CommitTarget, NextNumber, Committed, TornCommit, WithState, Pending;
    ChoicesAgree(s.flash, c);
  }

  /** A write keeps the image it goes over exactly if it repeats it. */
  lemma WriteOverImage(m: seq<byte>, e: EntrySlot, image: seq<byte>, offset: nat, buf: seq<byte>)
    requires |m| >= LAYOUT_END && Holds(m, e, image) && offset + |buf| <= SlotOf(e).Area().size
    ensures Holds(Written(m, SlotOf(e).Area().offset + offset, buf), e, image) <==> Repeats(image, offset, buf)
  {
    hide Written, Repeats;
    var (base, all) := (SlotOf(e).Area().offset, |image|);
    var w := Written(m, base + offset, buf);
    var (was, now) := (m[base..base + all], w[base..base + all]);
    forall i | 0 <= i < all ensures now[i] == if offset <= i < offset + |buf| then buf[i - offset] else was[i] {
      WrittenAt(m, base + offset, buf, base + i);
    }
    OverlaidOrNot(image, offset, buf, now);
  }

  /** An image with `buf` laid over it is the same exactly if `buf` repeats it. */
  lemma OverlaidOrNot(image: seq<byte>, offset: nat, buf: seq<byte>, now: seq<byte>)
    requires |now| == |image|
    requires forall i :: 0 <= i < |now| ==> now[i] == if offset <= i < offset + |buf| then buf[i - offset] else image[i]
    ensures now == image <==> Repeats(image, offset, buf)
  {
    if now == image {
      forall i | 0 <= i < |buf| && offset + i < |image| ensures buf[i] == image[offset + i] {
        assert now[offset + i] == buf[i];
      }
    }
  }

  lemma WriteMeans(s: System, buf: seq<byte>, t: System)
    requires |s.flash| >= LAYOUT_END && Next(s, Write(buf), t)
    ensures s.update.Some?
    ensures
      var (slot, offset) := s.update.value;
      t == if offset + |buf| > slot.Area().size then s
           else s.(flash := Written(s.flash, slot.Area().offset + offset, buf),
                   update := Some((slot, offset + |buf|)),
                   streamed := s.streamed + buf)
  {
    hide EntryAt, ChosenSlot, CommitSlot, CommitTarget, NextNumber, Committed, TornCommit, Torn, TornAt, Written,
         WithState, Pending;
  }

  lemma SameNewest(m: seq<byte>, t: seq<byte>, e: EntrySlot)
    requires |m| >= LAYOUT_END && |t| >= LAYOUT_END
    requires EntryAt(t, Zero) == EntryAt(m, Zero) && EntryAt(t, One) == EntryAt(m, One)
    ensures NewestConfirmed(t, e) == NewestConfirmed(m, e)
  {
    hide EntryAt;
  }

  /** A cut write keeps the image it goes over exactly if it spares it. */
  lemma CutOverImage(m: seq<byte>, t: seq<byte>, e: EntrySlot, image: seq<byte>, offset: nat, buf: seq<byte>,
                     upto: nat, erased: bool)
    requires |m| >= LAYOUT_END && Holds(m, e, image) && offset + |buf| <= SlotOf(e).Area().size
    requires TornAt(m, t, SlotOf(e).Area().offset + offset, buf, upto, erased)
    ensures |t| == |m|
    ensures Holds(t, e, image) <==> CutSpares(image, SlotOf(e).Area().offset, offset, buf, upto, erased)
  {
    hide Written, CutSpares;
    var (base, all) := (SlotOf(e).Area().offset, |image|);
    var (was, now) := (m[base..base + all], t[base..base + all]);
    forall i | 0 <= i < all
      ensures now[i] == if base + i < upto then (if offset <= i < offset + |buf| then buf[i - offset] else was[i])
                        else if erased && base + i < SectorStart(upto) + SECTOR_SIZE then ERASED else was[i]
    {
      TornAtAddress(m, t, base + offset, buf, upto, erased, base + i);
    }
    SparedOrNot(image, base, offset, buf, upto, erased, now);
  }

  lemma SparedOrNot(image: seq<byte>, base: nat, offset: nat, buf: seq<byte>, upto: nat, erased: bool, now: seq<byte>)
    requires |now| == |image|
    requires forall i :: 0 <= i < |now| ==>
               now[i] == if base + i < upto then (if offset <= i < offset + |buf| then buf[i - offset] else image[i])
                         else if erased && base + i < SectorStart(upto) + SECTOR_SIZE then ERASED else image[i]
    ensures now == image <==> CutSpares(image, base, offset, buf, upto, erased)
  {
    if now == image {
      forall i | 0 <= i < |buf| && offset + i < |image| && base + offset + i < upto
        ensures buf[i] == image[offset + i]
      {
        assert now[offset + i] == buf[i];
      }
    }
  }

  /** Whatever happens to the slot of the anchor, safety is the anchor's image. */
  lemma AnchorSlotChanged(s: System, t: System, c: EntrySlot)
    requires StaleInv(s, c) && SameOutside(s.flash, t.flash, SlotOf(c)) && |t.flash| >= LAYOUT_END
    requires t == s.(flash := t.flash, update := t.update, streamed := t.streamed)
    ensures Holds(t.flash, c, s.Image(c)) ==> Inv(t.(update := None), c)
    ensures
      && Holds(t.flash, c, s.Image(c))
      && t.update.Some? && t.update.value.0 == SlotOf(c) && t.update.value.1 <= SlotOf(c).Area().size
      ==> StaleInv(t, c)
    ensures !Holds(t.flash, c, s.Image(c)) ==> !Safe(t)
  {
    hide Core, EntryAt, Holds, NewestConfirmed, SameOutside;
    AnchorOfSystem(s, c);
    SlotChangeKeeps(s.flash, t.flash, c, s.Image(c));
    SameNewest(s.flash, t.flash, c);
  }

  /** What a stale update must not do, in terms of its anchor. */
  lemma StaleHarm(s: System, c: EntrySlot)
    requires StaleInv(s, c)
    ensures |s.flash| >= LAYOUT_END && s.update.Some? && s.update.value.0 == SlotOf(c)
    ensures s.update.value.1 <= SlotOf(c).Area().size && Holds(s.flash, c, s.Image(c))
    ensures forall buf :: Harmless(s, Write(buf)) <==>
              (s.update.value.1 + |buf| <= SlotOf(c).Area().size ==> Repeats(s.Image(c), s.update.value.1, buf))
    ensures forall buf, upto, erased :: Harmless(s, WriteCut(buf, upto, erased)) <==>
              CutSpares(s.Image(c), SlotOf(c).Area().offset, s.update.value.1, buf, upto, erased)
  {
    hide Core, EntryAt, Holds, NewestConfirmed, Repeats, CutSpares, Stale;
    AnchorOfSystem(s, c);
  }

  lemma StaleWrite(s: System, buf: seq<byte>, t: System, c: EntrySlot)
    requires StaleInv(s, c) && Next(s, Write(buf), t)
    ensures |s.flash| >= LAYOUT_END && |t.flash| >= LAYOUT_END
    ensures if Harmless(s, Write(buf)) then StaleInv(t, c) else !Safe(t)
  {
    hide *;
    StaleHarm(s, c);
    WriteMeans(s, buf, t);
    var offset := s.update.value.1;
    if offset + |buf| <= SlotOf(c).Area().size {
      FirmwareWrite(s.flash, SlotOf(c), offset, buf);
      WriteOverImage(s.flash, c, s.Image(c), offset, buf);
      AnchorSlotChanged(s, t, c);
    }
  }

  lemma StaleWriteCut(s: System, buf: seq<byte>, upto: nat, erased: bool, t: System, c: EntrySlot)
    requires StaleInv(s, c) && Next(s, WriteCut(buf, upto, erased), t)
    ensures |s.flash| >= LAYOUT_END && |t.flash| >= LAYOUT_END
    ensures if Harmless(s, WriteCut(buf, upto, erased)) then Inv(t, c) else !Safe(t)
  {
    hide *;
    StaleHarm(s, c);
    WriteCutMeans(s, buf, upto, erased, t);
    CutOverImage(s.flash, t.flash, c, s.Image(c), s.update.value.1, buf, upto, erased);
    FirmwareTorn(s.flash, t.flash, SlotOf(c), s.update.value.1, buf);
    AnchorSlotChanged(s, t, c);
  }

  lemma CommitMeans(s: System, t: System)
    requires |s.flash| >= LAYOUT_END && Next(s, Commit, t)
    ensures s.update.Some? && |t.flash| >= LAYOUT_END
    ensures t.panicked <==> s.panicked || CommitSlot(s.flash) != s.update.value.0
  {
    hide EntryAt, ChosenSlot, CommitSlot, CommitTarget, NextNumber, Committed, TornCommit, Torn, Written, WithState,
         Pending;
  }

  lemma CommitCutMeans(s: System, t: System)
    requires |s.flash| >= LAYOUT_END && Next(s, CommitCut, t)
    ensures s.update.Some? && CommitSlot(s.flash) == s.update.value.0
  {
    hide EntryAt, ChosenSlot, CommitSlot, CommitTarget, NextNumber, Committed, TornCommit, Torn, Written, WithState,
         Pending;
  }

  /** A commit under way goes to the slot of the update exactly unless the update is stale. */
  lemma CommitSlotOfUpdate(s: System, c: EntrySlot)
    requires Sound(s, c) && s.update.Some?
    ensures |s.flash| >= LAYOUT_END && (CommitSlot(s.flash) != s.update.value.0 <==> Stale(s))
  {
    hide Core, EntryAt, Holds, NewestConfirmed, CommitSlot, CommitTarget, ChosenSlot, NextNumber;
    AnchorOfSystem(s, c);
    ChoicesAgree(s.flash, c);
  }

  /** Committing fires the assertion exactly if the update is stale; a stale one is not cut while committing. */
  lemma AssertionFires(s: System, t: System, c: EntrySlot)
    requires Sound(s, c)
    ensures Next(s, Commit, t) ==> |t.flash| >= LAYOUT_END && (t.panicked <==> Stale(s))
    ensures Next(s, CommitCut, t) ==> !Stale(s)
  {
    AnchorOfSystem(s, c);
    NotPanicked(s, c);
    hide *;
    if Next(s, Commit, t) {
      CommitMeans(s, t);
      CommitSlotOfUpdate(s, c);
    }
    if Next(s, CommitCut, t) {
      CommitCutMeans(s, t);
      CommitSlotOfUpdate(s, c);
    }
  }

  lemma NotPanicked(s: System, c: EntrySlot)
    requires Sound(s, c)
    ensures !s.panicked
  {
    hide Core, EntryAt, Holds;
  }

  /** The other entry of a stale update is confirmed, so neither is pending. */
  lemma StaleIsDecided(s: System, e: EntrySlot, state: State, t: System, c: EntrySlot)
    requires StaleInv(s, c)
    ensures !Next(s, SetState(e, state), t)
  {
    hide SeqChecksum, EntryAt, SumBelow, Holds, Written, Torn, ChosenSlot, CommitSlot, CommitTarget, Committed,
         TornCommit, WithState;
  }

  // ---- Every event ----

  /** Confirming an entry whose image is lost leaves the newest confirmed entry without its image. */
  lemma LostImageConfirmed(s: System, e: EntrySlot, t: System, c: EntrySlot)
    requires Inv(s, c) && Next(s, SetState(e, Valid), t) && !Intact(s, e)
    requires EntryAt(s.flash, e).seqNo >= EntryAt(s.flash, e.Other()).seqNo
    ensures |t.flash| >= LAYOUT_END && !Safe(t)
  {
    hide SeqChecksum, EntryAt, SumBelow, Holds, WithState, Written, Torn, ChosenSlot, CommitSlot, CommitTarget,
         Committed, TornCommit;
    StateWritten(s.flash, e, Valid);
    AnchorIsNewest(EntryAt(s.flash, c), EntryAt(s.flash, c.Other()));
    if Intact(t, e) {
      FirmwareKept(t.flash, s.flash, e, t.Image(e));
    }
  }

  lemma ProtocolIsHarmless(s: System, ev: Event)
    requires |s.flash| >= LAYOUT_END && !Stale(s) && !ev.SetState?
    ensures Harmless(s, ev)
  {
    hide Stale, Repeats, CutSpares, Intact;
  }

  /** While the update is not stale, nothing in the protocol itself does harm. */
  lemma ProtocolStep(s: System, ev: Event, t: System, c: EntrySlot)
    requires Inv(s, c) && Next(s, ev, t) && !ev.SetState?
    ensures Inv(t, c) && Harmless(s, ev)
  {
    hide Inv, Next, Stale, Harmless;
    InvIsNotStale(s, c);
    match ev {
      case Prepare => PrepareStep(s, t, c);
      case Write(buf) => WriteStep(s, buf, t, c);
      case WriteCut(buf, upto, erased) => WriteCutStep(s, buf, upto, erased, t, c);
      case Commit => CommitStep(s, t, c);
      case CommitCut => CommitStep(s, t, c);
      case PowerLoss => PowerLossStep(s, t, c);
    }
    InvIsNotStale(t, c);
    ProtocolIsHarmless(s, ev);
  }

  lemma StateStep(s: System, e: EntrySlot, state: State, t: System, c: EntrySlot) returns (d: EntrySlot)
    requires Inv(s, c) && Next(s, SetState(e, state), t)
    ensures |s.flash| >= LAYOUT_END && |t.flash| >= LAYOUT_END
    ensures if Harmless(s, SetState(e, state)) then Sound(t, d) else !Safe(t)
  {
    hide Inv, StaleInv, Next, Safe, EntryAt, Intact;
    InvIsNotStale(s, c);
    d := c;
    if state == Valid && !Intact(s, e) && EntryAt(s.flash, e).seqNo >= EntryAt(s.flash, e.Other()).seqNo {
      LostImageConfirmed(s, e, t, c);
    } else {
      d := SetStateStep(s, e, state, t, c);
      AnchorOfSystem(t, d);
    }
  }

  lemma StaleStep(s: System, ev: Event, t: System, c: EntrySlot)
    requires StaleInv(s, c) && Next(s, ev, t)
    ensures |s.flash| >= LAYOUT_END && |t.flash| >= LAYOUT_END
    ensures if Harmless(s, ev) then Sound(t, c) else !Safe(t)
  {
    hide Inv, StaleInv, Next, Stale, Safe, EntryAt, Intact, Repeats, CutSpares, NewestConfirmed;
    AnchorOfSystem(s, c);
    match ev
    case Prepare => StalePrepare(s, t, c); InvIsNotStale(t, c);
    case Write(buf) => StaleWrite(s, buf, t, c);
    case WriteCut(buf, upto, erased) => StaleWriteCut(s, buf, upto, erased, t, c);
    case Commit => AssertionFires(s, t, c); PanickedIsUnsafe(t);
    case CommitCut => AssertionFires(s, t, c);
    case PowerLoss =>
      UpdateDropped(s, c);
      PowerLossEndsUpdate(s, t);
    case SetState(e, state) => StaleIsDecided(s, e, state, t, c);
  }

  /**
   Every harmless event keeps the invariant, for the same anchor or a newly confirmed one; any
   other breaks safety.
   */
  lemma StepKeepsSound(s: System, ev: Event, t: System, c: EntrySlot) returns (d: EntrySlot)
    requires Sound(s, c) && Next(s, ev, t)
    ensures |s.flash| >= LAYOUT_END && |t.flash| >= LAYOUT_END
    ensures if Harmless(s, ev) then Sound(t, d) else !Safe(t)
  {
    hide Inv, StaleInv, Next, Safe, Harmless;
    d := c;
    if StaleInv(s, c) {
      StaleStep(s, ev, t, c);
    } else if ev.SetState? {
      d := StateStep(s, ev.entry, ev.state, t, c);
    } else {
      ProtocolStep(s, ev, t, c);
      InvIsNotStale(s, c);
      InvIsNotStale(t, c);
    }
  }

  lemma PanickedIsUnsafe(s: System)
    requires |s.flash| >= LAYOUT_END
    ensures s.panicked ==> !Safe(s)
  {
  }

  /** An update becomes stale exactly when its own entry is confirmed as the newest, and stops being so when it ends. */
  lemma StaleBegins(s: System, ev: Event, t: System, c: EntrySlot)
    requires Inv(s, c) && Next(s, ev, t) && |t.flash| >= LAYOUT_END && Harmless(s, ev)
    ensures Stale(t) <==>
            && ev.SetState? && ev.state == Valid && s.update.Some?
            && EntryAt(s.flash, ev.entry).seqNo > EntryAt(s.flash, ev.entry.Other()).seqNo
  {
    hide Inv, StaleInv, Next, Stale, Safe, NewestConfirmed, EntryAt, Intact;
    InvIsNotStale(s, c);
    match ev
    case Prepare => PrepareStep(s, t, c); InvIsNotStale(t, c);
    case Write(buf) => WriteStep(s, buf, t, c); InvIsNotStale(t, c);
    case WriteCut(buf, upto, erased) => WriteCutStep(s, buf, upto, erased, t, c); InvIsNotStale(t, c);
    case Commit => CommitStep(s, t, c); InvIsNotStale(t, c);
    case CommitCut => CommitStep(s, t, c); InvIsNotStale(t, c);
    case PowerLoss => PowerLossStep(s, t, c); InvIsNotStale(t, c);
    case SetState(e, state) =>
      var d := SetStateStep(s, e, state, t, c);
      AnchorOfSystem(t, d);
      InvAndStaleExclude(t, d);
  }

  lemma InvIsNotStale(s: System, c: EntrySlot)
    requires Inv(s, c)
    ensures |s.flash| >= LAYOUT_END && !Stale(s)
  {
    hide Inv, StaleInv, Stale, NewestConfirmed, EntryAt;
    AnchorOfSystem(s, c);
    InvAndStaleExclude(s, c);
  }

  lemma InvAndStaleExclude(s: System, c: EntrySlot)
    ensures !(Inv(s, c) && StaleInv(s, c))
  {
    hide Core, EntryAt, Intact, Holds;
  }

  // ---- Runs ----

  /** `states` passes from each state to the next by the event between them. */
  ghost predicate Run(states: seq<System>, events: seq<Event>) {
    && |states| == |events| + 1
    && (forall i :: 0 <= i < |states| ==> |states[i].flash| >= LAYOUT_END)
    && Init(states[0])
    && (forall i :: 0 <= i < |events| ==> Next(states[i], events[i], states[i + 1]))
  }

  ghost predicate HarmlessUntil(states: seq<System>, events: seq<Event>, n: nat)
    requires |states| == |events| + 1 && n <= |events|
    requires forall i :: 0 <= i < |states| ==> |states[i].flash| >= LAYOUT_END
  {
    forall i :: 0 <= i < n ==> Harmless(states[i], events[i])
  }

  lemma InitIsSound(s: System)
    requires Init(s)
    ensures Sound(s, Zero)
  {
    hide Core, EntryAt, Intact;
    InitEntries(s);
  }

  lemma {:induction false} RunKeepsSound(states: seq<System>, events: seq<Event>, n: nat) returns (c: EntrySlot)
    requires Run(states, events) && n < |states| && HarmlessUntil(states, events, n)
    ensures Sound(states[n], c)
    decreases n
  {
    hide Next, Harmless, Sound, Init;
    if n == 0 {
      InitIsSound(states[0]);
      c := Zero;
    } else {
      var b := RunKeepsSound(states, events, n - 1);
      c := StepKeepsSound(states[n - 1], events[n - 1], states[n], b);
    }
  }

  lemma {:induction false} SafeRunsAreHarmless(states: seq<System>, events: seq<Event>, n: nat)
    requires Run(states, events) && n <= |events|
    requires forall i :: 0 <= i < |states| ==> Safe(states[i])
    ensures HarmlessUntil(states, events, n)
    decreases n
  {
    hide Sound, Safe, Next, Init, Harmless;
    if n > 0 {
      SafeRunsAreHarmless(states, events, n - 1);
      var c := RunKeepsSound(states, events, n - 1);
      var d := StepKeepsSound(states[n - 1], events[n - 1], states[n], c);
    }
  }

  /**
   Safety over whole runs: whatever updates, power losses and state changes happened, at any
   time, the device can boot at every moment and the commit's assertion has not fired, exactly
   if every event was harmless.
   */
  lemma RunsAreSafe(states: seq<System>, events: seq<Event>)
    requires Run(states, events)
    ensures (forall n :: 0 <= n < |states| ==> Safe(states[n])) <==> HarmlessUntil(states, events, |events|)
  {
    hide Sound, Safe, Next, Init, Harmless;
    if HarmlessUntil(states, events, |events|) {
      forall n | 0 <= n < |states| ensures Safe(states[n]) {
        var c := RunKeepsSound(states, events, n);
        SoundIsSafe(states[n], c);
      }
    } else if forall n :: 0 <= n < |states| ==> Safe(states[n]) {
      SafeRunsAreHarmless(states, events, |events|);
    }
  }

  /** In a run that was harmless so far, a commit fires the assertion exactly if the update is stale. */
  lemma CommitPanicsIfStale(states: seq<System>, events: seq<Event>, n: nat)
    requires Run(states, events) && n < |events| && events[n] == Commit && HarmlessUntil(states, events, n)
    ensures states[n + 1].panicked <==> Stale(states[n])
  {
    hide Sound, Next, Init, Harmless, Stale;
    var c := RunKeepsSound(states, events, n);
    AssertionFires(states[n], states[n + 1], c);
  }
}
