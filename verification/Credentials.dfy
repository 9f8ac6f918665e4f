/** Saving and loading the Wi-Fi credentials, and what a power cut in between leaves. */
module Credentials {
  import opened Bytes
  import opened Flash
  import opened Nvs
  import opened Wrappers

  const SSID_MAX_LEN: nat := 32
  const PASSWORD_LEN: nat := 64

  /** Where the fields lie in the store. */
  const SSID_LEN_AT: u32 := MIN_OFFSET
  const SSID_AT: u32 := MIN_OFFSET + 1
  const PASSWORD_LEN_AT: u32 := MIN_OFFSET + 1 + SSID_MAX_LEN
  const PASSWORD_AT: u32 := MIN_OFFSET + 1 + SSID_MAX_LEN + 1

  // ---- Strings ----

  predicate Continues(b: byte) {
    0x80 <= b <= 0xBF
  }

  /** The length of the well-formed UTF-8 sequence at the start of `b`, 0 if there is none (section 4 of RFC 3629). */
  function FirstChar(b: seq<byte>): (n: nat)
    requires b != []
    ensures n <= |b|
    ensures n > 0 ==> forall i :: 0 <= i < n ==> b[i] != 0xFF
  {
    if b[0] <= 0x7F then 1
    else if 0xC2 <= b[0] <= 0xDF && |b| >= 2 && Continues(b[1]) then 2
    else if 0xE0 <= b[0] <= 0xEF && |b| >= 3 && Continues(b[1]) && Continues(b[2])
         && (b[0] == 0xE0 ==> b[1] >= 0xA0) && (b[0] == 0xED ==> b[1] <= 0x9F) then 3
    else if 0xF0 <= b[0] <= 0xF4 && |b| >= 4 && Continues(b[1]) && Continues(b[2]) && Continues(b[3])
         && (b[0] == 0xF0 ==> b[1] >= 0x90) && (b[0] == 0xF4 ==> b[1] <= 0x8F) then 4
    else 0
  }

  predicate IsUtf8(b: seq<byte>)
    decreases |b|
  {
    b == [] || (FirstChar(b) > 0 && IsUtf8(b[FirstChar(b)..]))
  }

  /** A Unicode scalar value. */
  type Scalar = c: int | 0 <= c <= 0xD7FF || 0xE000 <= c <= 0x10_FFFF

  /** The bytes of a character: its number in groups of six bits, the highest first (section 3 of RFC 3629). */
  function EncodeChar(c: Scalar): (b: seq<byte>)
    ensures b != []
  {
    if c < 0x80 then [c]
    else if c < 0x800 then [0xC0 + c / 0x40, 0x80 + c % 0x40]
    else if c < 0x1_0000 then [0xE0 + c / 0x1000, 0x80 + c / 0x40 % 0x40, 0x80 + c % 0x40]
    else [0xF0 + c / 0x4_0000, 0x80 + c / 0x1000 % 0x40, 0x80 + c / 0x40 % 0x40, 0x80 + c % 0x40]
  }

  function EncodeAll(chars: seq<Scalar>): seq<byte>
    decreases |chars|
  {
    if chars == [] then [] else EncodeChar(chars[0]) + EncodeAll(chars[1..])
  }

  /** `b` is the encoding of some text. */
  ghost predicate EncodesText(b: seq<byte>) {
    exists chars :: b == EncodeAll(chars)
  }

  /** A number and its groups of six bits. */
  lemma Groups(c: int, g0: int, g1: int, g2: int, g3: int)
    requires 0 <= g1 < 0x40 && 0 <= g2 < 0x40 && 0 <= g3 < 0x40
    requires c == g0 * 0x4_0000 + g1 * 0x1000 + g2 * 0x40 + g3
    ensures c / 0x4_0000 == g0 && c / 0x1000 % 0x40 == g1 && c / 0x40 % 0x40 == g2 && c % 0x40 == g3
  {
    assert c / 0x40 == g0 * 0x1000 + g1 * 0x40 + g2;
    assert c / 0x1000 == g0 * 0x40 + g1;
  }

  /** The encoding, given the groups. */
  lemma CharOfGroups(c: Scalar, g0: int, g1: int, g2: int, g3: int)
    requires 0 <= g1 < 0x40 && 0 <= g2 < 0x40 && 0 <= g3 < 0x40
    requires c == g0 * 0x4_0000 + g1 * 0x1000 + g2 * 0x40 + g3
    ensures EncodeChar(c) ==
            if c < 0x80 then [c]
            else if c < 0x800 then [0xC0 + g2, 0x80 + g3]
            else if c < 0x1_0000 then [0xE0 + g1, 0x80 + g2, 0x80 + g3]
            else [0xF0 + g0, 0x80 + g1, 0x80 + g2, 0x80 + g3]
  {
    Groups(c, g0, g1, g2, g3);
  }

  lemma CharOfGroupsIsWhole(c: Scalar, g0: int, g1: int, g2: int, g3: int)
    requires 0 <= g1 < 0x40 && 0 <= g2 < 0x40 && 0 <= g3 < 0x40
    requires c == g0 * 0x4_0000 + g1 * 0x1000 + g2 * 0x40 + g3
    ensures FirstChar(EncodeChar(c)) == |EncodeChar(c)|
  {
    CharOfGroups(c, g0, g1, g2, g3);
    hide EncodeChar;
  }

  lemma EncodedCharIsWhole(c: Scalar)
    ensures FirstChar(EncodeChar(c)) == |EncodeChar(c)|
  {
    hide EncodeChar, FirstChar;
    var (c1, c2) := (c / 0x40, c / 0x40 / 0x40);
    CharOfGroupsIsWhole(c, c2 / 0x40, c2 % 0x40, c1 % 0x40, c % 0x40);
  }

  /** Every encoded character is taken whole, and nothing after it. */
  lemma EncodedCharIsFirst(c: Scalar, rest: seq<byte>)
    ensures FirstChar(EncodeChar(c) + rest) == |EncodeChar(c)|
    ensures (EncodeChar(c) + rest)[|EncodeChar(c)|..] == rest
  {
    hide EncodeChar;
    EncodedCharIsWhole(c);
  }

  lemma TwoBytes(b0: byte, b1: byte) returns (c: Scalar)
    requires 0xC2 <= b0 <= 0xDF && Continues(b1)
    ensures EncodeChar(c) == [b0, b1]
  {
    c := (b0 as int - 0xC0) * 0x40 + (b1 - 0x80);
  }

  lemma ThreeBytes(b0: byte, b1: byte, b2: byte) returns (c: Scalar)
    requires 0xE0 <= b0 <= 0xEF && Continues(b1) && Continues(b2)
    requires (b0 == 0xE0 ==> b1 >= 0xA0) && (b0 == 0xED ==> b1 <= 0x9F)
    ensures EncodeChar(c) == [b0, b1, b2]
  {
    var (g0, g1, g2) := (b0 as int - 0xE0, b1 as int - 0x80, b2 as int - 0x80);
    c := g0 * 0x1000 + g1 * 0x40 + g2;
    CharOfGroups(c, 0, g0, g1, g2);
  }

  lemma FourBytes(b0: byte, b1: byte, b2: byte, b3: byte) returns (c: Scalar)
    requires 0xF0 <= b0 <= 0xF4 && Continues(b1) && Continues(b2) && Continues(b3)
    requires (b0 == 0xF0 ==> b1 >= 0x90) && (b0 == 0xF4 ==> b1 <= 0x8F)
    ensures EncodeChar(c) == [b0, b1, b2, b3]
  {
    var (g0, g1, g2, g3) := (b0 as int - 0xF0, b1 as int - 0x80, b2 as int - 0x80, b3 as int - 0x80);
    c := g0 * 0x4_0000 + g1 * 0x1000 + g2 * 0x40 + g3;
    Groups(c, g0, g1, g2, g3);
  }

  /** What is taken is an encoded character. */
  lemma FirstIsEncodedChar(b: seq<byte>) returns (c: Scalar)
    requires b != [] && FirstChar(b) > 0
    ensures b[..FirstChar(b)] == EncodeChar(c)
  {
    hide EncodeChar;
    var n := FirstChar(b);
    if n == 1 {
      c := OneByte(b[0]);
    } else if n == 2 {
      c := TwoBytes(b[0], b[1]);
    } else if n == 3 {
      c := ThreeBytes(b[0], b[1], b[2]);
    } else {
      c := FourBytes(b[0], b[1], b[2], b[3]);
    }
  }

  lemma OneByte(b0: byte) returns (c: Scalar)
    requires b0 <= 0x7F
    ensures EncodeChar(c) == [b0]
  {
    c := b0;
  }

  lemma {:induction false} EncodedIsUtf8(chars: seq<Scalar>)
    ensures IsUtf8(EncodeAll(chars))
    decreases |chars|
  {
    hide FirstChar, EncodeChar;
    if chars != [] {
      EncodedCharIsFirst(chars[0], EncodeAll(chars[1..]));
      EncodedIsUtf8(chars[1..]);
    }
  }

  lemma {:induction false} Utf8IsEncoded(b: seq<byte>) returns (chars: seq<Scalar>)
    requires IsUtf8(b)
    ensures b == EncodeAll(chars)
    decreases |b|
  {
    hide FirstChar, EncodeChar;
    if b == [] {
      chars := [];
    } else {
      var c := FirstIsEncodedChar(b);
      var rest := Utf8IsEncoded(b[FirstChar(b)..]);
      chars := [c] + rest;
      assert b == b[..FirstChar(b)] + b[FirstChar(b)..];
    }
  }

  /** Bytes are taken for a string exactly if they are the encoding of some text. */
  lemma Utf8IsText(b: seq<byte>)
    ensures IsUtf8(b) <==> EncodesText(b)
  {
    if IsUtf8(b) {
      var chars := Utf8IsEncoded(b);
    } else if EncodesText(b) {
      var chars :| b == EncodeAll(chars);
      EncodedIsUtf8(chars);
    }
  }

  /** Erased flash is never part of a string. */
  lemma {:induction false} NoErasedByte(b: seq<byte>, i: nat)
    requires i < |b| && b[i] == ERASED
    ensures !IsUtf8(b)
    decreases |b|
  {
    var n := FirstChar(b);
    if n > 0 && i >= n {
      NoErasedByte(b[n..], i - n);
    }
  }

  // ---- Loading ----

  datatype LoadResult = Loaded(ssid: seq<byte>, password: seq<byte>) | ParseCredentials | MissingCredentials

  function Field(m: seq<byte>, at: u32, len: nat): (f: seq<byte>)
    requires |m| >= LAYOUT_END && at as int + len <= NVS.size
    ensures |f| == len
  {
    m[NVS.offset + at..NVS.offset + at + len]
  }

  /** The credentials in flash. */
  function Load(m: seq<byte>): LoadResult
    requires |m| >= LAYOUT_END
  {
    if !IsValid(m) then MissingCredentials
    else
      var n := m[NVS.offset + SSID_LEN_AT];
      var p := m[NVS.offset + PASSWORD_LEN_AT];
      if n > SSID_MAX_LEN || p > PASSWORD_LEN then ParseCredentials
      else
        var (ssid, password) := (Field(m, SSID_AT, n), Field(m, PASSWORD_AT, p));
        if IsUtf8(ssid) && IsUtf8(password) then Loaded(ssid, password) else ParseCredentials
  }

  /** What loads, byte by byte: a magic, and two texts with their lengths before them. */
  lemma LoadOnBytes(m: seq<byte>, ssid: seq<byte>, password: seq<byte>)
    requires |m| >= LAYOUT_END
    ensures Load(m) == MissingCredentials <==> m[0x9000..0x9004] != [0xEF, 0xBE, 0xAD, 0xDE]
    ensures Load(m) == Loaded(ssid, password) <==>
            && m[0x9000..0x9004] == [0xEF, 0xBE, 0xAD, 0xDE]
            && m[0x9004] <= 32 && ssid == m[0x9005..0x9005 + m[0x9004]] && EncodesText(ssid)
            && m[0x9025] <= 64 && password == m[0x9026..0x9026 + m[0x9025]] && EncodesText(password)
  {
    hide IsUtf8, IsValid, EncodesText;
    ValidOnBytes(m);
    Utf8IsText(ssid);
    Utf8IsText(password);
  }

  // ---- Saving ----

  datatype FlashWrite = FlashWrite(offset: nat, data: seq<byte>)

  /** The writes of one save, in order: the magic is cleared first and set last. */
  function SaveWrites(ssid: seq<byte>, password: seq<byte>): (w: seq<FlashWrite>)
    requires |ssid| <= SSID_MAX_LEN && |password| <= PASSWORD_LEN
  {
    [ FlashWrite(NVS.offset, MagicFor(false)),
      FlashWrite(NVS.offset + SSID_LEN_AT, [|ssid|]),
      FlashWrite(NVS.offset + SSID_AT, ssid),
      FlashWrite(NVS.offset + PASSWORD_LEN_AT, [|password|]),
      FlashWrite(NVS.offset + PASSWORD_AT, password),
      FlashWrite(NVS.offset, MagicFor(true)) ]
  }

  ghost predicate AllFit(m: seq<byte>, ws: seq<FlashWrite>) {
    forall i :: 0 <= i < |ws| ==> Fits(m, ws[i].offset, ws[i].data)
  }

  /** The flash after a sequence of writes. */
  function After(m: seq<byte>, ws: seq<FlashWrite>): (t: seq<byte>)
    requires AllFit(m, ws)
    ensures |t| == |m|
    decreases |ws|
  {
    if ws == [] then m else After(Written(m, ws[0].offset, ws[0].data), ws[1..])
  }

  /** An interrupted write; `bytewise` if the chip overwrites bytes without erasing their sector first. */
  ghost predicate Interrupted(m: seq<byte>, w: FlashWrite, t: seq<byte>, bytewise: bool)
    requires Fits(m, w.offset, w.data)
  {
    exists p: nat, erased: bool :: TornAt(m, t, w.offset, w.data, p, erased) && (bytewise ==> !erased)
  }

  lemma InterruptedIsTorn(m: seq<byte>, w: FlashWrite, t: seq<byte>)
    requires Fits(m, w.offset, w.data)
    ensures Torn(m, t, w.offset, w.data) <==> Interrupted(m, w, t, false)
  {
  }

  /** What a power cut anywhere in a sequence of writes can leave. */
  ghost predicate Cut(m: seq<byte>, ws: seq<FlashWrite>, t: seq<byte>, bytewise: bool)
    requires AllFit(m, ws)
    decreases |ws|
  {
    if ws == [] then t == m
    else Interrupted(m, ws[0], t, bytewise) || Cut(Written(m, ws[0].offset, ws[0].data), ws[1..], t, bytewise)
  }

  ghost predicate MagicCleared(m: seq<byte>)
    requires |m| >= LAYOUT_END
  {
    m[NVS.offset] == 0 && m[NVS.offset + 3] == 0
  }

  lemma CutWhileClearing(m: seq<byte>, t: seq<byte>)
    requires |m| >= LAYOUT_END && Interrupted(m, FlashWrite(NVS.offset, MagicFor(false)), t, false)
    ensures |t| == |m|
    ensures t == m || !IsValid(t)
  {
    var p: nat, erased: bool :| TornAt(m, t, NVS.offset, MagicFor(false), p, erased);
    var b := NVS.offset;
    assert t[b] == TornByte(m, b, MagicFor(false), p, erased, b);
    assert Written(m, b, MagicFor(false))[b..b + 4][0] == Written(m, b, MagicFor(false))[b] == 0;
    if p > b || erased {
      MagicByteWrong(t);
    } else {
      assert forall i :: 0 <= i < |m| ==> t[i] == TornByte(m, b, MagicFor(false), p, erased, i) == m[i];
      assert t == m;
    }
  }

  /** A cut while a field is written leaves the magic cleared or erased. */
  lemma CutInField(m: seq<byte>, t: seq<byte>, at: nat, data: seq<byte>)
    requires |m| >= LAYOUT_END && MagicCleared(m)
    requires at >= 4 && at + |data| <= SECTOR_SIZE
    requires Interrupted(m, FlashWrite(NVS.offset + at, data), t, false)
    ensures |t| == |m| && !IsValid(t)
  {
    var p: nat, erased: bool :| TornAt(m, t, NVS.offset + at, data, p, erased);
    assert t[NVS.offset] == TornByte(m, NVS.offset + at, data, p, erased, NVS.offset);
    MagicByteWrong(t);
  }

  /** The fields as the save leaves them. */
  ghost predicate HasFields(m: seq<byte>, ssid: seq<byte>, password: seq<byte>)
    requires |m| >= LAYOUT_END && |ssid| <= SSID_MAX_LEN && |password| <= PASSWORD_LEN
  {
    && m[NVS.offset + SSID_LEN_AT] == |ssid| && m[NVS.offset + PASSWORD_LEN_AT] == |password|
    && Field(m, SSID_AT, |ssid|) == ssid && Field(m, PASSWORD_AT, |password|) == password
  }

  /** Valid fields are loaded. */
  lemma LoadFields(f: seq<byte>, ssid: seq<byte>, password: seq<byte>)
    requires |f| >= LAYOUT_END && |ssid| <= SSID_MAX_LEN && |password| <= PASSWORD_LEN
    requires HasFields(f, ssid, password) && IsUtf8(ssid) && IsUtf8(password) && IsValid(f)
    ensures Load(f) == Loaded(ssid, password)
  {
    hide IsUtf8, IsValid;
  }

  lemma ErasedEndIsNoString(t: seq<byte>, at: u32, len: nat)
    requires |t| >= LAYOUT_END && at as int + len <= NVS.size && len > 0
    requires t[NVS.offset + at + len - 1] == ERASED
    ensures !IsUtf8(Field(t, at, len))
  {
    NoErasedByte(Field(t, at, len), len - 1);
  }

  /** The end of the credentials in flash. */
  function FieldsEnd(password: seq<byte>): nat {
    NVS.offset + PASSWORD_AT + |password|
  }

  /** A length or the end of a string still erased: what is stored does not parse. */
  lemma ErasedDoesNotParse(m: seq<byte>, t: seq<byte>, ssid: seq<byte>, password: seq<byte>, p: nat)
    requires |m| >= LAYOUT_END && |ssid| <= SSID_MAX_LEN && |password| <= PASSWORD_LEN && |t| == |m|
    requires HasFields(m, ssid, password) && IsValid(t)
    requires NVS.offset + 4 <= p < FieldsEnd(password)
    requires forall i :: NVS.offset + 4 <= i < NVS.offset + SECTOR_SIZE ==> t[i] == if i < p then m[i] else ERASED
    ensures Load(t) == ParseCredentials
  {
    hide IsUtf8, IsValid;
    var b := NVS.offset;
    if p <= b + SSID_LEN_AT {
      assert t[b + SSID_LEN_AT] == ERASED;
    } else if p < b + SSID_AT + |ssid| {
      assert t[b + SSID_LEN_AT] == |ssid|;
      ErasedEndIsNoString(t, SSID_AT, |ssid|);
    } else if p <= b + PASSWORD_LEN_AT {
      assert t[b + PASSWORD_LEN_AT] == ERASED;
    } else {
      assert t[b + PASSWORD_LEN_AT] == |password|;
      ErasedEndIsNoString(t, PASSWORD_AT, |password|);
    }
  }

  /**
   What exactly loads after a cut in the last write, by where it fell: nothing while the magic
   is incomplete; then the new pair, unless the sector was erased and the credentials are not
   yet all back.
   */
  lemma LastWriteCut(m: seq<byte>, t: seq<byte>, ssid: seq<byte>, password: seq<byte>, p: nat, erased: bool)
    requires |m| >= LAYOUT_END && |ssid| <= SSID_MAX_LEN && |password| <= PASSWORD_LEN
    requires MagicCleared(m) && HasFields(Written(m, NVS.offset, MagicFor(true)), ssid, password)
    requires IsUtf8(ssid) && IsUtf8(password)
    requires TornAt(m, t, NVS.offset, MagicFor(true), p, erased)
    ensures |t| == |m|
    ensures Load(t) == if p < NVS.offset + 4 then MissingCredentials
                       else if erased && p < FieldsEnd(password) then ParseCredentials
                       else Loaded(ssid, password)
  {
    hide IsUtf8, IsValid, HasFields, Load, Written;
    var (b, f) := (NVS.offset, Written(m, NVS.offset, MagicFor(true)));
    assert forall i :: 0 <= i < |m| ==> t[i] == TornByte(m, b, MagicFor(true), p, erased, i);
    InvalidIsMissing(t);
    if p < b + 4 {
      assert t[b + 3] == TornByte(m, b, MagicFor(true), p, erased, b + 3);
      MagicByteWrong(t);
    } else {
      SameMagic(f, t);
      MagicIsReadBack(m, true);
      if erased && p < FieldsEnd(password) {
        ErasedDoesNotParse(f, t, ssid, password, p);
      } else {
        SameFields(f, t, ssid, password);
        LoadFields(t, ssid, password);
      }
    }
  }

  lemma SameMagic(f: seq<byte>, t: seq<byte>)
    requires |f| == |t| >= LAYOUT_END
    requires forall i :: NVS.offset <= i < NVS.offset + 4 ==> t[i] == f[i]
    ensures IsValid(t) == IsValid(f)
  {
    assert MagicBytes(t) == MagicBytes(f);
  }

  lemma SameFields(f: seq<byte>, t: seq<byte>, ssid: seq<byte>, password: seq<byte>)
    requires |f| == |t| >= LAYOUT_END && |ssid| <= SSID_MAX_LEN && |password| <= PASSWORD_LEN
    requires HasFields(f, ssid, password)
    requires forall i :: NVS.offset + 4 <= i < FieldsEnd(password) ==> t[i] == f[i]
    ensures HasFields(t, ssid, password)
  {
    assert Field(t, SSID_AT, |ssid|) == Field(f, SSID_AT, |ssid|);
    assert Field(t, PASSWORD_AT, |password|) == Field(f, PASSWORD_AT, |password|);
  }

  // ---- The save sequence ----

  lemma FieldsAfterSave(m: seq<byte>, ssid: seq<byte>, password: seq<byte>,
                        m1: seq<byte>, m2: seq<byte>, m3: seq<byte>, m4: seq<byte>, m5: seq<byte>)
    requires |m| >= LAYOUT_END && |ssid| <= SSID_MAX_LEN && |password| <= PASSWORD_LEN
    requires m1 == Written(m, NVS.offset, MagicFor(false))
    requires m2 == Written(m1, NVS.offset + SSID_LEN_AT, [|ssid|])
    requires m3 == Written(m2, NVS.offset + SSID_AT, ssid)
    requires m4 == Written(m3, NVS.offset + PASSWORD_LEN_AT, [|password|])
    requires m5 == Written(m4, NVS.offset + PASSWORD_AT, password)
    ensures MagicCleared(m1) && MagicCleared(m2) && MagicCleared(m3) && MagicCleared(m4) && MagicCleared(m5)
    ensures HasFields(m5, ssid, password)
    ensures HasFields(Written(m5, NVS.offset, MagicFor(true)), ssid, password)
  {
    hide Written;
    var b := NVS.offset;
    assert m1[b..b + 4][0] == 0 && m1[b..b + 4][3] == 0;
    assert m2[b + SSID_LEN_AT..b + SSID_LEN_AT + 1][0] == |ssid|;
    assert m4[b + PASSWORD_LEN_AT..b + PASSWORD_LEN_AT + 1][0] == |password|;
    assert Field(m5, SSID_AT, |ssid|) == Field(m3, SSID_AT, |ssid|) == ssid;
    assert Field(m5, PASSWORD_AT, |password|) == password;
    var f := Written(m5, b, MagicFor(true));
    assert Field(f, SSID_AT, |ssid|) == ssid && Field(f, PASSWORD_AT, |password|) == password;
  }

  /** Saving and then loading is the identity. */
  lemma SaveThenLoad(m: seq<byte>, ssid: seq<byte>, password: seq<byte>)
    requires |m| >= LAYOUT_END && |ssid| <= SSID_MAX_LEN && |password| <= PASSWORD_LEN
    requires IsUtf8(ssid) && IsUtf8(password)
    ensures AllFit(m, SaveWrites(ssid, password))
    ensures Load(After(m, SaveWrites(ssid, password))) == Loaded(ssid, password)
  {
    hide Written, IsUtf8;
    var m1, m2, m3, m4, m5 := SaveStages(m, ssid, password, m, true);
    MagicIsReadBack(m5, true);
    LoadFields(Written(m5, NVS.offset, MagicFor(true)), ssid, password);
  }

  /** What a complete save leaves: the magic, the lengths and the strings, and every other byte as it was. */
  lemma SavedBytes(m: seq<byte>, ssid: seq<byte>, password: seq<byte>)
    requires |m| >= LAYOUT_END && |ssid| <= SSID_MAX_LEN && |password| <= PASSWORD_LEN
    ensures AllFit(m, SaveWrites(ssid, password))
    ensures
      var t := After(m, SaveWrites(ssid, password));
      forall i :: 0 <= i < |m| ==>
        t[i] == if 0x9000 <= i < 0x9004 then [0xEF, 0xBE, 0xAD, 0xDE][i - 0x9000]
                else if i == 0x9004 then |ssid|
                else if 0x9005 <= i < 0x9005 + |ssid| then ssid[i - 0x9005]
                else if i == 0x9025 then |password|
                else if 0x9026 <= i < 0x9026 + |password| then password[i - 0x9026]
                else m[i]
  {
    hide Written, Cut, After;
    var ws := SaveWrites(ssid, password);
    var m1, m2, m3, m4, m5 := SaveStages(m, ssid, password, m, true);
    assert ToLe(MAGIC) == [0xEF, 0xBE, 0xAD, 0xDE];
    forall i | 0 <= i < |m|
      ensures After(m, ws)[i] ==
              if 0x9000 <= i < 0x9004 then [0xEF, 0xBE, 0xAD, 0xDE][i - 0x9000]
              else if i == 0x9004 then |ssid|
              else if 0x9005 <= i < 0x9005 + |ssid| then ssid[i - 0x9005]
              else if i == 0x9025 then |password|
              else if 0x9026 <= i < 0x9026 + |password| then password[i - 0x9026]
              else m[i]
    {
      WrittenAt(m, ws[0].offset, ws[0].data, i);
      WrittenAt(m1, ws[1].offset, ws[1].data, i);
      WrittenAt(m2, ws[2].offset, ws[2].data, i);
      WrittenAt(m3, ws[3].offset, ws[3].data, i);
      WrittenAt(m4, ws[4].offset, ws[4].data, i);
      WrittenAt(m5, ws[5].offset, ws[5].data, i);
    }
  }

  /** The states between the writes of a save, and where a cut can fall among them. */
  lemma SaveStages(m: seq<byte>, ssid: seq<byte>, password: seq<byte>, t: seq<byte>, bytewise: bool)
    returns (m1: seq<byte>, m2: seq<byte>, m3: seq<byte>, m4: seq<byte>, m5: seq<byte>)
    requires |m| >= LAYOUT_END && |ssid| <= SSID_MAX_LEN && |password| <= PASSWORD_LEN
    ensures AllFit(m, SaveWrites(ssid, password))
    ensures |m1| == |m2| == |m3| == |m4| == |m5| == |m|
    ensures MagicCleared(m1) && MagicCleared(m2) && MagicCleared(m3) && MagicCleared(m4) && MagicCleared(m5)
    ensures HasFields(Written(m5, NVS.offset, MagicFor(true)), ssid, password)
    ensures After(m, SaveWrites(ssid, password)) == Written(m5, NVS.offset, MagicFor(true))
    ensures
      var ws := SaveWrites(ssid, password);
      && m1 == Written(m, ws[0].offset, ws[0].data) && m2 == Written(m1, ws[1].offset, ws[1].data)
      && m3 == Written(m2, ws[2].offset, ws[2].data) && m4 == Written(m3, ws[3].offset, ws[3].data)
      && m5 == Written(m4, ws[4].offset, ws[4].data)
    ensures
      var ws := SaveWrites(ssid, password);
      AllFit(m, ws[..5]) && m5 == After(m, ws[..5])
    ensures
      var ws := SaveWrites(ssid, password);
      Cut(m, ws, t, bytewise) <==>
      || Interrupted(m, ws[0], t, bytewise)
      || Interrupted(m1, ws[1], t, bytewise)
      || Interrupted(m2, ws[2], t, bytewise)
      || Interrupted(m3, ws[3], t, bytewise)
      || Interrupted(m4, ws[4], t, bytewise)
      || Interrupted(m5, ws[5], t, bytewise)
      || t == Written(m5, NVS.offset, MagicFor(true))
  {
    hide Written, Interrupted, Cut, After;
    var ws := SaveWrites(ssid, password);
    m1 := Written(m, ws[0].offset, ws[0].data);
    m2 := Written(m1, ws[1].offset, ws[1].data);
    m3 := Written(m2, ws[2].offset, ws[2].data);
    m4 := Written(m3, ws[3].offset, ws[3].data);
    m5 := Written(m4, ws[4].offset, ws[4].data);
    FieldsAfterSave(m, ssid, password, m1, m2, m3, m4, m5);
    FirstWrite(m, ws, 0, t, bytewise);
    FirstWrite(m1, ws, 1, t, bytewise);
    FirstWrite(m2, ws, 2, t, bytewise);
    FirstWrite(m3, ws, 3, t, bytewise);
    FirstWrite(m4, ws, 4, t, bytewise);
    FirstWrite(m5, ws, 5, t, bytewise);
    NoWrites(Written(m5, ws[5].offset, ws[5].data), t, bytewise);
    assert ws[0..] == ws && ws[6..] == [];
    AfterFive(m, ws, m1, m2, m3, m4, m5);
  }

  lemma AfterFive(m: seq<byte>, ws: seq<FlashWrite>, m1: seq<byte>, m2: seq<byte>, m3: seq<byte>, m4: seq<byte>,
      m5: seq<byte>)
    requires |ws| == 6 && AllFit(m, ws) && |m1| == |m2| == |m3| == |m4| == |m|
    requires m1 == Written(m, ws[0].offset, ws[0].data) && m2 == Written(m1, ws[1].offset, ws[1].data)
    requires m3 == Written(m2, ws[2].offset, ws[2].data) && m4 == Written(m3, ws[3].offset, ws[3].data)
    requires m5 == Written(m4, ws[4].offset, ws[4].data)
    ensures AllFit(m, ws[..5]) && m5 == After(m, ws[..5])
  {
    hide Written, After, AllFit;
    NoWrites(m, m, false);
    assert ws[..0] == [];
    AfterMore(m, ws, 0);
    assert After(m, ws[..1]) == m1;
    AfterMore(m, ws, 1);
    assert After(m, ws[..2]) == m2;
    AfterMore(m, ws, 2);
    assert After(m, ws[..3]) == m3;
    AfterMore(m, ws, 3);
    assert After(m, ws[..4]) == m4;
    AfterMore(m, ws, 4);
  }

  /** From the `k`th write of a sequence on. */
  lemma FirstWrite(m: seq<byte>, ws: seq<FlashWrite>, k: nat, t: seq<byte>, bytewise: bool)
    requires k < |ws| && AllFit(m, ws)
    ensures
      var n := Written(m, ws[k].offset, ws[k].data);
      && AllFit(m, ws[k..]) && AllFit(n, ws[k + 1..])
      && (Cut(m, ws[k..], t, bytewise) <==> Interrupted(m, ws[k], t, bytewise) || Cut(n, ws[k + 1..], t, bytewise))
      && After(m, ws[k..]) == After(n, ws[k + 1..])
  {
    hide Written, Interrupted;
    assert ws[k..][0] == ws[k] && ws[k..][1..] == ws[k + 1..];
  }

  lemma NoWrites(m: seq<byte>, t: seq<byte>, bytewise: bool)
    ensures AllFit(m, [])
    ensures Cut(m, [], t, bytewise) <==> t == m
    ensures After(m, []) == m
  {
  }

  /** The last write of a save was cut with its sector erased, before the credentials were all back. */
  ghost predicate CutBeforeFieldsBack(m: seq<byte>, ssid: seq<byte>, password: seq<byte>, t: seq<byte>)
    requires |m| >= LAYOUT_END && |ssid| <= SSID_MAX_LEN && |password| <= PASSWORD_LEN
  {
    var ws := SaveWrites(ssid, password);
    && AllFit(m, ws[..5])
    && var last := After(m, ws[..5]);
    exists p: nat :: NVS.offset + 4 <= p < FieldsEnd(password) && TornAt(last, t, ws[5].offset, ws[5].data, p, true)
  }

  /**
   Crash consistency: after a power cut anywhere in a save, whatever flash held before, the
   flash is untouched, or its magic is invalid, or loading yields the complete new pair; the one
   exception are credentials that do not parse, and they are left exactly by a cut in the last
   write that finds its sector erased and the credentials not yet all back.  A mix of old and
   new never loads, and a chip that overwrites bytes without erasing leaves no exception.
   */
  lemma SaveIsAtomic(m: seq<byte>, ssid: seq<byte>, password: seq<byte>, t: seq<byte>, bytewise: bool)
    requires |m| >= LAYOUT_END && |ssid| <= SSID_MAX_LEN && |password| <= PASSWORD_LEN
    requires IsUtf8(ssid) && IsUtf8(password)
    requires AllFit(m, SaveWrites(ssid, password)) && Cut(m, SaveWrites(ssid, password), t, bytewise)
    ensures |t| == |m|
    ensures t == m || Load(t) == MissingCredentials || Load(t) == Loaded(ssid, password) || Load(t) == ParseCredentials
    ensures t != m ==> (Load(t) == ParseCredentials <==> CutBeforeFieldsBack(m, ssid, password, t))
    ensures t != m && bytewise ==> Load(t) != ParseCredentials
  {
    hide Written, IsUtf8, Load, HasFields, MagicCleared, TornAt;
    var m1, m2, m3, m4, m5 := SaveStages(m, ssid, password, t, bytewise);
    var ws := SaveWrites(ssid, password);
    LastCutsClassified(m5, ssid, password, t);
    if Interrupted(m, ws[0], t, bytewise) {
      CutWhileClearing(m, t);
      InvalidIsMissing(t);
    } else if Interrupted(m1, ws[1], t, bytewise) {
      CutInField(m1, t, SSID_LEN_AT, ws[1].data);
      InvalidIsMissing(t);
    } else if Interrupted(m2, ws[2], t, bytewise) {
      CutInField(m2, t, SSID_AT, ws[2].data);
      InvalidIsMissing(t);
    } else if Interrupted(m3, ws[3], t, bytewise) {
      CutInField(m3, t, PASSWORD_LEN_AT, ws[3].data);
      InvalidIsMissing(t);
    } else if Interrupted(m4, ws[4], t, bytewise) {
      CutInField(m4, t, PASSWORD_AT, ws[4].data);
      InvalidIsMissing(t);
    } else if t == Written(m5, NVS.offset, MagicFor(true)) {
      SaveThenLoad(m, ssid, password);
    }
  }

  /** Every cut of the last write of a save. */
  lemma LastCutsClassified(m: seq<byte>, ssid: seq<byte>, password: seq<byte>, t: seq<byte>)
    requires |m| >= LAYOUT_END && |ssid| <= SSID_MAX_LEN && |password| <= PASSWORD_LEN
    requires MagicCleared(m) && HasFields(Written(m, NVS.offset, MagicFor(true)), ssid, password)
    requires IsUtf8(ssid) && IsUtf8(password)
    ensures forall p: nat, erased: bool :: TornAt(m, t, NVS.offset, MagicFor(true), p, erased) ==>
              && |t| == |m|
              && Load(t) == if p < NVS.offset + 4 then MissingCredentials
                            else if erased && p < FieldsEnd(password) then ParseCredentials
                            else Loaded(ssid, password)
  {
    hide IsUtf8, Load, HasFields, MagicCleared, TornAt, Written;
    forall p: nat, erased: bool | TornAt(m, t, NVS.offset, MagicFor(true), p, erased)
      ensures |t| == |m|
      ensures Load(t) == if p < NVS.offset + 4 then MissingCredentials
                         else if erased && p < FieldsEnd(password) then ParseCredentials
                         else Loaded(ssid, password)
    {
      LastWriteCut(m, t, ssid, password, p, erased);
    }
  }

  /** The exception is real: from any flash, a save of any credentials can be cut so that none parse. */
  lemma SaveCanGarble(m: seq<byte>, ssid: seq<byte>, password: seq<byte>) returns (t: seq<byte>)
    requires |m| >= LAYOUT_END && |ssid| <= SSID_MAX_LEN && |password| <= PASSWORD_LEN
    requires IsUtf8(ssid) && IsUtf8(password)
    ensures AllFit(m, SaveWrites(ssid, password)) && Cut(m, SaveWrites(ssid, password), t, false)
    ensures |t| == |m| && IsValid(t) && Load(t) == ParseCredentials
  {
    hide Written, IsUtf8, Load, HasFields, MagicCleared, Cut, TornAt, IsValid;
    var _, _, _, _, m5 := SaveStages(m, ssid, password, m, false);
    t := ErasedAfterMagic(m5);
    var _, _, _, _, n5 := SaveStages(m, ssid, password, t, false);
    LastWriteCut(m5, t, ssid, password, NVS.offset + 4, true);
    InvalidIsMissing(t);
    assert Interrupted(n5, SaveWrites(ssid, password)[5], t, false);
  }

  lemma ErasedAfterMagic(m: seq<byte>) returns (t: seq<byte>)
    requires |m| >= LAYOUT_END
    ensures TornAt(m, t, NVS.offset, MagicFor(true), NVS.offset + 4, true)
  {
    t := seq(|m|, i requires 0 <= i < |m| => TornByte(m, NVS.offset, MagicFor(true), NVS.offset + 4, true, i));
  }

  lemma InvalidIsMissing(t: seq<byte>)
    requires |t| >= LAYOUT_END
    ensures !IsValid(t) <==> Load(t) == MissingCredentials
  {
  }

  // ---- The program ----

  lemma {:induction false} AfterMore(m: seq<byte>, ws: seq<FlashWrite>, k: nat)
    requires k < |ws| && AllFit(m, ws)
    ensures AllFit(m, ws[..k]) && AllFit(m, ws[..k + 1])
    ensures After(m, ws[..k + 1]) == Written(After(m, ws[..k]), ws[k].offset, ws[k].data)
    decreases k
  {
    hide Written;
    if k == 0 {
      assert ws[..1][0] == ws[0] && ws[..1][1..] == [] && ws[..0] == [];
    } else {
      var n := Written(m, ws[0].offset, ws[0].data);
      AfterMore(n, ws[1..], k - 1);
      assert ws[..k + 1][1..] == ws[1..][..k] && ws[..k][1..] == ws[1..][..k - 1];
      assert ws[..k + 1][0] == ws[0] && ws[..k][0] == ws[0] && ws[1..][k - 1] == ws[k];
    }
  }

  lemma {:induction false} CutAtWrite(m: seq<byte>, ws: seq<FlashWrite>, k: nat, t: seq<byte>)
    requires k < |ws| && AllFit(m, ws)
    requires AllFit(m, ws[..k]) && Interrupted(After(m, ws[..k]), ws[k], t, false)
    ensures Cut(m, ws, t, false)
    decreases k
  {
    hide Written, Interrupted;
    if k == 0 {
      assert ws[..0] == [];
    } else {
      var n := Written(m, ws[0].offset, ws[0].data);
      assert ws[..k][1..] == ws[1..][..k - 1] && ws[..k][0] == ws[0] && ws[1..][k - 1] == ws[k];
      CutAtWrite(n, ws[1..], k - 1, t);
    }
  }

  datatype SaveResult = Saved | TooLong | SaveFailed(error: NvsError)

  /** Stores credentials built into the program. */
  method SaveCredentials(nvs: Nvs, ssid: seq<byte>, password: seq<byte>) returns (r: SaveResult)
    requires nvs.Valid()
    modifies nvs.flash.cells
    ensures r == TooLong <==> |ssid| > 32 || |password| > 64
    ensures r == TooLong ==> nvs.flash.cells[..] == old(nvs.flash.cells[..])
    ensures r == Saved ==>
              && AllFit(old(nvs.flash.cells[..]), SaveWrites(ssid, password))
              && nvs.flash.cells[..] == After(old(nvs.flash.cells[..]), SaveWrites(ssid, password))
    ensures r.SaveFailed? ==>
              && AllFit(old(nvs.flash.cells[..]), SaveWrites(ssid, password))
              && Cut(old(nvs.flash.cells[..]), SaveWrites(ssid, password), nvs.flash.cells[..], false)
              && r.error == Storage(IoError) && !nvs.flash.reliable
  {
    hide Written, After, Cut, Interrupted, Torn;
    if |ssid| > SSID_MAX_LEN || |password| > PASSWORD_LEN {
      return TooLong;
    }
    ghost var m, ws := nvs.flash.cells[..], SaveWrites(ssid, password);
    NoWrites(m, m, false);
    assert ws[..0] == [] && ws[..6] == ws && AllFit(m, ws);

    AfterMore(m, ws, 0);
    var w := nvs.SetValid(false);
    if w.Failed? {
      InterruptedIsTorn(m, ws[0], nvs.flash.cells[..]);
      CutAtWrite(m, ws, 0, nvs.flash.cells[..]);
      return SaveFailed(w.error);
    }
    r := SaveField(nvs, m, ws, 1, SSID_LEN_AT, [|ssid|]);
    if r != Saved {
      return;
    }
    r := SaveField(nvs, m, ws, 2, SSID_AT, ssid);
    if r != Saved {
      return;
    }
    r := SaveField(nvs, m, ws, 3, PASSWORD_LEN_AT, [|password|]);
    if r != Saved {
      return;
    }
    r := SaveField(nvs, m, ws, 4, PASSWORD_AT, password);
    if r != Saved {
      return;
    }
    AfterMore(m, ws, 5);
    ghost var m5 := nvs.flash.cells[..];
    w := nvs.SetValid(true);
    if w.Failed? {
      InterruptedIsTorn(m5, ws[5], nvs.flash.cells[..]);
      CutAtWrite(m, ws, 5, nvs.flash.cells[..]);
      return SaveFailed(w.error);
    }
    return Saved;
  }

  /** One field of the save, the `k`th of its writes. */
  method SaveField(nvs: Nvs, ghost m: seq<byte>, ghost ws: seq<FlashWrite>, ghost k: nat, at: u32, data: seq<byte>)
    returns (r: SaveResult)
    requires nvs.Valid() && MIN_OFFSET as int <= at as int && at as int + |data| <= NVS.size
    requires |m| == nvs.flash.cells.Length && k < |ws| && AllFit(m, ws) && AllFit(m, ws[..k])
    requires ws[k] == FlashWrite(NVS.offset + at, data) && nvs.flash.cells[..] == After(m, ws[..k])
    modifies nvs.flash.cells
    ensures r == Saved || r.SaveFailed?
    ensures r == Saved ==> AllFit(m, ws[..k + 1]) && nvs.flash.cells[..] == After(m, ws[..k + 1])
    ensures r.SaveFailed? ==> Cut(m, ws, nvs.flash.cells[..], false)
    ensures r.SaveFailed? ==> r.error == Storage(IoError) && !nvs.flash.reliable
  {
    hide Written, After, Cut, Interrupted, Torn;
    ValidOffsetExact(at, |data|);
    AfterMore(m, ws, k);
    ghost var before := nvs.flash.cells[..];
    var w := nvs.Write(at, data);
    if w.Failed? {
      InterruptedIsTorn(before, ws[k], nvs.flash.cells[..]);
      CutAtWrite(m, ws, k, nvs.flash.cells[..]);
      return SaveFailed(w.error);
    }
    return Saved;
  }

  datatype LoadOutcome = Got(result: LoadResult) | LoadFailed(error: NvsError)

  /** The store holds lengths that fit, but not two strings. */
  predicate Garbled(m: seq<byte>)
    requires |m| >= LAYOUT_END
  {
    && IsValid(m)
    && m[NVS.offset + SSID_LEN_AT] <= SSID_MAX_LEN && m[NVS.offset + PASSWORD_LEN_AT] <= PASSWORD_LEN
    && Load(m) == ParseCredentials
  }

  /** The string at `at`, whose length is kept at `lenAt`; none if it is too long. */
  function StoredString(m: seq<byte>, lenAt: u32, at: u32, max: nat): Option<seq<byte>>
    requires |m| >= LAYOUT_END && lenAt < NVS.size && at as int + max <= NVS.size
  {
    var n := m[NVS.offset + lenAt];
    if n > max then None else Some(Field(m, at, n))
  }

  lemma LoadFromStrings(m: seq<byte>)
    requires |m| >= LAYOUT_END
    ensures
      var (ssid, password) := (StoredString(m, SSID_LEN_AT, SSID_AT, SSID_MAX_LEN),
                               StoredString(m, PASSWORD_LEN_AT, PASSWORD_AT, PASSWORD_LEN));
      && Load(m) == (if !IsValid(m) then MissingCredentials
                     else if ssid.None? || password.None? || !IsUtf8(ssid.value) || !IsUtf8(password.value)
                         then ParseCredentials
                     else Loaded(ssid.value, password.value))
      && (Garbled(m) <==> IsValid(m) && ssid.Some? && password.Some? && Load(m) == ParseCredentials)
  {
    hide IsUtf8, IsValid;
  }

  /** Reads a length and then as many bytes, unless they do not fit. */
  method LoadString(nvs: Nvs, lenAt: u32, at: u32, max: nat) returns (r: NvsResult<Option<seq<byte>>>)
    requires nvs.Valid() && MIN_OFFSET <= lenAt && lenAt < NVS.size && MIN_OFFSET <= at && at as int + max <= NVS.size
    ensures r.Done? ==> r.value == StoredString(nvs.flash.cells[..], lenAt, at, max)
    ensures r.Failed? ==> r.error == Storage(IoError) && !nvs.flash.reliable
  {
    hide ValidOffset;
    ValidOffsetExact(lenAt, 1);
    var n := nvs.Read(lenAt, 1);
    if n.Failed? {
      return Failed(n.error);
    }
    if n.value[0] > max {
      return Done(None);
    }
    ValidOffsetExact(at, n.value[0]);
    var s := nvs.Read(at, n.value[0]);
    if s.Failed? {
      return Failed(s.error);
    }
    return Done(Some(s.value));
  }

  /** Loads stored credentials; a store that does not hold two strings is marked invalid. */
  method LoadCredentials(nvs: Nvs) returns (r: LoadOutcome)
    requires nvs.Valid()
    modifies nvs.flash.cells
    ensures r.Got? ==> r.result == Load(old(nvs.flash.cells[..]))
    ensures r.Got? ==>
              nvs.flash.cells[..] ==
              if Garbled(old(nvs.flash.cells[..])) then Written(old(nvs.flash.cells[..]), NVS.offset, MagicFor(false))
              else old(nvs.flash.cells[..])
    ensures r.LoadFailed? ==>
              || nvs.flash.cells[..] == old(nvs.flash.cells[..])
              || Torn(old(nvs.flash.cells[..]), nvs.flash.cells[..], NVS.offset, MagicFor(false))
    ensures r.LoadFailed? ==> r.error == Storage(IoError) && !nvs.flash.reliable
  {
    hide Written, Torn, IsUtf8, IsValid, Load, Garbled, StoredString;
    LoadFromStrings(nvs.flash.cells[..]);
    var v := nvs.IsValidMagic();
    if v.Failed? {
      return LoadFailed(v.error);
    }
    if !v.value {
      return Got(MissingCredentials);
    }
    var ssid := LoadString(nvs, SSID_LEN_AT, SSID_AT, SSID_MAX_LEN);
    if ssid.Failed? {
      return LoadFailed(ssid.error);
    }
    if ssid.value.None? {
      return Got(ParseCredentials);
    }
    var password := LoadString(nvs, PASSWORD_LEN_AT, PASSWORD_AT, PASSWORD_LEN);
    if password.Failed? {
      return LoadFailed(password.error);
    }
    if password.value.None? {
      return Got(ParseCredentials);
    }
    if !IsUtf8(ssid.value.value) || !IsUtf8(password.value.value) {
      var w := nvs.SetValid(false);
      if w.Failed? {
        return LoadFailed(w.error);
      }
      return Got(ParseCredentials);
    }
    return Got(Loaded(ssid.value.value, password.value.value));
  }
}
