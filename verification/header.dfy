/**
  The package header at the start of the index file. The header region is
  648 bytes long, but its fields, read one after another from offset 0,
  occupy only the first 604.
 */
module Header {
  import opened Wrappers
  import opened Binary
  import Password

  /** Length of the header region; record segments begin after it. */
  const HeaderLength := 648

  /** Bytes the header's field reads consume, from offset 0. */
  const HeaderReadLength := 604

  datatype IndexHeader = IndexHeader(
    version: Text,
    revision: Int32,
    folderTitle: Text,
    firstItemIndex: Int32,
    lastBackupDate: OleDate,
    lastEditDate: OleDate,
    periodEndDate: OleDate,
    longPackName: Text,
    packDir: Text,
    packVersion: Text,
    passwordKey: seq<Int16>,
    password: seq<Int16>,
    decryptedPassword: Text,
    abkFriendlyName: Text)

  /** Key slot i: the int16 at byte 544 + 2i. */
  function KeySlot(buf: seq<Byte>, i: nat): Int16
    requires i < Password.Slots && |buf| >= HeaderReadLength
  {
    Int16Le(buf[544 + 2 * i..546 + 2 * i])
  }

  /** Password slot i: the int16 in the low half of the four bytes at 564 + 4i. */
  function PasswordSlot(buf: seq<Byte>, i: nat): Int16
    requires i < Password.Slots && |buf| >= HeaderReadLength
  {
    Int16Le(buf[564 + 4 * i..566 + 4 * i])
  }

  /** Some password slot is in use while its key slot is zero. */
  predicate ZeroKeyInUse(buf: seq<Byte>)
    requires |buf| >= HeaderReadLength
  {
    exists i :: 0 <= i < Password.Slots && PasswordSlot(buf, i) != 0 && KeySlot(buf, i) == 0
  }

  /** The header layout: where in the buffer each field of h comes from. */
  ghost predicate LaidOutAt(buf: seq<Byte>, h: IndexHeader)
    requires |buf| >= HeaderReadLength
  {
    && h.version == DecodeText(buf[0..12])
    && h.revision == Int32Le(buf[12..16])
    && h.folderTitle == DecodeText(buf[16..180])
    && h.firstItemIndex == Int32Le(buf[180..184])
    && h.lastBackupDate == OleDate(buf[184..192])
    && h.lastEditDate == OleDate(buf[192..200])
    && h.periodEndDate == OleDate(buf[200..208])
    && h.longPackName == DecodeText(buf[208..370])
    && h.packDir == DecodeText(buf[370..532])
    && h.packVersion == DecodeText(buf[532..544])
    && |h.passwordKey| == Password.Slots
    && (forall i :: 0 <= i < Password.Slots ==> h.passwordKey[i] == KeySlot(buf, i))
    && |h.password| == Password.Slots
    && (forall i :: 0 <= i < Password.Slots ==> h.password[i] == PasswordSlot(buf, i))
  }

  /**
    The field reads of GetHeader, in order from offset 0; the decrypted
    password and the friendly name are left empty.
   */
  function ReadHeaderFields(buf: seq<Byte>): (r: Result<IndexHeader>)
    ensures r.Success? <==> |buf| >= HeaderReadLength
    ensures r.Failure? ==> r.error == BufferTooShort
    ensures r.Success? ==> |buf| >= HeaderReadLength && LaidOutAt(buf, r.value)
    ensures r.Success? ==> r.value.decryptedPassword == [] && r.value.abkFriendlyName == []
  {
    var version :- ReadText(Reader(buf, 0), 12);
    var revision :- ReadInt32(version.next);
    var folderTitle :- ReadText(revision.next, 164);
    var firstItemIndex :- ReadInt32(folderTitle.next);
    var lastBackupDate :- ReadDate(firstItemIndex.next);
    var lastEditDate :- ReadDate(lastBackupDate.next);
    var periodEndDate :- ReadDate(lastEditDate.next);
    var longPackName :- ReadText(periodEndDate.next, 162);
    var packDir :- ReadText(longPackName.next, 162);
    var packVersion :- ReadText(packDir.next, 12);
    var passwordKey :- ReadInt16s(packVersion.next, Password.Slots);
    var password :- ReadNarrowedInt32s(passwordKey.next, Password.Slots);
    Success(IndexHeader(
      version.value, revision.value, folderTitle.value, firstItemIndex.value,
      lastBackupDate.value, lastEditDate.value, periodEndDate.value,
      longPackName.value, packDir.value, packVersion.value,
      passwordKey.value, password.value, [], []))
  }

  /**
    GetHeader: read the header fields, then decrypt the password. The
    friendly name is left empty; it does not come from the buffer.
   */
  function DecodeHeader(buf: seq<Byte>): (r: Result<IndexHeader>)
    ensures r == Failure(BufferTooShort) <==> |buf| < HeaderReadLength
    ensures r == Failure(InvalidDivision) <==> |buf| >= HeaderReadLength && ZeroKeyInUse(buf)
    ensures r.Failure? ==> r.error == BufferTooShort || r.error == InvalidDivision
    ensures r.Success? ==> |buf| >= HeaderReadLength && LaidOutAt(buf, r.value)
    ensures r.Success? ==> Password.Decrypt(r.value.password, r.value.passwordKey) == Success(r.value.decryptedPassword)
    ensures r.Success? ==> r.value.abkFriendlyName == []
  {
    var fields :- ReadHeaderFields(buf);
    assert ZeroKeyInUse(buf) <==> !Password.Decryptable(fields.password, fields.passwordKey);
    DecryptFields(fields)
  }

  /**
    DecodeHeader as a step of the whole decode. The method repeats
    DecodeHeader's contract so that its callers see only the contract and
    never unfold the thirty field reads behind it, which keeps their proofs
    small.
   */
  method GetHeader(buf: seq<Byte>) returns (r: Result<IndexHeader>)
    ensures r == Failure(BufferTooShort) <==> |buf| < HeaderReadLength
    ensures r == Failure(InvalidDivision) <==> |buf| >= HeaderReadLength && ZeroKeyInUse(buf)
    ensures r.Failure? ==> r.error == BufferTooShort || r.error == InvalidDivision
    ensures r.Success? ==> |buf| >= HeaderReadLength && LaidOutAt(buf, r.value)
    ensures r.Success? ==> Password.Decrypt(r.value.password, r.value.passwordKey) == Success(r.value.decryptedPassword)
    ensures r.Success? ==> r.value.abkFriendlyName == []
  {
    r := DecodeHeader(buf);
  }

  function DecryptFields(fields: IndexHeader): (r: Result<IndexHeader>)
    requires |fields.password| == |fields.passwordKey|
    ensures r.Success? <==> Password.Decryptable(fields.password, fields.passwordKey)
    ensures r.Failure? ==> r == Failure(InvalidDivision)
    ensures r.Success? ==> r.value == fields.(decryptedPassword := r.value.decryptedPassword)
    ensures r.Success? ==> Password.Decrypt(fields.password, fields.passwordKey) == Success(r.value.decryptedPassword)
  {
    var decrypted :- Password.Decrypt(fields.password, fields.passwordKey);
    Success(fields.(decryptedPassword := decrypted))
  }

  /** Bytes 566 + 4i and 567 + 4i: the upper halves of the password slots, never looked at. */
  predicate IgnoredHeaderByte(k: nat)
  {
    564 <= k < HeaderReadLength && (k - 564) % 4 >= 2
  }

  /** Two buffers that agree on every byte the header reads. */
  ghost predicate SameHeaderBytes(buf1: seq<Byte>, buf2: seq<Byte>)
  {
    && |buf1| >= HeaderReadLength && |buf2| >= HeaderReadLength
    && forall k :: 0 <= k < HeaderReadLength && !IgnoredHeaderByte(k) ==> buf1[k] == buf2[k]
  }

  lemma SameSlots(buf1: seq<Byte>, buf2: seq<Byte>, i: nat)
    requires SameHeaderBytes(buf1, buf2) && i < Password.Slots
    ensures KeySlot(buf1, i) == KeySlot(buf2, i)
    ensures PasswordSlot(buf1, i) == PasswordSlot(buf2, i)
  {
    assert !IgnoredHeaderByte(564 + 4 * i) && !IgnoredHeaderByte(565 + 4 * i);
    assert buf1[544 + 2 * i..546 + 2 * i] == buf2[544 + 2 * i..546 + 2 * i];
    assert buf1[564 + 4 * i..566 + 4 * i] == buf2[564 + 4 * i..566 + 4 * i];
  }

  /** The layout pins down every field read from the buffer. */
  lemma SameLayout(buf1: seq<Byte>, buf2: seq<Byte>, h1: IndexHeader, h2: IndexHeader)
    requires SameHeaderBytes(buf1, buf2) && LaidOutAt(buf1, h1) && LaidOutAt(buf2, h2)
    requires h1.decryptedPassword == h2.decryptedPassword && h1.abkFriendlyName == h2.abkFriendlyName
    ensures h1 == h2
  {
    forall i | 0 <= i < Password.Slots
      ensures h1.passwordKey[i] == h2.passwordKey[i] && h1.password[i] == h2.password[i]
    {
      SameSlots(buf1, buf2, i);
    }
    SameSlice(buf1, buf2, 0, 12);
    SameSlice(buf1, buf2, 12, 16);
    SameSlice(buf1, buf2, 16, 180);
    SameSlice(buf1, buf2, 180, 184);
    SameSlice(buf1, buf2, 184, 192);
    SameSlice(buf1, buf2, 192, 200);
    SameSlice(buf1, buf2, 200, 208);
    SameSlice(buf1, buf2, 208, 370);
    SameSlice(buf1, buf2, 370, 532);
    SameSlice(buf1, buf2, 532, 544);
  }

  lemma SameSlice(buf1: seq<Byte>, buf2: seq<Byte>, lo: nat, hi: nat)
    requires SameHeaderBytes(buf1, buf2) && lo <= hi <= 564
    ensures buf1[lo..hi] == buf2[lo..hi]
  {
    assert forall k :: lo <= k < hi ==> !IgnoredHeaderByte(k);
  }

  /** The field reads give the same header on buffers that agree on the bytes they read. */
  lemma FieldsReadOnlyTheirBytes(buf1: seq<Byte>, buf2: seq<Byte>)
    requires SameHeaderBytes(buf1, buf2)
    ensures ReadHeaderFields(buf1) == ReadHeaderFields(buf2)
  {
    SameLayout(buf1, buf2, ReadHeaderFields(buf1).value, ReadHeaderFields(buf2).value);
  }

  /**
    The header decode depends on bytes 0..603 only, and not even on the
    upper half of any password slot.
   */
  lemma DecodeHeaderReadsOnlyItsFields(buf1: seq<Byte>, buf2: seq<Byte>)
    requires |buf1| >= HeaderReadLength && |buf2| >= HeaderReadLength
    requires forall k :: 0 <= k < HeaderReadLength && !IgnoredHeaderByte(k) ==> buf1[k] == buf2[k]
    ensures DecodeHeader(buf1) == DecodeHeader(buf2)
  {
    FieldsReadOnlyTheirBytes(buf1, buf2);
  }

  // ---------------------------------------------------------------------
  // Writing a header

  /** h can be written in the header layout and read back unchanged. */
  predicate Encodable(h: IndexHeader)
  {
    && FitsText(h.version, 12) && FitsText(h.folderTitle, 164)
    && FitsText(h.longPackName, 162) && FitsText(h.packDir, 162) && FitsText(h.packVersion, 12)
    && |h.lastBackupDate.bits| == 8 && |h.lastEditDate.bits| == 8 && |h.periodEndDate.bits| == 8
    && |h.passwordKey| == Password.Slots && |h.password| == Password.Slots
  }

  /** int16 values, each in a field of `width` bytes: its two bytes, then zeros. */
  function PaddedInt16s(vs: seq<Int16>, width: nat): (bs: seq<Byte>)
    requires width >= 2
    ensures |bs| == width * |vs|
  {
    if vs == [] then [] else Int16Bytes(vs[0]) + seq(width - 2, _ => 0) + PaddedInt16s(vs[1..], width)
  }

  /** Value i sits in the first two bytes of field i. */
  lemma {:induction false} PaddedInt16sAt(vs: seq<Int16>, width: nat, i: nat)
    requires width >= 2 && i < |vs|
    ensures width * i + 2 <= |PaddedInt16s(vs, width)|
    ensures PaddedInt16s(vs, width)[width * i..width * i + 2] == Int16Bytes(vs[i])
    decreases i
  {
    var field := Int16Bytes(vs[0]) + seq(width - 2, _ => 0);
    assert PaddedInt16s(vs, width) == field + PaddedInt16s(vs[1..], width);
    if i > 0 {
      PaddedInt16sAt(vs[1..], width, i - 1);
      assert width * i == width + width * (i - 1);
    }
  }

  /**
    The 604 bytes a writer stores for h, field by field in the layout of
    LaidOutAt; the upper halves of the password slots are zero.
   */
  function EncodeHeader(h: IndexHeader): (buf: seq<Byte>)
    requires Encodable(h)
    ensures |buf| == HeaderReadLength
  {
    TextBytes(h.version, 12) + Int32Bytes(h.revision)
    + TextBytes(h.folderTitle, 164) + Int32Bytes(h.firstItemIndex)
    + h.lastBackupDate.bits + h.lastEditDate.bits + h.periodEndDate.bits
    + TextBytes(h.longPackName, 162) + TextBytes(h.packDir, 162) + TextBytes(h.packVersion, 12)
    + PaddedInt16s(h.passwordKey, 2) + PaddedInt16s(h.password, 4)
  }

  /** Every field of h is where the layout reads it in the encoded bytes. */
  lemma EncodedHeaderLaidOut(h: IndexHeader)
    requires Encodable(h)
    ensures LaidOutAt(EncodeHeader(h), h)
  {
    var buf := EncodeHeader(h);
    assert buf[0..12] == TextBytes(h.version, 12);
    assert buf[12..16] == Int32Bytes(h.revision);
    assert buf[16..180] == TextBytes(h.folderTitle, 164);
    assert buf[180..184] == Int32Bytes(h.firstItemIndex);
    assert buf[184..192] == h.lastBackupDate.bits;
    assert buf[192..200] == h.lastEditDate.bits;
    assert buf[200..208] == h.periodEndDate.bits;
    assert buf[208..370] == TextBytes(h.longPackName, 162);
    assert buf[370..532] == TextBytes(h.packDir, 162);
    assert buf[532..544] == TextBytes(h.packVersion, 12);
    TextRoundTrip(h.version, 12);
    TextRoundTrip(h.folderTitle, 164);
    TextRoundTrip(h.longPackName, 162);
    TextRoundTrip(h.packDir, 162);
    TextRoundTrip(h.packVersion, 12);
    Int32RoundTrip(h.revision);
    Int32RoundTrip(h.firstItemIndex);
    EncodedSlots(h);
  }

  /** The key and password slots read back from the encoded bytes. */
  lemma EncodedSlots(h: IndexHeader)
    requires Encodable(h)
    ensures forall i :: 0 <= i < Password.Slots ==> KeySlot(EncodeHeader(h), i) == h.passwordKey[i]
    ensures forall i :: 0 <= i < Password.Slots ==> PasswordSlot(EncodeHeader(h), i) == h.password[i]
  {
    var buf := EncodeHeader(h);
    var keys := PaddedInt16s(h.passwordKey, 2);
    var slots := PaddedInt16s(h.password, 4);
    assert buf[544..564] == keys;
    assert buf[564..604] == slots;
    forall i | 0 <= i < Password.Slots
      ensures KeySlot(buf, i) == h.passwordKey[i] && PasswordSlot(buf, i) == h.password[i]
    {
      PaddedInt16sAt(h.passwordKey, 2, i);
      PaddedInt16sAt(h.password, 4, i);
      assert buf[544 + 2 * i..546 + 2 * i] == keys[2 * i..2 * i + 2];
      assert buf[564 + 4 * i..566 + 4 * i] == slots[4 * i..4 * i + 2];
      Int16RoundTrip(h.passwordKey[i]);
      Int16RoundTrip(h.password[i]);
    }
  }

  /**
    Writing a header and decoding it gives the same header back, for every
    header whose fields fit their widths and whose password slots in use
    all have a nonzero key; the decode fills in the decrypted password and
    leaves the friendly name empty.
   */
  lemma HeaderRoundTrip(h: IndexHeader)
    requires Encodable(h) && Password.Decryptable(h.password, h.passwordKey)
    ensures DecodeHeader(EncodeHeader(h)) == Success(h.(
      decryptedPassword := Password.Decrypt(h.password, h.passwordKey).value,
      abkFriendlyName := []))
  {
    EncodedHeaderLaidOut(h);
    DecodeLaidOut(EncodeHeader(h), h);
  }

  /**
    The layout decides the decode: a buffer in which h is laid out, with no
    zero key on a slot in use, decodes to h with the decrypted password of
    its slots and keys and an empty friendly name.
   */
  lemma DecodeLaidOut(buf: seq<Byte>, h: IndexHeader)
    requires |buf| >= HeaderReadLength && LaidOutAt(buf, h)
    requires Password.Decryptable(h.password, h.passwordKey)
    ensures DecodeHeader(buf) == Success(h.(
      decryptedPassword := Password.Decrypt(h.password, h.passwordKey).value,
      abkFriendlyName := []))
  {
    NoZeroKeyInUse(buf, h);
    LayoutDecides(buf, h, DecodeHeader(buf));
  }

  /** A decode laid out in the same buffer as h agrees with h on every field read. */
  lemma LayoutDecides(buf: seq<Byte>, h: IndexHeader, r: Result<IndexHeader>)
    requires |buf| >= HeaderReadLength && LaidOutAt(buf, h) && r.Success? && LaidOutAt(buf, r.value)
    ensures r.value == h.(decryptedPassword := r.value.decryptedPassword, abkFriendlyName := r.value.abkFriendlyName)
  {
    assert r.value.password == h.password && r.value.passwordKey == h.passwordKey;
    var g := h.(decryptedPassword := r.value.decryptedPassword, abkFriendlyName := r.value.abkFriendlyName);
    SameLayout(buf, buf, r.value, g);
  }

  /** A laid-out header whose password slots in use have nonzero keys has no zero key in use. */
  lemma NoZeroKeyInUse(buf: seq<Byte>, h: IndexHeader)
    requires |buf| >= HeaderReadLength && LaidOutAt(buf, h)
    requires Password.Decryptable(h.password, h.passwordKey)
    ensures !ZeroKeyInUse(buf)
  {
  }
}
