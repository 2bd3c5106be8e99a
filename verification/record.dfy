/**
  One outline entry of the index file, decoded from a 632-byte record
  segment. Segment k (1-based) starts at byte 648 + (k - 1) * 632; the field
  reads use the first 586 bytes of it.
 */
module Record {
  import opened Wrappers
  import opened Binary
  import Header

  /** Length of one record segment. */
  const SegmentLength := 632

  /** Bytes a record's field reads consume, from the start of its segment. */
  const RecordReadLength := 586

  /** Slots in each of the initials and date arrays. */
  const SignOffSlots := 4

  /** The fields read first, bytes 0..299 of the segment. */
  datatype RecordHead = RecordHead(
    title: Text,
    segment: Int32,
    parent: Int32,
    nextItemIndex: Int32,
    uid: Text,
    itemType: Int32,
    documentType: Text,
    reference: Text,
    isMaster: Int32)

  /** The sign-off arrays, bytes 300..543 of the segment. */
  datatype SignOffs = SignOffs(
    preparedInitials: seq<Text>,
    reviewInitials: seq<Text>,
    offset: seq<Byte>,
    preparedDates: seq<OleDate>,
    reviewedDates: seq<OleDate>)

  /** The trailing flags and counters, bytes 544..585 of the segment. */
  datatype RecordFlags = RecordFlags(
    isAttentionManual: Int32,
    isAttentionAuto: Int32,
    numberOfOpenNotes: Int32,
    numberOfClosedNotes: Int32,
    isRecentlyFiled: Int32,
    defaultReference: Text)

  /**
    One outline entry. `index` is the segment number the entry was read
    from, not a stored field; `treeLevel` is filled in afterwards from the
    parent links. The stored fields are grouped by the stretch of the
    segment they come from.
   */
  datatype IndexRecord = IndexRecord(
    index: Int32,
    treeLevel: int,
    head: RecordHead,
    signOffs: SignOffs,
    flags: RecordFlags)

  /** First byte of segment k. */
  function SegmentStart(k: int): nat
    requires k >= 1
  {
    Header.HeaderLength + (k - 1) * SegmentLength
  }

  /** Segment k's field reads fit in the buffer. */
  predicate SegmentFits(buf: seq<Byte>, k: int)
    requires k >= 1
  {
    SegmentStart(k) + RecordReadLength <= |buf|
  }

  /** The head fields of the segment stretch starting at `at`, each at its fixed offset. */
  function HeadAt(buf: seq<Byte>, at: nat): RecordHead
    requires at + 300 <= |buf|
  {
    RecordHead(
      title := TextAt(buf, at, 164),
      segment := Int32At(buf, at + 164),
      parent := Int32At(buf, at + 168),
      nextItemIndex := Int32At(buf, at + 172),
      uid := TextAt(buf, at + 176, 76),
      itemType := Int32At(buf, at + 252),
      documentType := TextAt(buf, at + 256, 18),
      reference := TextAt(buf, at + 274, 22),
      isMaster := Int32At(buf, at + 296))
  }

  /** The sign-off fields of the stretch starting at `at` (byte 300 of the segment). */
  function SignOffsAt(buf: seq<Byte>, at: nat): SignOffs
    requires at + 244 <= |buf|
  {
    SignOffs(
      preparedInitials := InitialsAt(buf, at, SignOffSlots),
      reviewInitials := InitialsAt(buf, at + 88, SignOffSlots),
      offset := buf[at + 176..at + 180],
      preparedDates := DatesAt(buf, at + 180, SignOffSlots),
      reviewedDates := DatesAt(buf, at + 212, SignOffSlots))
  }

  /** The flag fields of the stretch starting at `at` (byte 544 of the segment). */
  function FlagsAt(buf: seq<Byte>, at: nat): RecordFlags
    requires at + 42 <= |buf|
  {
    RecordFlags(
      isAttentionManual := Int32At(buf, at),
      isAttentionAuto := Int32At(buf, at + 4),
      numberOfOpenNotes := Int32At(buf, at + 8),
      numberOfClosedNotes := Int32At(buf, at + 12),
      isRecentlyFiled := Int32At(buf, at + 16),
      defaultReference := TextAt(buf, at + 20, 22))
  }

  /**
    The record layout: the entry of segment k, every stored field taken from
    its fixed offset (head at the segment start, sign-offs 300 bytes in,
    flags 544 bytes in), stamped with k and tree level 0.
   */
  function RecordAt(buf: seq<Byte>, k: Int32): IndexRecord
    requires k >= 1 && SegmentFits(buf, k)
  {
    var start := SegmentStart(k);
    IndexRecord(k, 0, HeadAt(buf, start), SignOffsAt(buf, start + 300), FlagsAt(buf, start + 544))
  }

  /** The link stored in segment k: the index of the entry that follows it. */
  function NextItemAt(buf: seq<Byte>, k: int): Int32
    requires k >= 1 && SegmentFits(buf, k)
  {
    Int32At(buf, SegmentStart(k) + 172)
  }

  /** The first nine reads of a record. */
  method ReadRecordHead(buf: seq<Byte>, at: nat) returns (r: Result<RecordHead>)
    ensures r.Success? <==> at + 300 <= |buf|
    ensures r.Failure? ==> r.error == BufferTooShort
    ensures r.Success? ==> at + 300 <= |buf| && r.value == HeadAt(buf, at)
  {
    var rd := Reader(buf, at);
    var title :- ReadText(rd, 164);
    var segment :- ReadInt32(title.next);
    var parent :- ReadInt32(segment.next);
    var nextItemIndex :- ReadInt32(parent.next);
    var uid :- ReadText(nextItemIndex.next, 76);
    var itemType :- ReadInt32(uid.next);
    var documentType :- ReadText(itemType.next, 18);
    var reference :- ReadText(documentType.next, 22);
    var isMaster :- ReadInt32(reference.next);
    r := Success(RecordHead(
      title.value, segment.value, parent.value, nextItemIndex.value, uid.value,
      itemType.value, documentType.value, reference.value, isMaster.value));
  }

  /** The sign-off reads: two initials arrays, the offset bytes, two date arrays. */
  method ReadSignOffs(buf: seq<Byte>, at: nat) returns (r: Result<SignOffs>)
    ensures r.Success? <==> at + 244 <= |buf|
    ensures r.Failure? ==> r.error == BufferTooShort
    ensures r.Success? ==> at + 244 <= |buf| && r.value == SignOffsAt(buf, at)
  {
    var rd := Reader(buf, at);
    var preparedInitials :- ReadInitials(rd, SignOffSlots);
    var reviewInitials :- ReadInitials(preparedInitials.next, SignOffSlots);
    var offset :- ReadBytes(reviewInitials.next, 4);
    var preparedDates :- ReadDates(offset.next, SignOffSlots);
    var reviewedDates :- ReadDates(preparedDates.next, SignOffSlots);
    r := Success(SignOffs(
      preparedInitials.value, reviewInitials.value, offset.value,
      preparedDates.value, reviewedDates.value));
  }

  /** The trailing flag reads. */
  method ReadFlags(buf: seq<Byte>, at: nat) returns (r: Result<RecordFlags>)
    ensures r.Success? <==> at + 42 <= |buf|
    ensures r.Failure? ==> r.error == BufferTooShort
    ensures r.Success? ==> at + 42 <= |buf| && r.value == FlagsAt(buf, at)
  {
    var rd := Reader(buf, at);
    var isAttentionManual :- ReadInt32(rd);
    var isAttentionAuto :- ReadInt32(isAttentionManual.next);
    var numberOfOpenNotes :- ReadInt32(isAttentionAuto.next);
    var numberOfClosedNotes :- ReadInt32(numberOfOpenNotes.next);
    var isRecentlyFiled :- ReadInt32(numberOfClosedNotes.next);
    var defaultReference :- ReadText(isRecentlyFiled.next, 22);
    r := Success(RecordFlags(
      isAttentionManual.value, isAttentionAuto.value, numberOfOpenNotes.value,
      numberOfClosedNotes.value, isRecentlyFiled.value, defaultReference.value));
  }

  /**
    The body of one GetFileList iteration: seek to segment `index` and read
    the record fields in order. The result is the record the layout places
    in that segment, stamped with `index` itself (not a value read from the
    buffer) and tree level 0.
   */
  method DecodeRecord(buf: seq<Byte>, index: Int32) returns (r: Result<IndexRecord>)
    requires index > 0
    ensures r.Success? <==> SegmentFits(buf, index)
    ensures r.Failure? ==> r.error == BufferTooShort
    ensures r.Success? ==> r.value.index == index && r.value.treeLevel == 0
    ensures r.Success? ==> r.value.head == HeadAt(buf, SegmentStart(index))
    ensures r.Success? ==> r.value.signOffs == SignOffsAt(buf, SegmentStart(index) + 300)
    ensures r.Success? ==> r.value.flags == FlagsAt(buf, SegmentStart(index) + 544)
    ensures r.Success? ==> r.value == RecordAt(buf, index)
    ensures r.Success? ==> r.value.head.nextItemIndex == NextItemAt(buf, index)
  {
    var head :- ReadRecordHead(buf, SegmentStart(index));
    var signOffs :- ReadSignOffs(buf, SegmentStart(index) + 300);
    var flags :- ReadFlags(buf, SegmentStart(index) + 544);
    r := Success(IndexRecord(index, 0, head, signOffs, flags));
  }

  // ---------------------------------------------------------------------
  // Layout properties

  /**
    The stretches the record reads occupy do not overlap: each segment's 586
    bytes end before the next segment starts, and the first segment starts
    after the 604 bytes the header reads.
   */
  lemma SegmentsDisjoint(j: int, k: int)
    requires 1 <= j < k
    ensures Header.HeaderReadLength <= SegmentStart(j)
    ensures SegmentStart(j) + RecordReadLength <= SegmentStart(j + 1) <= SegmentStart(k)
  {
    assert SegmentStart(k) - SegmentStart(j) == (k - j) * SegmentLength;
  }

  lemma HeadAtLocal(buf1: seq<Byte>, buf2: seq<Byte>, at: nat)
    requires SameBytes(buf1, buf2, at, at + 300)
    ensures HeadAt(buf1, at) == HeadAt(buf2, at)
  {
    var hi := at + 300;
    TextAtLocal(buf1, buf2, at, hi, at, 164);
    Int32AtLocal(buf1, buf2, at, hi, at + 164);
    Int32AtLocal(buf1, buf2, at, hi, at + 168);
    Int32AtLocal(buf1, buf2, at, hi, at + 172);
    TextAtLocal(buf1, buf2, at, hi, at + 176, 76);
    Int32AtLocal(buf1, buf2, at, hi, at + 252);
    TextAtLocal(buf1, buf2, at, hi, at + 256, 18);
    TextAtLocal(buf1, buf2, at, hi, at + 274, 22);
    Int32AtLocal(buf1, buf2, at, hi, at + 296);
  }

  lemma SignOffsAtLocal(buf1: seq<Byte>, buf2: seq<Byte>, at: nat)
    requires SameBytes(buf1, buf2, at, at + 244)
    ensures SignOffsAt(buf1, at) == SignOffsAt(buf2, at)
  {
    var hi := at + 244;
    InitialsAtLocal(buf1, buf2, at, hi, at, SignOffSlots);
    InitialsAtLocal(buf1, buf2, at, hi, at + 88, SignOffSlots);
    SameBytesSlice(buf1, buf2, at, hi, at + 176, at + 180);
    DatesAtLocal(buf1, buf2, at, hi, at + 180, SignOffSlots);
    DatesAtLocal(buf1, buf2, at, hi, at + 212, SignOffSlots);
  }

  lemma FlagsAtLocal(buf1: seq<Byte>, buf2: seq<Byte>, at: nat)
    requires SameBytes(buf1, buf2, at, at + 42)
    ensures FlagsAt(buf1, at) == FlagsAt(buf2, at)
  {
    var hi := at + 42;
    Int32AtLocal(buf1, buf2, at, hi, at);
    Int32AtLocal(buf1, buf2, at, hi, at + 4);
    Int32AtLocal(buf1, buf2, at, hi, at + 8);
    Int32AtLocal(buf1, buf2, at, hi, at + 12);
    Int32AtLocal(buf1, buf2, at, hi, at + 16);
    TextAtLocal(buf1, buf2, at, hi, at + 20, 22);
  }

  /** The entry of segment k depends on the 586 bytes its reads consume and on nothing else. */
  lemma RecordReadsOnlyItsSegment(buf1: seq<Byte>, buf2: seq<Byte>, k: Int32)
    requires k >= 1 && SegmentFits(buf1, k) && SegmentFits(buf2, k)
    requires forall p :: SegmentStart(k) <= p < SegmentStart(k) + RecordReadLength ==> buf1[p] == buf2[p]
    ensures RecordAt(buf1, k) == RecordAt(buf2, k)
  {
    var start := SegmentStart(k);
    HeadAtLocal(buf1, buf2, start);
    SignOffsAtLocal(buf1, buf2, start + 300);
    FlagsAtLocal(buf1, buf2, start + 544);
  }

  /**
    Overwriting a byte outside segment k's stretch leaves k's entry as it
    was; by SegmentsDisjoint this covers the header and every other segment.
   */
  lemma RecordUnchangedByOtherBytes(buf: seq<Byte>, k: Int32, p: nat, b: Byte)
    requires k >= 1 && SegmentFits(buf, k) && p < |buf|
    requires p < SegmentStart(k) || SegmentStart(k) + RecordReadLength <= p
    ensures RecordAt(buf[p := b], k) == RecordAt(buf, k)
  {
    RecordReadsOnlyItsSegment(buf[p := b], buf, k);
  }
}
