/**
  Byte-level primitives of the index file: little-endian integers as read by
  BitConverter, fixed-width UTF-16LE text fields right-trimmed of NUL, raw
  8-byte legacy dates, and a sequential reader over an immutable buffer that
  plays the part of BinaryReader.
 */
module Binary {
  import opened Wrappers

  type Byte = b: int | 0 <= b < 0x100
  type Int16 = x: int | -0x8000 <= x < 0x8000
  type Int32 = x: int | -0x8000_0000 <= x < 0x8000_0000

  /** One UTF-16 code unit; text fields are sequences of these. */
  type CodeUnit = u: int | 0 <= u < 0x1_0000
  type Text = seq<CodeUnit>

  const Nul: CodeUnit := 0

  // ---------------------------------------------------------------------
  // Little-endian integers

  /** The unsigned value of a little-endian byte string. */
  function LeValue(bs: seq<Byte>): nat
  {
    if |bs| == 0 then 0 else bs[0] + 0x100 * LeValue(bs[1..])
  }

  lemma LeValue2(bs: seq<Byte>)
    requires |bs| == 2
    ensures LeValue(bs) == bs[0] as int + 0x100 * bs[1] as int
  {
    var t := bs[1..];
    assert t[1..] == [];
    assert LeValue(t) == t[0] as int;
  }

  lemma LeValue4(bs: seq<Byte>)
    requires |bs| == 4
    ensures LeValue(bs) == bs[0] as int + 0x100 * bs[1] as int + 0x1_0000 * bs[2] as int + 0x100_0000 * bs[3] as int
  {
    var t := bs[2..];
    LeValue2(t);
    assert bs[1..][1..] == t;
  }

  /** BitConverter.ToInt16(bs, 0): the first two bytes, little-endian, two's complement. */
  function Int16Le(bs: seq<Byte>): Int16
    requires |bs| >= 2
  {
    LeValue2(bs[..2]);
    var u := LeValue(bs[..2]);
    if u < 0x8000 then u else u - 0x1_0000
  }

  /** BitConverter.ToInt32(bs, 0): the first four bytes, little-endian, two's complement. */
  function Int32Le(bs: seq<Byte>): Int32
    requires |bs| >= 4
  {
    LeValue4(bs[..4]);
    var u := LeValue(bs[..4]);
    if u < 0x8000_0000 then u else u - 0x1_0000_0000
  }

  /** The int32 stored at byte `at`. */
  function Int32At(buf: seq<Byte>, at: nat): Int32
    requires at + 4 <= |buf|
  {
    Int32Le(buf[at..at + 4])
  }

  /** The two bytes a writer stores for v. */
  function Int16Bytes(v: Int16): seq<Byte>
  {
    var u: int := if v < 0 then v + 0x1_0000 else v;
    [u % 0x100, u / 0x100]
  }

  /** The four bytes a writer stores for v. */
  function Int32Bytes(v: Int32): seq<Byte>
  {
    var u: int := if v < 0 then v + 0x1_0000_0000 else v;
    [u % 0x100, u / 0x100 % 0x100, u / 0x100 / 0x100 % 0x100, u / 0x100 / 0x100 / 0x100]
  }

  lemma Int16RoundTrip(v: Int16)
    ensures Int16Le(Int16Bytes(v)) == v
  {
    var bs := Int16Bytes(v);
    assert bs[..2] == bs;
    LeValue2(bs);
  }

  lemma Int16Injective(bs: seq<Byte>)
    requires |bs| == 2
    ensures Int16Bytes(Int16Le(bs)) == bs
  {
    assert bs[..2] == bs;
    LeValue2(bs);
  }

  lemma Int32RoundTrip(v: Int32)
    ensures Int32Le(Int32Bytes(v)) == v
  {
    var bs := Int32Bytes(v);
    assert bs[..4] == bs;
    LeValue4(bs);
    var u: int := if v < 0 then v + 0x1_0000_0000 else v;
    var q1 := u / 0x100;
    var q2 := q1 / 0x100;
    var q3 := q2 / 0x100;
    assert u == u % 0x100 + 0x100 * q1;
    assert q1 == q1 % 0x100 + 0x100 * q2;
    assert q2 == q2 % 0x100 + 0x100 * q3;
    assert u == u % 0x100 + 0x100 * (q1 % 0x100) + 0x1_0000 * (q2 % 0x100) + 0x100_0000 * q3;
  }

  /** Peeling the low byte off a little-endian number. */
  lemma LowByte(b: Byte, rest: int)
    ensures (b + 0x100 * rest) % 0x100 == b
    ensures (b + 0x100 * rest) / 0x100 == rest
  {
  }

  lemma Int32Injective(bs: seq<Byte>)
    requires |bs| == 4
    ensures Int32Bytes(Int32Le(bs)) == bs
  {
    assert bs[..4] == bs;
    LeValue4(bs);
    var hi := bs[2] as int + 0x100 * bs[3] as int;
    var mid := bs[1] as int + 0x100 * hi;
    var u := bs[0] as int + 0x100 * mid;
    assert u == bs[0] as int + 0x100 * bs[1] as int + 0x1_0000 * bs[2] as int + 0x100_0000 * bs[3] as int;
    LowByte(bs[0], mid);
    LowByte(bs[1], hi);
    LowByte(bs[2], bs[3]);
  }

  // ---------------------------------------------------------------------
  // Fixed-width UTF-16LE text

  /** The code units of an even-length byte string, two bytes each, low byte first. */
  function Units(bs: seq<Byte>): (r: Text)
    requires |bs| % 2 == 0
    ensures |r| == |bs| / 2
    decreases |bs|
  {
    if |bs| == 0 then [] else [bs[0] as int + 0x100 * bs[1] as int] + Units(bs[2..])
  }

  /** Code unit i is made of bytes 2i (low) and 2i + 1 (high). */
  lemma {:induction false} UnitAt(bs: seq<Byte>, i: nat)
    requires |bs| % 2 == 0 && i < |bs| / 2
    ensures Units(bs)[i] == bs[2 * i] as int + 0x100 * bs[2 * i + 1] as int
    decreases i
  {
    if i > 0 {
      UnitAt(bs[2..], i - 1);
    }
  }

  /**
    A fixed-width text field, as Encoding.Unicode.GetString followed by
    TrimEnd('\0'): the code units of the bytes with every trailing NUL
    dropped. Written as a recursion that strips NUL code units (two zero
    bytes) from the end before decoding.
   */
  function DecodeText(bs: seq<Byte>): (r: Text)
    requires |bs| % 2 == 0
    ensures 2 * |r| <= |bs|
    ensures r == [] || r[|r| - 1] != Nul
    decreases |bs|
  {
    if |bs| == 0 then []
    else if bs[|bs| - 2] == 0 && bs[|bs| - 1] == 0 then DecodeText(bs[..|bs| - 2])
    else
      UnitAt(bs, |bs| / 2 - 1);
      Units(bs)
  }

  /**
    DecodeText keeps a prefix of the code units and drops only NULs: the
    trim removes exactly the trailing NUL run.
   */
  lemma {:induction false} DecodeTextTrims(bs: seq<Byte>)
    requires |bs| % 2 == 0
    ensures DecodeText(bs) <= Units(bs)
    ensures forall i :: |DecodeText(bs)| <= i < |Units(bs)| ==> Units(bs)[i] == Nul
    decreases |bs|
  {
    if |bs| > 0 && bs[|bs| - 2] == 0 && bs[|bs| - 1] == 0 {
      var n := |bs| / 2 - 1;
      var front := bs[..2 * n];
      var r := DecodeText(front);
      assert DecodeText(bs) == r;
      DecodeTextTrims(front);
      UnitsDropLast(bs, n);
      assert Units(bs) == Units(front) + [Nul];
    }
  }

  /** Dropping the last two bytes drops the last code unit. */
  lemma UnitsDropLast(bs: seq<Byte>, n: nat)
    requires |bs| == 2 * n + 2
    ensures Units(bs[..2 * n]) == Units(bs)[..n]
    ensures Units(bs)[n] == bs[2 * n] as int + 0x100 * bs[2 * n + 1] as int
  {
    var front := bs[..2 * n];
    forall i | 0 <= i < n
      ensures Units(front)[i] == Units(bs)[i]
    {
      UnitAt(bs, i);
      UnitAt(front, i);
    }
    UnitAt(bs, n);
  }

  /** The text field of `width` bytes starting at byte `offset`. */
  function TextAt(buf: seq<Byte>, offset: nat, width: nat): Text
    requires width % 2 == 0 && offset + width <= |buf|
  {
    DecodeText(buf[offset..offset + width])
  }

  /** A text value fits a field of `width` bytes and survives the NUL trim. */
  predicate FitsText(s: Text, width: nat)
  {
    2 * |s| <= width && (s == [] || s[|s| - 1] != Nul)
  }

  /** UTF-16LE: two bytes per code unit, low byte first. */
  function UnitBytes(s: Text): (bs: seq<Byte>)
    ensures |bs| == 2 * |s|
  {
    if |s| == 0 then [] else [s[0] % 0x100, s[0] / 0x100] + UnitBytes(s[1..])
  }

  /** The bytes a writer stores for s in a field of `width` bytes: UTF-16LE, NUL padded. */
  function TextBytes(s: Text, width: nat): (bs: seq<Byte>)
    requires 2 * |s| <= width
    ensures |bs| == width
  {
    UnitBytes(s) + seq(width - 2 * |s|, _ => 0)
  }

  /** Decoding UTF-16LE bytes gives the code units back. */
  lemma {:induction false} UnitsOfUnitBytes(s: Text)
    ensures Units(UnitBytes(s)) == s
  {
    if |s| > 0 {
      assert UnitBytes(s)[2..] == UnitBytes(s[1..]);
      UnitsOfUnitBytes(s[1..]);
    }
  }

  /** Without padding, the decode trims nothing when the text has no trailing NUL. */
  lemma UnpaddedRoundTrip(s: Text)
    requires s == [] || s[|s| - 1] != Nul
    ensures DecodeText(UnitBytes(s)) == s
  {
    var bs := UnitBytes(s);
    UnitsOfUnitBytes(s);
    if |s| > 0 {
      var n := |s| - 1;
      UnitAt(bs, n);
      DecodeUnpadded(bs, n);
    }
  }

  /** A last unit that is not NUL: nothing is trimmed. */
  lemma DecodeUnpadded(bs: seq<Byte>, n: nat)
    requires |bs| == 2 * n + 2 && (bs[2 * n] != 0 || bs[2 * n + 1] != 0)
    ensures DecodeText(bs) == Units(bs)
  {
  }

  /** One NUL of padding less: the decode strips it. */
  lemma StripPadding(s: Text, width: nat)
    requires width % 2 == 0 && 2 * |s| < width
    ensures DecodeText(TextBytes(s, width)) == DecodeText(TextBytes(s, width - 2))
  {
    assert TextBytes(s, width)[..width - 2] == TextBytes(s, width - 2);
  }

  /** Decoding the bytes a writer stores gives the text back, whenever the text fits. */
  lemma {:induction false} TextRoundTrip(s: Text, width: nat)
    requires width % 2 == 0
    requires FitsText(s, width)
    ensures DecodeText(TextBytes(s, width)) == s
    decreases width
  {
    if width == 2 * |s| {
      assert TextBytes(s, width) == UnitBytes(s);
      UnpaddedRoundTrip(s);
    } else {
      StripPadding(s, width);
      TextRoundTrip(s, width - 2);
    }
  }

  // ---------------------------------------------------------------------
  // Legacy dates

  /**
    A legacy (OLE Automation) date: an IEEE-754 double counting days since
    1899-12-30. Only its eight raw bytes are kept; converting them to a
    calendar timestamp is floating-point work outside this model.
   */
  datatype OleDate = OleDate(bits: seq<Byte>)

  // ---------------------------------------------------------------------
  // Sequential reader

  /** A read position in an immutable buffer, in the role of BinaryReader over a MemoryStream. */
  datatype Reader = Reader(buf: seq<Byte>, pos: nat)

  /** A decoded value and the reader positioned just after it. */
  datatype Read<+T> = Read(value: T, next: Reader)

  /** The reader `n` bytes further on, when those bytes exist. */
  predicate CanRead(rd: Reader, n: nat)
  {
    rd.pos + n <= |rd.buf|
  }

  function Skip(rd: Reader, n: nat): Reader
  {
    Reader(rd.buf, rd.pos + n)
  }

  /** ReadBytes(n), except that running past the end is a failure rather than a short read. */
  function ReadBytes(rd: Reader, n: nat): (r: Result<Read<seq<Byte>>>)
    ensures r.Success? <==> CanRead(rd, n)
    ensures r.Failure? ==> r.error == BufferTooShort
    ensures r.Success? ==> |r.value.value| == n && r.value.next == Skip(rd, n)
    ensures r.Success? ==> r.value.value == rd.buf[rd.pos..rd.pos + n]
  {
    if CanRead(rd, n) then Success(Read(rd.buf[rd.pos..rd.pos + n], Skip(rd, n)))
    else Failure(BufferTooShort)
  }

  function ReadInt32(rd: Reader): (r: Result<Read<Int32>>)
    ensures r.Success? <==> CanRead(rd, 4)
    ensures r.Failure? ==> r.error == BufferTooShort
    ensures r.Success? ==> r.value.next == Skip(rd, 4)
    ensures r.Success? ==> r.value.value == Int32At(rd.buf, rd.pos)
  {
    var bs :- ReadBytes(rd, 4);
    Success(Read(Int32Le(bs.value), bs.next))
  }

  function ReadText(rd: Reader, width: nat): (r: Result<Read<Text>>)
    requires width % 2 == 0
    ensures r.Success? <==> CanRead(rd, width)
    ensures r.Failure? ==> r.error == BufferTooShort
    ensures r.Success? ==> r.value.next == Skip(rd, width)
    ensures r.Success? ==> r.value.value == TextAt(rd.buf, rd.pos, width)
  {
    var bs :- ReadBytes(rd, width);
    Success(Read(DecodeText(bs.value), bs.next))
  }

  function ReadDate(rd: Reader): (r: Result<Read<OleDate>>)
    ensures r.Success? <==> CanRead(rd, 8)
    ensures r.Failure? ==> r.error == BufferTooShort
    ensures r.Success? ==> r.value.next == Skip(rd, 8)
    ensures r.Success? ==> r.value.value == OleDate(rd.buf[rd.pos..rd.pos + 8])
  {
    var bs :- ReadBytes(rd, 8);
    Success(Read(OleDate(bs.value), bs.next))
  }

  /** `count` consecutive little-endian int16 values, two bytes each. */
  function ReadInt16s(rd: Reader, count: nat): (r: Result<Read<seq<Int16>>>)
    ensures r.Success? <==> count == 0 || CanRead(rd, 2 * count)
    ensures r.Failure? ==> r.error == BufferTooShort
    ensures r.Success? ==> r.value.next == Skip(rd, 2 * count) && |r.value.value| == count
    ensures r.Success? ==> forall i :: 0 <= i < count ==>
      r.value.value[i] == Int16Le(rd.buf[rd.pos + 2 * i..rd.pos + 2 * i + 2])
    decreases count
  {
    if count == 0 then Success(Read([], rd))
    else
      var first :- ReadBytes(rd, 2);
      var rest :- ReadInt16s(first.next, count - 1);
      Success(Read([Int16Le(first.value)] + rest.value, rest.next))
  }

  /**
    `count` consecutive four-byte slots, each read whole but narrowed to the
    int16 held in its first two bytes (BitConverter.ToInt16 over a four-byte
    read); the upper two bytes of every slot are never looked at.
   */
  function ReadNarrowedInt32s(rd: Reader, count: nat): (r: Result<Read<seq<Int16>>>)
    ensures r.Success? <==> count == 0 || CanRead(rd, 4 * count)
    ensures r.Failure? ==> r.error == BufferTooShort
    ensures r.Success? ==> r.value.next == Skip(rd, 4 * count) && |r.value.value| == count
    ensures r.Success? ==> forall i :: 0 <= i < count ==>
      r.value.value[i] == Int16Le(rd.buf[rd.pos + 4 * i..rd.pos + 4 * i + 2])
    decreases count
  {
    if count == 0 then Success(Read([], rd))
    else
      var first :- ReadBytes(rd, 4);
      assert first.value[..2] == rd.buf[rd.pos..rd.pos + 2];
      var rest :- ReadNarrowedInt32s(first.next, count - 1);
      Success(Read([Int16Le(first.value[..2])] + rest.value, rest.next))
  }

  /** The `count` consecutive 22-byte text fields (the width of every initials slot) from byte `at`. */
  function InitialsAt(buf: seq<Byte>, at: nat, count: nat): (ts: seq<Text>)
    requires at + 22 * count <= |buf|
    ensures |ts| == count
  {
    seq(count, i requires 0 <= i < count => TextAt(buf, at + 22 * i, 22))
  }

  /** The `count` consecutive eight-byte dates from byte `at`. */
  function DatesAt(buf: seq<Byte>, at: nat, count: nat): (ds: seq<OleDate>)
    requires at + 8 * count <= |buf|
    ensures |ds| == count
  {
    seq(count, i requires 0 <= i < count => OleDate(buf[at + 8 * i..at + 8 * i + 8]))
  }

  /** `count` initials fields, read as one block and cut into 22-byte pieces. */
  function ReadInitials(rd: Reader, count: nat): (r: Result<Read<seq<Text>>>)
    ensures r.Success? <==> CanRead(rd, 22 * count)
    ensures r.Failure? ==> r.error == BufferTooShort
    ensures r.Success? ==> r.value.next == Skip(rd, 22 * count) && r.value.value == InitialsAt(rd.buf, rd.pos, count)
  {
    var raw :- ReadBytes(rd, 22 * count);
    var texts := InitialsAt(raw.value, 0, count);
    assert texts == InitialsAt(rd.buf, rd.pos, count) by {
      forall i | 0 <= i < count
        ensures texts[i] == TextAt(rd.buf, rd.pos + 22 * i, 22)
      {
        assert raw.value[22 * i..22 * i + 22] == rd.buf[rd.pos + 22 * i..rd.pos + 22 * i + 22];
      }
    }
    Success(Read(texts, raw.next))
  }

  /** `count` dates, read as one block and cut into eight-byte pieces. */
  function ReadDates(rd: Reader, count: nat): (r: Result<Read<seq<OleDate>>>)
    ensures r.Success? <==> CanRead(rd, 8 * count)
    ensures r.Failure? ==> r.error == BufferTooShort
    ensures r.Success? ==> r.value.next == Skip(rd, 8 * count) && r.value.value == DatesAt(rd.buf, rd.pos, count)
  {
    var raw :- ReadBytes(rd, 8 * count);
    var dates := DatesAt(raw.value, 0, count);
    assert dates == DatesAt(rd.buf, rd.pos, count) by {
      forall i | 0 <= i < count
        ensures dates[i] == OleDate(rd.buf[rd.pos + 8 * i..rd.pos + 8 * i + 8])
      {
        assert raw.value[8 * i..8 * i + 8] == rd.buf[rd.pos + 8 * i..rd.pos + 8 * i + 8];
      }
    }
    Success(Read(dates, raw.next))
  }

  // ---------------------------------------------------------------------
  // Locality: a field decode sees only the bytes of its field

  /** Two buffers that hold the same bytes at positions lo..hi-1. */
  ghost predicate SameBytes(buf1: seq<Byte>, buf2: seq<Byte>, lo: nat, hi: nat)
  {
    && hi <= |buf1| && hi <= |buf2|
    && forall p :: lo <= p < hi ==> buf1[p] == buf2[p]
  }

  lemma SameBytesSlice(buf1: seq<Byte>, buf2: seq<Byte>, lo: nat, hi: nat, a: nat, b: nat)
    requires SameBytes(buf1, buf2, lo, hi) && lo <= a <= b <= hi
    ensures buf1[a..b] == buf2[a..b]
  {
  }

  lemma Int32AtLocal(buf1: seq<Byte>, buf2: seq<Byte>, lo: nat, hi: nat, at: nat)
    requires SameBytes(buf1, buf2, lo, hi) && lo <= at && at + 4 <= hi
    ensures Int32At(buf1, at) == Int32At(buf2, at)
  {
    SameBytesSlice(buf1, buf2, lo, hi, at, at + 4);
  }

  lemma TextAtLocal(buf1: seq<Byte>, buf2: seq<Byte>, lo: nat, hi: nat, at: nat, width: nat)
    requires SameBytes(buf1, buf2, lo, hi) && lo <= at && at + width <= hi && width % 2 == 0
    ensures TextAt(buf1, at, width) == TextAt(buf2, at, width)
  {
    SameBytesSlice(buf1, buf2, lo, hi, at, at + width);
  }

  lemma InitialsAtLocal(buf1: seq<Byte>, buf2: seq<Byte>, lo: nat, hi: nat, at: nat, count: nat)
    requires SameBytes(buf1, buf2, lo, hi) && lo <= at && at + 22 * count <= hi
    ensures InitialsAt(buf1, at, count) == InitialsAt(buf2, at, count)
  {
    forall i | 0 <= i < count
      ensures InitialsAt(buf1, at, count)[i] == InitialsAt(buf2, at, count)[i]
    {
      TextAtLocal(buf1, buf2, lo, hi, at + 22 * i, 22);
    }
  }

  lemma DatesAtLocal(buf1: seq<Byte>, buf2: seq<Byte>, lo: nat, hi: nat, at: nat, count: nat)
    requires SameBytes(buf1, buf2, lo, hi) && lo <= at && at + 8 * count <= hi
    ensures DatesAt(buf1, at, count) == DatesAt(buf2, at, count)
  {
    forall i | 0 <= i < count
      ensures DatesAt(buf1, at, count)[i] == DatesAt(buf2, at, count)[i]
    {
      SameBytesSlice(buf1, buf2, lo, hi, at + 8 * i, at + 8 * i + 8);
    }
  }
}
