/**
 * The ID3v2 integer codec and frame layouts of ID3v2Frames.h.
 *
 * Sizes on disk are four big-endian bytes. Major version 3 stores a plain
 * 32-bit value (8 significant bits per byte); version 4 and later store a
 * "sync-safe" value (section 6.2 of the ID3v2.4.0 main structure document):
 * 7 significant bits per byte, the top bit of every byte clear, 28 bits in all.
 */
module ID3v2Frames {
  import opened Bytes

  /** sizeof(ID3v2FrameHdr): 4 ID bytes, 4 size bytes, status byte, format byte. */
  const FrameHeaderSize: nat := 10
  /** kFrameIDCharCount */
  const FrameIdCharCount: nat := 4
  /** kStatusReadOnly: bit 5 of the status byte. */
  const StatusReadOnly: nat := 0x20
  /** Largest value a `uint32_t` holds, plus one. */
  const U32Limit: nat := 0x1_0000_0000

  /** Significant bits per stored byte: 8 for the plain form, 7 for the sync-safe form. */
  type BitsPerByte = k: nat | k == 7 || k == 8 witness 8

  /** One more than the largest value four bytes of `k` significant bits can carry. */
  function Capacity(k: BitsPerByte): (limit: nat)
  {
    if k == 7 then 0x1000_0000 else U32Limit
  }

  /**
   * ReadID3Int<k>: the four stored bytes read big-endian, keeping the low `k`
   * bits of each byte.
   */
  function ReadID3Int(k: BitsPerByte, raw: seq<byte>): (v: nat)
    requires |raw| == 4
    ensures v < Capacity(k)
  {
    var b0, b1, b2, b3 := raw[0] as int, raw[1] as int, raw[2] as int, raw[3] as int;
    if k == 7 then
      ((b0 % 0x80 * 0x80 + b1 % 0x80) * 0x80 + b2 % 0x80) * 0x80 + b3 % 0x80
    else
      ((b0 * 0x100 + b1) * 0x100 + b2) * 0x100 + b3
  }

  /**
   * WriteID3Int<k>: a 32-bit value spread over four bytes of `k` significant
   * bits, most significant first. For `k == 7` the bits above the 28th are
   * dropped, as the source's bit spreading drops them.
   */
  function WriteID3Int(k: BitsPerByte, v: nat): (raw: seq<byte>)
    requires v < U32Limit
    ensures |raw| == 4
  {
    if k == 7 then
      [v / 0x20_0000 % 0x80, v / 0x4000 % 0x80, v / 0x80 % 0x80, v % 0x80]
    else
      [v / 0x100_0000 % 0x100, v / 0x1_0000 % 0x100, v / 0x100 % 0x100, v % 0x100]
  }

  /** Reading back a written integer gives the value reduced to the width of the form. */
  lemma ReadWriteID3Int(k: BitsPerByte, v: nat)
    requires v < U32Limit
    ensures ReadID3Int(k, WriteID3Int(k, v)) == v % Capacity(k)
  {
    if k == 7 {
      SyncSafeReadWrite(v);
    } else {
      PlainReadWrite(v);
    }
  }

  lemma SyncSafeReadWrite(v: nat)
    requires v < U32Limit
    ensures ReadID3Int(7, WriteID3Int(7, v)) == v % 0x1000_0000
  {
    var w := WriteID3Int(7, v);
    var b0, b1, b2, b3 := w[0] as int, w[1] as int, w[2] as int, w[3] as int;
    assert b0 % 0x80 == b0 && b1 % 0x80 == b1 && b2 % 0x80 == b2 && b3 % 0x80 == b3;
    assert ReadID3Int(7, w) == ((b0 * 0x80 + b1) * 0x80 + b2) * 0x80 + b3;
    assert v % 0x1000_0000 == ((b0 * 0x80 + b1) * 0x80 + b2) * 0x80 + b3 by {
      SyncSafeDigits(v);
    }
  }

  lemma PlainReadWrite(v: nat)
    requires v < U32Limit
    ensures ReadID3Int(8, WriteID3Int(8, v)) == v
  {
    var w := WriteID3Int(8, v);
    var b0, b1, b2, b3 := w[0] as int, w[1] as int, w[2] as int, w[3] as int;
    assert ReadID3Int(8, w) == ((b0 * 0x100 + b1) * 0x100 + b2) * 0x100 + b3;
    assert v == ((b0 * 0x100 + b1) * 0x100 + b2) * 0x100 + b3 by {
      PlainDigits(v);
    }
  }

  /** The four 7-bit digits of `v`, most significant first, recombine to `v` modulo 2^28. */
  lemma SyncSafeDigits(v: nat)
    ensures v % 0x1000_0000 == ((v / 0x20_0000 % 0x80 * 0x80 + v / 0x4000 % 0x80) * 0x80 + v / 0x80 % 0x80) * 0x80 + v % 0x80
  {
    var q1 := v / 0x80;
    var q2 := q1 / 0x80;
    var q3 := q2 / 0x80;
    var q4 := q3 / 0x80;
    assert v == q1 * 0x80 + v % 0x80;
    assert q1 == q2 * 0x80 + q1 % 0x80;
    assert q2 == q3 * 0x80 + q2 % 0x80;
    assert q3 == q4 * 0x80 + q3 % 0x80;
    assert v == q2 * 0x4000 + (q1 % 0x80 * 0x80 + v % 0x80);
    assert v / 0x4000 == q2;
    assert v == q3 * 0x20_0000 + ((q2 % 0x80 * 0x80 + q1 % 0x80) * 0x80 + v % 0x80);
    assert v / 0x20_0000 == q3;
    assert v == q4 * 0x1000_0000 + (((q3 % 0x80 * 0x80 + q2 % 0x80) * 0x80 + q1 % 0x80) * 0x80 + v % 0x80);
  }

  /** The four bytes of a 32-bit `v`, most significant first, recombine to `v`. */
  lemma PlainDigits(v: nat)
    requires v < U32Limit
    ensures v == ((v / 0x100_0000 % 0x100 * 0x100 + v / 0x1_0000 % 0x100) * 0x100 + v / 0x100 % 0x100) * 0x100 + v % 0x100
  {
    var q1 := v / 0x100;
    var q2 := q1 / 0x100;
    var q3 := q2 / 0x100;
    assert v == q1 * 0x100 + v % 0x100;
    assert q1 == q2 * 0x100 + q1 % 0x100;
    assert q2 == q3 * 0x100 + q2 % 0x100;
    assert v == q2 * 0x1_0000 + (q1 % 0x100 * 0x100 + v % 0x100);
    assert v / 0x1_0000 == q2;
    assert v == q3 * 0x100_0000 + ((q2 % 0x100 * 0x100 + q1 % 0x100) * 0x100 + v % 0x100);
    assert v / 0x100_0000 == q3;
    assert q3 < 0x100;
  }

  /** The round trip the format promises: every value of the form's width survives. */
  lemma ID3IntRoundTrip(k: BitsPerByte, v: nat)
    requires v < Capacity(k)
    ensures ReadID3Int(k, WriteID3Int(k, v)) == v
  {
    assert v < U32Limit && v % Capacity(k) == v;
    ReadWriteID3Int(k, v);
  }

  /** The other direction: four stored bytes whose top bits fit the form are re-created exactly. */
  lemma WriteReadID3Int(k: BitsPerByte, raw: seq<byte>)
    requires |raw| == 4
    requires forall i :: 0 <= i < 4 ==> raw[i] < (if k == 7 then 0x80 else 0x100)
    ensures WriteID3Int(k, ReadID3Int(k, raw)) == raw
  {
    var b0, b1, b2, b3 := raw[0] as int, raw[1] as int, raw[2] as int, raw[3] as int;
    if k == 7 {
      assert b0 < 0x80 && b1 < 0x80 && b2 < 0x80 && b3 < 0x80;
      assert ReadID3Int(k, raw) == ((b0 * 0x80 + b1) * 0x80 + b2) * 0x80 + b3 by {
        assert b0 % 0x80 == b0 && b1 % 0x80 == b1 && b2 % 0x80 == b2 && b3 % 0x80 == b3;
      }
      SyncSafeDigitsOf(b0, b1, b2, b3);
    } else {
      PlainDigitsOf(b0, b1, b2, b3);
    }
  }

  /** Four 7-bit digits combined big-endian are recovered by division and remainder. */
  lemma SyncSafeDigitsOf(b0: nat, b1: nat, b2: nat, b3: nat)
    requires b0 < 0x80 && b1 < 0x80 && b2 < 0x80 && b3 < 0x80
    ensures var v := ((b0 * 0x80 + b1) * 0x80 + b2) * 0x80 + b3;
      v / 0x20_0000 % 0x80 == b0 && v / 0x4000 % 0x80 == b1 && v / 0x80 % 0x80 == b2 && v % 0x80 == b3
  {
    var hi := b0 * 0x80 + b1;
    var mid := hi * 0x80 + b2;
    var v := mid * 0x80 + b3;
    assert v / 0x80 == mid && v % 0x80 == b3;
    assert mid % 0x80 == b2;
    assert v == hi * 0x4000 + (b2 * 0x80 + b3);
    assert v / 0x4000 == hi;
    assert hi % 0x80 == b1;
    assert v == b0 * 0x20_0000 + (b1 * 0x4000 + b2 * 0x80 + b3);
    assert v / 0x20_0000 == b0;
  }

  /** Four bytes combined big-endian are recovered by division and remainder. */
  lemma PlainDigitsOf(b0: nat, b1: nat, b2: nat, b3: nat)
    requires b0 < 0x100 && b1 < 0x100 && b2 < 0x100 && b3 < 0x100
    ensures var v := ((b0 * 0x100 + b1) * 0x100 + b2) * 0x100 + b3;
      v / 0x100_0000 % 0x100 == b0 && v / 0x1_0000 % 0x100 == b1 && v / 0x100 % 0x100 == b2 && v % 0x100 == b3
  {
    var hi := b0 * 0x100 + b1;
    var mid := hi * 0x100 + b2;
    var v := mid * 0x100 + b3;
    assert v / 0x100 == mid && v % 0x100 == b3;
    assert mid % 0x100 == b2;
    assert v == hi * 0x1_0000 + (b2 * 0x100 + b3);
    assert v / 0x1_0000 == hi;
    assert hi % 0x100 == b1;
    assert v == b0 * 0x100_0000 + (b1 * 0x1_0000 + b2 * 0x100 + b3);
    assert v / 0x100_0000 == b0;
  }

  /** Every byte of a sync-safe integer has its top bit clear (section 6.2 of ID3v2.4.0). */
  lemma SyncSafeTopBitsClear(v: nat)
    requires v < U32Limit
    ensures forall i :: 0 <= i < 4 ==> WriteID3Int(7, v)[i] < 0x80
  {
  }

  /** Which form a file's frame sizes use: plain for major version 3, sync-safe otherwise. */
  function SizeBits(majorVersion: byte): (k: BitsPerByte)
  {
    if majorVersion == 3 then 8 else 7
  }

  // ---------------------------------------------------------------------------
  // ID3v2FrameHdr: bytes 0..3 frame ID, 4..7 size, 8 status flags, 9 format flags
  // (section 4.1 of the ID3v2.4.0 structure document; section 3.3 of ID3v2.3.0).

  /** ID3v2FrameHdr::GetFrameID: the four ID bytes. */
  function GetFrameID(header: seq<byte>): (id: seq<byte>)
    requires |header| >= FrameIdCharCount
    ensures |id| == FrameIdCharCount
  {
    header[..FrameIdCharCount]
  }

  /** ID3v2FrameHdr::GetSize: the payload size, in the form the major version selects. */
  function GetSize(header: seq<byte>, majorVersion: byte): (n: nat)
    requires |header| >= FrameHeaderSize
    ensures n < Capacity(SizeBits(majorVersion))
  {
    ReadID3Int(SizeBits(majorVersion), header[4..8])
  }

  /** ID3v2FrameHdr::IsReadOnly: bit 5 of the status byte. */
  function IsReadOnly(header: seq<byte>): (readOnly: bool)
    requires |header| >= FrameHeaderSize
    ensures readOnly <==> header[8] % 0x40 >= StatusReadOnly
  {
    header[8] / StatusReadOnly % 2 == 1
  }

  /** The ten bytes ID3v2FrameHdr::SetHeader leaves: the ID, the encoded size, two zero flag bytes. */
  function FrameHeader(id: seq<byte>, size: nat, majorVersion: byte): (h: seq<byte>)
    requires |id| == FrameIdCharCount && size < U32Limit
    ensures |h| == FrameHeaderSize
  {
    id + WriteID3Int(SizeBits(majorVersion), size) + [0, 0]
  }

  /** ID3v2FrameHdr::SetHeader, writing the header in place at the start of a frame buffer. */
  method SetHeader(frame: array<byte>, id: seq<byte>, size: nat, majorVersion: byte)
    requires frame.Length >= FrameHeaderSize
    requires |id| == FrameIdCharCount && size < U32Limit
    modifies frame
    ensures frame[..] == FrameHeader(id, size, majorVersion) + old(frame[FrameHeaderSize..])
  {
    var encoded := WriteID3Int(SizeBits(majorVersion), size);
    frame[0] := id[0];
    frame[1] := id[1];
    frame[2] := id[2];
    frame[3] := id[3];
    frame[4] := encoded[0];
    frame[5] := encoded[1];
    frame[6] := encoded[2];
    frame[7] := encoded[3];
    frame[8] := 0;
    frame[9] := 0;
    assert frame[..] == frame[..FrameHeaderSize] + frame[FrameHeaderSize..];
  }

  /**
   * What a header written by SetHeader reads back as: the same ID, the size
   * reduced to the form's width (so exactly `size` when it fits), not read-only.
   */
  lemma FrameHeaderReadsBack(id: seq<byte>, size: nat, majorVersion: byte)
    requires |id| == FrameIdCharCount && size < U32Limit
    ensures GetFrameID(FrameHeader(id, size, majorVersion)) == id
    ensures GetSize(FrameHeader(id, size, majorVersion), majorVersion) == size % Capacity(SizeBits(majorVersion))
    ensures size < Capacity(SizeBits(majorVersion)) ==> GetSize(FrameHeader(id, size, majorVersion), majorVersion) == size
    ensures !IsReadOnly(FrameHeader(id, size, majorVersion))
  {
    HeaderSizeField(id, size, majorVersion);
    assert FrameHeader(id, size, majorVersion)[8] == 0;
  }

  lemma HeaderSizeField(id: seq<byte>, size: nat, majorVersion: byte)
    requires |id| == FrameIdCharCount && size < U32Limit
    ensures GetSize(FrameHeader(id, size, majorVersion), majorVersion) == size % Capacity(SizeBits(majorVersion))
    ensures size < Capacity(SizeBits(majorVersion)) ==> size % Capacity(SizeBits(majorVersion)) == size
  {
    var k := SizeBits(majorVersion);
    assert FrameHeader(id, size, majorVersion)[4..8] == WriteID3Int(k, size);
    ReadWriteID3Int(k, size);
    BelowCapacity(k, size);
  }

  lemma BelowCapacity(k: BitsPerByte, v: nat)
    ensures v < Capacity(k) ==> v % Capacity(k) == v
  {
    if v < Capacity(k) {
      if k == 7 {
        assert v % 0x1000_0000 == v;
      } else {
        assert v % U32Limit == v;
      }
    }
  }

  // ---------------------------------------------------------------------------
  // Text encodings and the narrow ID3v2String.

  /** ID3TextEncoding, including the `Max` sentinel that the source's range check admits. */
  datatype ID3TextEncoding = ANSI | UTF16 | UTF16BE | UTF8 | Max

  /** The selector byte of each encoding. */
  function EncodingByte(e: ID3TextEncoding): (b: byte)
  {
    match e
    case ANSI => 0
    case UTF16 => 1
    case UTF16BE => 2
    case UTF8 => 3
    case Max => 4
  }

  /** The text-encoding selector that follows the frame header of text and comment frames. */
  function GetTextEncoding(frame: seq<byte>): (e: ID3TextEncoding)
    requires |frame| > FrameHeaderSize
    requires frame[FrameHeaderSize] <= EncodingByte(Max)
    ensures EncodingByte(e) == frame[FrameHeaderSize]
  {
    match frame[FrameHeaderSize]
    case 0 => ANSI
    case 1 => UTF16
    case 2 => UTF16BE
    case 3 => UTF8
    case _ => Max
  }

  /**
   * ID3v2String::SetText for a narrow string: the text's bytes copied to
   * `frame[at..]`, with no terminator; nothing else changes.
   */
  method StringSetText(frame: array<byte>, at: nat, text: seq<byte>)
    requires at + |text| <= frame.Length
    modifies frame
    ensures frame[..] == old(frame[..at]) + text + old(frame[at + |text|..])
  {
    var i := 0;
    while i < |text|
      invariant 0 <= i <= |text|
      invariant frame[..at] == old(frame[..at])
      invariant frame[at..at + i] == text[..i]
      invariant frame[at + i..] == old(frame[at + i..])
    {
      frame[at + i] := text[i];
      assert frame[at..at + i + 1] == frame[at..at + i] + [text[i]];
      assert text[..i + 1] == text[..i] + [text[i]];
      i := i + 1;
    }
    assert frame[..] == frame[..at] + frame[at..at + |text|] + frame[at + |text|..];
  }

  // ---------------------------------------------------------------------------
  // ID3v2TextFrame: header, encoding byte, text (section 4.2 of the ID3v2.4.0
  // native-frames document).

  /** The header plus the encoding byte. */
  const TextFrameFixedSize: nat := FrameHeaderSize + 1

  /** ID3v2TextFrame::ComputeFrameSize: the bytes a narrow text frame needs, cast to 32 bits. */
  function ComputeTextFrameSize(text: seq<byte>): (n: nat)
    ensures n < U32Limit
    ensures TextFrameFixedSize + |text| < U32Limit ==> n == TextFrameFixedSize + |text|
  {
    (TextFrameFixedSize + |text|) % U32Limit
  }

  /** ID3v2TextFrame::SetText: encoding 0 (ANSI) at offset 10, the text from offset 11. */
  method TextFrameSetText(frame: array<byte>, text: seq<byte>)
    requires TextFrameFixedSize + |text| <= frame.Length
    modifies frame
    ensures frame[..] == old(frame[..FrameHeaderSize]) + [EncodingByte(ANSI)] + text
                         + old(frame[TextFrameFixedSize + |text|..])
  {
    frame[FrameHeaderSize] := EncodingByte(ANSI);
    ghost var mid := frame[..];
    StringSetText(frame, TextFrameFixedSize, text);
    assert mid[..TextFrameFixedSize] == old(frame[..FrameHeaderSize]) + [EncodingByte(ANSI)];
    assert mid[TextFrameFixedSize + |text|..] == old(frame[TextFrameFixedSize + |text|..]);
  }

  /**
   * The complete text frame the tag model builds: a header declaring a payload
   * of the encoding byte plus the text, then that payload.
   */
  function TextFrameImage(id: seq<byte>, text: seq<byte>, majorVersion: byte): (f: seq<byte>)
    requires |id| == FrameIdCharCount && TextFrameFixedSize + |text| < U32Limit
    ensures |f| == ComputeTextFrameSize(text)
  {
    FrameHeader(id, 1 + |text|, majorVersion) + [EncodingByte(ANSI)] + text
  }

  /**
   * SetHeader followed by SetText on a buffer of ComputeFrameSize bytes: whatever
   * the buffer held, it now holds exactly the text frame.
   */
  method FillTextFrame(frame: array<byte>, id: seq<byte>, text: seq<byte>, majorVersion: byte)
    requires |id| == FrameIdCharCount && TextFrameFixedSize + |text| < U32Limit
    requires frame.Length == ComputeTextFrameSize(text)
    modifies frame
    ensures frame[..] == TextFrameImage(id, text, majorVersion)
  {
    SetHeader(frame, id, ComputeTextFrameSize(text) - FrameHeaderSize, majorVersion);
    TextFrameSetText(frame, text);
  }

  // ---------------------------------------------------------------------------
  // ID3v2CommentFrame: header, encoding byte, 3-byte language, description,
  // text (section 4.10 of the ID3v2.4.0 native-frames document).

  /** kEnglishLanguage, "eng". */
  const EnglishLanguage: seq<byte> := [Ascii('e'), Ascii('n'), Ascii('g')]

  /** The header, the encoding byte, the language and the empty description's NUL. */
  const CommentFrameFixedSize: nat := FrameHeaderSize + 1 + 3 + 1

  /** ID3v2CommentFrame::ComputeFrameSize: the bytes a narrow comment frame needs, cast to 32 bits. */
  function ComputeCommentFrameSize(text: seq<byte>): (n: nat)
    ensures n < U32Limit
    ensures CommentFrameFixedSize + |text| < U32Limit ==> n == CommentFrameFixedSize + |text|
  {
    (CommentFrameFixedSize + |text|) % U32Limit
  }

  /** ID3v2CommentFrame::SetText: encoding 0, "eng", an empty NUL-terminated description, the text. */
  method CommentFrameSetText(frame: array<byte>, text: seq<byte>)
    requires CommentFrameFixedSize + |text| <= frame.Length
    modifies frame
    ensures frame[..] == old(frame[..FrameHeaderSize]) + [EncodingByte(ANSI)] + EnglishLanguage + [0] + text
                         + old(frame[CommentFrameFixedSize + |text|..])
  {
    frame[FrameHeaderSize] := EncodingByte(ANSI);
    frame[FrameHeaderSize + 1] := EnglishLanguage[0];
    frame[FrameHeaderSize + 2] := EnglishLanguage[1];
    frame[FrameHeaderSize + 3] := EnglishLanguage[2];
    frame[FrameHeaderSize + 4] := 0;
    ghost var mid := frame[..];
    StringSetText(frame, CommentFrameFixedSize, text);
    assert mid[..CommentFrameFixedSize] == old(frame[..FrameHeaderSize]) + [EncodingByte(ANSI)] + EnglishLanguage + [0];
    assert mid[CommentFrameFixedSize + |text|..] == old(frame[CommentFrameFixedSize + |text|..]);
  }

  /** The complete comment frame the tag model builds. */
  function CommentFrameImage(id: seq<byte>, text: seq<byte>, majorVersion: byte): (f: seq<byte>)
    requires |id| == FrameIdCharCount && CommentFrameFixedSize + |text| < U32Limit
    ensures |f| == ComputeCommentFrameSize(text)
  {
    FrameHeader(id, 5 + |text|, majorVersion) + [EncodingByte(ANSI)] + EnglishLanguage + [0] + text
  }

  /**
   * SetHeader followed by SetText on a buffer of ComputeFrameSize bytes: whatever
   * the buffer held, it now holds exactly the comment frame.
   */
  method FillCommentFrame(frame: array<byte>, id: seq<byte>, text: seq<byte>, majorVersion: byte)
    requires |id| == FrameIdCharCount && CommentFrameFixedSize + |text| < U32Limit
    requires frame.Length == ComputeCommentFrameSize(text)
    modifies frame
    ensures frame[..] == CommentFrameImage(id, text, majorVersion)
  {
    SetHeader(frame, id, ComputeCommentFrameSize(text) - FrameHeaderSize, majorVersion);
    CommentFrameSetText(frame, text);
  }

  /**
   * The header of a built text or comment frame declares exactly the bytes
   * that follow it, whenever that count fits the file's size form.
   */
  lemma BuiltFramesDeclareTheirLength(id: seq<byte>, text: seq<byte>, majorVersion: byte)
    requires |id| == FrameIdCharCount
    requires CommentFrameFixedSize + |text| < Capacity(SizeBits(majorVersion))
    ensures GetSize(TextFrameImage(id, text, majorVersion), majorVersion)
            == |TextFrameImage(id, text, majorVersion)| - FrameHeaderSize
    ensures GetSize(CommentFrameImage(id, text, majorVersion), majorVersion)
            == |CommentFrameImage(id, text, majorVersion)| - FrameHeaderSize
    ensures GetTextEncoding(TextFrameImage(id, text, majorVersion)) == ANSI
    ensures GetTextEncoding(CommentFrameImage(id, text, majorVersion)) == ANSI
  {
    var t := TextFrameImage(id, text, majorVersion);
    var c := CommentFrameImage(id, text, majorVersion);
    FrameHeaderReadsBack(id, 1 + |text|, majorVersion);
    FrameHeaderReadsBack(id, 5 + |text|, majorVersion);
    assert t[..FrameHeaderSize] == FrameHeader(id, 1 + |text|, majorVersion);
    assert c[..FrameHeaderSize] == FrameHeader(id, 5 + |text|, majorVersion);
    assert t[4..8] == FrameHeader(id, 1 + |text|, majorVersion)[4..8];
    assert c[4..8] == FrameHeader(id, 5 + |text|, majorVersion)[4..8];
  }
}
