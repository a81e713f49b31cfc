/**
 * The APEv2 tag structures of APEv2Frames.h, read as the bytes they are cast
 * from: the 32-byte tag header (or footer) and a tag item.  Their uint32_t
 * fields lie in little-endian byte order, as the APEv2 format stores them and
 * as the cast reads them on a little-endian machine.
 */
module APEv2Frames {
  import opened Bytes
  import ID3v2Frames

  const U32: nat := ID3v2Frames.U32Limit

  // ---------------------------------------------------------------------------
  // Little-endian 32-bit fields

  /** A uint32_t stored least significant byte first. */
  function ReadLE32(raw: seq<byte>): (v: nat)
    requires |raw| == 4
    ensures v < U32
  {
    var b0, b1, b2, b3 := raw[0] as int, raw[1] as int, raw[2] as int, raw[3] as int;
    ((b3 * 0x100 + b2) * 0x100 + b1) * 0x100 + b0
  }

  /** The four bytes a uint32_t occupies, least significant first; reading them gives the value back. */
  function WriteLE32(v: nat): (raw: seq<byte>)
    requires v < U32
    ensures |raw| == 4 && ReadLE32(raw) == v
  {
    ID3v2Frames.PlainDigits(v);
    [v % 0x100, v / 0x100 % 0x100, v / 0x1_0000 % 0x100, v / 0x100_0000 % 0x100]
  }

  /** Writing a read field gives the bytes back. */
  lemma LE32WriteRead(raw: seq<byte>)
    requires |raw| == 4
    ensures WriteLE32(ReadLE32(raw)) == raw
  {
    ID3v2Frames.PlainDigitsOf(raw[3] as nat, raw[2] as nat, raw[1] as nat, raw[0] as nat);
  }

  // ---------------------------------------------------------------------------
  // Flag bits

  /** kFlagIsReadOnly, kFlagIsBinary, kFlagIsHeader, kFlagHasFooter, kFlagHasHeader: bits 0, 1, 29, 30 and 31. */
  const FlagIsReadOnly: nat := 0x1
  const FlagIsBinary: nat := 0x2
  const FlagIsHeader: nat := 0x2000_0000
  const FlagHasFooter: nat := 0x4000_0000
  const FlagHasHeader: nat := 0x8000_0000

  /** The single-bit masks above. */
  predicate IsFlagMask(mask: nat)
  {
    mask == FlagIsReadOnly || mask == FlagIsBinary || mask == FlagIsHeader || mask == FlagHasFooter || mask == FlagHasHeader
  }

  /** `!!( flags & mask )` for a mask holding one bit: that bit of `flags` is set. */
  predicate TestFlag(flags: nat, mask: nat)
    requires IsFlagMask(mask)
  {
    flags / mask % 2 == 1
  }

  /** 1 for a set flag, 0 for a clear one. */
  function Bit(b: bool): (n: nat)
    ensures n <= 1
  {
    if b then 1 else 0
  }

  /** The flags word with the five named bits set as given and every other bit clear. */
  function FlagWord(readOnly: bool, binary: bool, isHeader: bool, hasFooter: bool, hasHeader: bool): (w: nat)
    ensures w < U32
  {
    Bit(readOnly) * FlagIsReadOnly + Bit(binary) * FlagIsBinary
    + Bit(isHeader) * FlagIsHeader + Bit(hasFooter) * FlagHasFooter + Bit(hasHeader) * FlagHasHeader
  }

  /** Each flag query reads back its own bit of a flags word and no other. */
  lemma FlagWordReadsBack(readOnly: bool, binary: bool, isHeader: bool, hasFooter: bool, hasHeader: bool)
    ensures var w := FlagWord(readOnly, binary, isHeader, hasFooter, hasHeader);
      TestFlag(w, FlagIsReadOnly) == readOnly && TestFlag(w, FlagIsBinary) == binary
      && TestFlag(w, FlagIsHeader) == isHeader && TestFlag(w, FlagHasFooter) == hasFooter
      && TestFlag(w, FlagHasHeader) == hasHeader
  {
    var w := FlagWord(readOnly, binary, isHeader, hasFooter, hasHeader);
    var lo := Bit(readOnly) + 2 * Bit(binary);
    var hi := Bit(isHeader) + 2 * Bit(hasFooter) + 4 * Bit(hasHeader);
    assert w == lo + 0x2000_0000 * hi;
    assert w / 1 == w && w % 2 == Bit(readOnly);
    assert w / 2 == Bit(binary) + 0x1000_0000 * hi;
    assert w / 0x2000_0000 == hi;
    assert w / 0x4000_0000 == hi / 2;
    assert w / 0x8000_0000 == hi / 4;
  }

  /**
   * Where the named bits of a flags word lie once it is stored little-endian:
   * bits 0 and 1 in the first byte, bits 29, 30 and 31 in the last.
   */
  lemma FlagBitsInBytes(w: nat)
    requires w < U32
    ensures var b := WriteLE32(w);
      w % 2 == b[0] % 2 && w / 2 % 2 == b[0] / 2 % 2
      && w / FlagIsHeader % 2 == b[3] / 0x20 % 2
      && w / FlagHasFooter % 2 == b[3] / 0x40 % 2
      && w / FlagHasHeader % 2 == b[3] / 0x80 % 2
  {
    LowBitsInFirstByte(w);
    HighBitsInLastByte(w);
  }

  /** Bits 0 and 1 of a word are bits 0 and 1 of its low byte. */
  lemma LowBitsInFirstByte(w: nat)
    ensures w % 2 == w % 0x100 % 2 && w / 2 % 2 == w % 0x100 / 2 % 2
  {
    var q, lo := w / 0x100, w % 0x100;
    assert w == 2 * (q * 0x80) + lo;
    Halves(q * 0x80, lo);
    assert w / 2 == 2 * (q * 0x40) + lo / 2;
    Halves(q * 0x40, lo / 2);
  }

  /** Taking half of an even number plus a rest. */
  lemma Halves(a: nat, b: nat)
    ensures (2 * a + b) % 2 == b % 2 && (2 * a + b) / 2 == a + b / 2
  {
  }

  /** Bits 29, 30 and 31 of a 32-bit word are bits 5, 6 and 7 of its high byte. */
  lemma HighBitsInLastByte(w: nat)
    requires w < U32
    ensures var hi := w / 0x100_0000 % 0x100;
      w / FlagIsHeader == hi / 0x20 && w / FlagHasFooter == hi / 0x40 && w / FlagHasHeader == hi / 0x80
  {
    var hi, r := w / 0x100_0000, w % 0x100_0000;
    assert w == hi * 0x100_0000 + r;
    assert hi < 0x100;
    DivOfHigh(w, hi, r, 0x20);
    DivOfHigh(w, hi, r, 0x40);
    DivOfHigh(w, hi, r, 0x80);
  }

  /** Dividing by k * 2^24 divides the part above the low 24 bits by k. */
  lemma DivOfHigh(w: nat, hi: nat, r: nat, k: nat)
    requires w == hi * 0x100_0000 + r && r < 0x100_0000 && 0 < k
    ensures w / (k * 0x100_0000) == hi / k
  {
    var d := k * 0x100_0000;
    var q, m := hi / k, hi % k;
    assert hi == q * k + m && m < k;
    assert w == q * d + (m * 0x100_0000 + r);
    assert m * 0x100_0000 + r < d by {
      assert m * 0x100_0000 <= (k - 1) * 0x100_0000;
    }
    DivUnique(w, d, q, m * 0x100_0000 + r);
  }

  /** The quotient is the unique q with w == q * d + r and 0 <= r < d. */
  lemma DivUnique(w: nat, d: nat, q: nat, r: nat)
    requires 0 < d && w == q * d + r && r < d
    ensures w / d == q
  {
    var q', r' := w / d, w % d;
    assert w == q' * d + r';
    assert (q' - q) * d == r - r';
    if q' > q {
      MulAtLeast(q' - q, d);
    } else if q' < q {
      MulAtLeast(q - q', d);
    }
  }

  /** A positive multiple of d is at least d. */
  lemma MulAtLeast(a: int, d: nat)
    requires a >= 1
    ensures a * d >= d
  {
  }

  // ---------------------------------------------------------------------------
  // APEv2TagHeader

  /** kApeIDSize, and the packed size of the header. */
  const ApeIDSize: nat := 8
  const TagHeaderSize: nat := 32

  /** The header's fields in file order; the reserved uint64_t is kept as its eight bytes. */
  datatype TagHeader = TagHeader(
    apeID: seq<byte>,
    version: nat,
    tagSize: nat,
    itemCount: nat,
    flags: nat,
    reserved: seq<byte>)

  /** Each field fits its declared width. */
  predicate WellFormedTagHeader(h: TagHeader)
  {
    |h.apeID| == ApeIDSize && h.version < U32 && h.tagSize < U32 && h.itemCount < U32 && h.flags < U32
    && |h.reserved| == 8
  }

  /** The header a cast of 32 bytes reads. */
  function ReadTagHeader(raw: seq<byte>): (h: TagHeader)
    requires |raw| == TagHeaderSize
    ensures WellFormedTagHeader(h)
    ensures h.apeID == raw[..ApeIDSize] && h.reserved == raw[24..32]
  {
    TagHeader(raw[..8], ReadLE32(raw[8..12]), ReadLE32(raw[12..16]), ReadLE32(raw[16..20]),
              ReadLE32(raw[20..24]), raw[24..32])
  }

  /** The 32 bytes of a header. */
  function WriteTagHeader(h: TagHeader): (raw: seq<byte>)
    requires WellFormedTagHeader(h)
    ensures |raw| == TagHeaderSize
  {
    h.apeID + WriteLE32(h.version) + WriteLE32(h.tagSize) + WriteLE32(h.itemCount) + WriteLE32(h.flags) + h.reserved
  }

  /** Reading what was written gives the header back, and writing what was read gives the bytes back. */
  lemma TagHeaderRoundTrip(h: TagHeader, raw: seq<byte>)
    ensures WellFormedTagHeader(h) ==> ReadTagHeader(WriteTagHeader(h)) == h
    ensures |raw| == TagHeaderSize ==> WriteTagHeader(ReadTagHeader(raw)) == raw
  {
    if WellFormedTagHeader(h) {
      var w := WriteTagHeader(h);
      assert w[..8] == h.apeID && w[24..32] == h.reserved;
      assert w[8..12] == WriteLE32(h.version) && w[12..16] == WriteLE32(h.tagSize);
      assert w[16..20] == WriteLE32(h.itemCount) && w[20..24] == WriteLE32(h.flags);
    }
    if |raw| == TagHeaderSize {
      LE32WriteRead(raw[8..12]);
      LE32WriteRead(raw[12..16]);
      LE32WriteRead(raw[16..20]);
      LE32WriteRead(raw[20..24]);
      assert raw == raw[..8] + raw[8..12] + raw[12..16] + raw[16..20] + raw[20..24] + raw[24..32];
    }
  }

  /** A default-constructed header: an all-zero ID, version 2, nothing else set. */
  function DefaultTagHeader(): (h: TagHeader)
    ensures WellFormedTagHeader(h)
    ensures h.version == 2 && h.tagSize == 0 && h.itemCount == 0
    ensures !ContainsHeader(h) && !ContainsFooter(h) && !IsHeader(h) && !HeaderIsReadOnly(h)
  {
    TagHeader(Zeros(8), 2, 0, 0, 0, Zeros(8))
  }

  /** ContainsHeader: bit 31 of the flags, the top bit of the last flags byte in the file. */
  predicate ContainsHeader(h: TagHeader)
    ensures h.flags < U32 ==> (ContainsHeader(h) <==> WriteLE32(h.flags)[3] >= 0x80)
  {
    if h.flags < U32 then FlagBitsInBytes(h.flags); TestFlag(h.flags, FlagHasHeader)
    else TestFlag(h.flags, FlagHasHeader)
  }

  /** ContainsFooter: bit 30 of the flags, bit 6 of the last flags byte in the file. */
  predicate ContainsFooter(h: TagHeader)
    ensures h.flags < U32 ==> (ContainsFooter(h) <==> WriteLE32(h.flags)[3] / 0x40 % 2 == 1)
  {
    if h.flags < U32 then FlagBitsInBytes(h.flags); TestFlag(h.flags, FlagHasFooter)
    else TestFlag(h.flags, FlagHasFooter)
  }

  /** IsHeader: bit 29 of the flags, bit 5 of the last flags byte in the file. */
  predicate IsHeader(h: TagHeader)
    ensures h.flags < U32 ==> (IsHeader(h) <==> WriteLE32(h.flags)[3] / 0x20 % 2 == 1)
  {
    if h.flags < U32 then FlagBitsInBytes(h.flags); TestFlag(h.flags, FlagIsHeader)
    else TestFlag(h.flags, FlagIsHeader)
  }

  /** IsReadOnly of the header: bit 0 of the flags, the low bit of the first flags byte in the file. */
  predicate HeaderIsReadOnly(h: TagHeader)
    ensures h.flags < U32 ==> (HeaderIsReadOnly(h) <==> WriteLE32(h.flags)[0] % 2 == 1)
  {
    if h.flags < U32 then FlagBitsInBytes(h.flags); TestFlag(h.flags, FlagIsReadOnly)
    else TestFlag(h.flags, FlagIsReadOnly)
  }

  /** The four flag queries of a header read back, through its 32 bytes, the bits its flags word was built from. */
  lemma HeaderFlagsReadBack(h: TagHeader, readOnly: bool, isHeader: bool, hasFooter: bool, hasHeader: bool)
    requires WellFormedTagHeader(h) && h.flags == FlagWord(readOnly, false, isHeader, hasFooter, hasHeader)
    ensures var h' := ReadTagHeader(WriteTagHeader(h));
      HeaderIsReadOnly(h') == readOnly && IsHeader(h') == isHeader
      && ContainsFooter(h') == hasFooter && ContainsHeader(h') == hasHeader
  {
    TagHeaderRoundTrip(h, []);
    FlagWordReadsBack(readOnly, false, isHeader, hasFooter, hasHeader);
  }

  // ---------------------------------------------------------------------------
  // APEv2TagItem
  //
  // An item is read from `raw`, the bytes from the item's first byte on:
  // valueSize_ at 0, flags_ at 4, the NUL-terminated key from 8, then the value.

  /** kMaxKeySize. */
  const MaxKeySize: nat := 255

  /** sizeof(APEv2TagItem) under #pragma pack(1): two uint32_t and one char. */
  const ItemStructSize: nat := 9

  /** The item's first eight bytes are present. */
  predicate HasItemFields(raw: seq<byte>)
  {
    |raw| >= 8
  }

  /** GetValueSize. */
  function ValueSize(raw: seq<byte>): (n: nat)
    requires HasItemFields(raw)
    ensures n < U32
  {
    ReadLE32(raw[0..4])
  }

  /** The item's flags_. */
  function ItemFlags(raw: seq<byte>): (f: nat)
    requires HasItemFields(raw)
    ensures f < U32
  {
    ReadLE32(raw[4..8])
  }

  /** The item's flags are the four bytes at offset 4, stored little-endian. */
  lemma ItemFlagsBytes(raw: seq<byte>)
    requires HasItemFields(raw)
    ensures WriteLE32(ItemFlags(raw)) == raw[4..8]
  {
    LE32WriteRead(raw[4..8]);
  }

  /** IsBinary: bit 1 of the flags, which is bit 1 of the item's fifth byte. */
  predicate IsBinary(raw: seq<byte>)
    requires HasItemFields(raw)
    ensures IsBinary(raw) <==> raw[4] / 2 % 2 == 1
  {
    ItemFlagsBytes(raw);
    FlagBitsInBytes(ItemFlags(raw));
    TestFlag(ItemFlags(raw), FlagIsBinary)
  }

  /** IsText: not binary, so bit 1 of the item's fifth byte is clear. */
  predicate IsText(raw: seq<byte>)
    requires HasItemFields(raw)
    ensures IsText(raw) <==> raw[4] % 4 < 2
  {
    !IsBinary(raw)
  }

  /** IsReadOnly of the item: bit 0 of the flags, which is bit 0 of the item's fifth byte. */
  predicate ItemIsReadOnly(raw: seq<byte>)
    requires HasItemFields(raw)
    ensures ItemIsReadOnly(raw) <==> raw[4] % 2 == 1
  {
    ItemFlagsBytes(raw);
    FlagBitsInBytes(ItemFlags(raw));
    TestFlag(ItemFlags(raw), FlagIsReadOnly)
  }

  /**
   * GetKey reads inside `raw`: a NUL follows the key somewhere, or the
   * bytes reach past the 255-character cap, where the loop stops reading.
   */
  predicate KeyReadable(raw: seq<byte>)
  {
    HasItemFields(raw) && (|raw| > 8 + MaxKeySize || 0 in raw[8..])
  }

  /** Where a NUL lies at or after `n` and none lies before, reading position 8 + n stays inside `raw`. */
  lemma ReadableAt(raw: seq<byte>, n: nat)
    requires KeyReadable(raw) && n <= MaxKeySize
    requires forall j :: 8 <= j < 8 + n ==> j < |raw| && raw[j] != 0
    ensures 8 + n < |raw|
  {
    if |raw| <= 8 + MaxKeySize {
      var j :| 0 <= j < |raw[8..]| && raw[8..][j] == 0;
      assert raw[8 + j] == 0;
    }
  }

  /** How many characters GetKey's loop pushes once it has pushed `n`: it stops at a NUL or at the cap. */
  function KeyLengthFrom(raw: seq<byte>, n: nat): (len: nat)
    requires KeyReadable(raw) && n <= MaxKeySize
    requires forall j :: 8 <= j < 8 + n ==> j < |raw| && raw[j] != 0
    ensures n <= len <= MaxKeySize && 8 + len < |raw|
    ensures forall j :: 8 <= j < 8 + len ==> raw[j] != 0
    ensures raw[8 + len] == 0 || len == MaxKeySize
    decreases MaxKeySize - n
  {
    ReadableAt(raw, n);
    if raw[8 + n] == 0 then n
    else if n == MaxKeySize then n
    else KeyLengthFrom(raw, n + 1)
  }

  /**
   * The key: the bytes from offset 8 up to the first NUL, or the first 255
   * bytes when none of them is NUL.
   */
  function KeyOf(raw: seq<byte>): (key: seq<byte>)
    requires KeyReadable(raw)
    ensures |key| <= MaxKeySize && 8 + |key| < |raw|
    ensures key == raw[8..8 + |key|]
    ensures forall i :: 0 <= i < |key| ==> key[i] != 0
    ensures raw[8 + |key|] == 0 || |key| == MaxKeySize
  {
    var len := KeyLengthFrom(raw, 0);
    raw[8..8 + len]
  }

  /** A NUL at 8 + m with none before it, m within the cap, ends a key of length m. */
  lemma KeyEndsAtFirstNul(raw: seq<byte>, m: nat)
    requires KeyReadable(raw) && m <= MaxKeySize && 8 + m < |raw| && raw[8 + m] == 0
    requires forall j :: 8 <= j < 8 + m ==> raw[j] != 0
    ensures KeyOf(raw) == raw[8..8 + m]
  {
    KeyLengthUpTo(raw, m, 0);
  }

  lemma {:induction false} KeyLengthUpTo(raw: seq<byte>, m: nat, n: nat)
    requires KeyReadable(raw) && m <= MaxKeySize && 8 + m < |raw| && raw[8 + m] == 0
    requires forall j :: 8 <= j < 8 + m ==> raw[j] != 0
    requires n <= m
    ensures KeyLengthFrom(raw, n) == m
    decreases m - n
  {
    if n < m {
      KeyLengthUpTo(raw, m, n + 1);
    }
  }

  /** GetKey: push bytes from offset 8 until a NUL, stopping at 255 characters. */
  method GetKey(raw: seq<byte>) returns (value: seq<byte>)
    requires KeyReadable(raw)
    ensures value == KeyOf(raw)
  {
    ghost var len := KeyLengthFrom(raw, 0);
    var charCount := 0;
    value := [];
    var s := 8;
    while raw[s] != 0
      invariant 0 <= charCount <= len && s == 8 + charCount
      invariant |value| == charCount && forall i :: 0 <= i < charCount ==> value[i] == raw[8 + i]
      decreases MaxKeySize - charCount
    {
      if charCount == MaxKeySize {
        break;
      }
      value := value + [raw[s]];
      s, charCount := s + 1, charCount + 1;
    }
    assert value == raw[8..s];
  }

  /** The item's value lies inside `raw`: GetData's span is readable. */
  predicate ItemFits(raw: seq<byte>)
  {
    KeyReadable(raw) && 8 + |KeyOf(raw)| + 1 + ValueSize(raw) <= |raw|
  }

  /** GetData: the valueSize bytes after the key and the byte that ends it. */
  function GetData(raw: seq<byte>): (data: seq<byte>)
    requires ItemFits(raw)
    ensures |data| == ValueSize(raw)
    ensures data == raw[8 + |KeyOf(raw)| + 1..8 + |KeyOf(raw)| + 1 + ValueSize(raw)]
  {
    var start := 8 + |KeyOf(raw)| + 1;
    raw[start..start + ValueSize(raw)]
  }

  /** GetText: the value's bytes, copied as they are. */
  function GetText(raw: seq<byte>): (text: seq<byte>)
    requires ItemFits(raw)
    ensures |text| == ValueSize(raw)
    ensures forall i :: 0 <= i < |text| ==> text[i] == raw[8 + |KeyOf(raw)| + 1 + i]
  {
    GetData(raw)
  }

  /** GetTagSize: sizeof the struct, plus the key, plus the value, truncated to 32 bits. */
  function GetTagSize(raw: seq<byte>): (n: nat)
    requires KeyReadable(raw)
    ensures n < U32
  {
    (ItemStructSize + |KeyOf(raw)| + ValueSize(raw)) % U32
  }

  /** Without wrap-around, the item's size is where its value ends: the next item starts there. */
  lemma TagSizeIsDataEnd(raw: seq<byte>)
    requires ItemFits(raw) && |raw| < U32
    ensures GetTagSize(raw) == 8 + |KeyOf(raw)| + 1 + |GetData(raw)|
  {
  }

  /** The bytes of an item with the given key, flags and value. */
  function EncodeItem(key: seq<byte>, flags: nat, value: seq<byte>): (raw: seq<byte>)
    requires |value| < U32 && flags < U32
    ensures |raw| == 8 + |key| + 1 + |value|
  {
    WriteLE32(|value|) + WriteLE32(flags) + key + [0] + value
  }

  /**
   * A key of at most 255 bytes without NUL, flags and a value read back from
   * their encoding, and the item's size is the encoding's length.
   */
  lemma ItemRoundTrip(key: seq<byte>, flags: nat, value: seq<byte>)
    requires |value| < U32 && flags < U32
    requires |key| <= MaxKeySize && forall i :: 0 <= i < |key| ==> key[i] != 0
    ensures var raw := EncodeItem(key, flags, value);
      ItemFits(raw) && KeyOf(raw) == key && ValueSize(raw) == |value| && ItemFlags(raw) == flags
      && GetData(raw) == value && GetText(raw) == value
      && GetTagSize(raw) == |raw| % U32
  {
    var raw := EncodeItem(key, flags, value);
    assert raw[0..4] == WriteLE32(|value|) && raw[4..8] == WriteLE32(flags);
    assert raw[8..8 + |key|] == key && raw[8 + |key|] == 0;
    assert 0 in raw[8..] by {
      assert raw[8..][|key|] == 0;
    }
    forall j | 8 <= j < 8 + |key|
      ensures raw[j] != 0
    {
      assert raw[j] == key[j - 8];
    }
    KeyEndsAtFirstNul(raw, |key|);
    assert raw[8 + |key| + 1..] == value;
  }

  /** The text and binary queries of an encoded item report the flags word's bit 1, and read-only its bit 0. */
  lemma ItemFlagsReadBack(key: seq<byte>, value: seq<byte>, readOnly: bool, binary: bool)
    requires |value| < U32
    requires |key| <= MaxKeySize && forall i :: 0 <= i < |key| ==> key[i] != 0
    ensures var raw := EncodeItem(key, FlagWord(readOnly, binary, false, false, false), value);
      IsBinary(raw) == binary && IsText(raw) == !binary && ItemIsReadOnly(raw) == readOnly
  {
    ItemRoundTrip(key, FlagWord(readOnly, binary, false, false, false), value);
    FlagWordReadsBack(readOnly, binary, false, false, false);
  }

  /** A key of 255 non-NUL bytes or more is cut at 255, and the value is then taken from one byte past the cut. */
  lemma LongKeyIsCut(raw: seq<byte>)
    requires HasItemFields(raw) && |raw| > 8 + MaxKeySize
    requires forall j :: 8 <= j < 8 + MaxKeySize ==> raw[j] != 0
    ensures KeyOf(raw) == raw[8..8 + MaxKeySize]
    ensures ItemFits(raw) ==> GetData(raw) == raw[8 + MaxKeySize + 1..8 + MaxKeySize + 1 + ValueSize(raw)]
  {
  }
}
