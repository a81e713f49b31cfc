/**
 * The 10-byte ID3v2 file header Mp3TagData reads first and rewrites on Write:
 * "ID3", major version, minor version, flags, and the sync-safe size of the
 * frame section that follows (section 3.1 of the ID3v2.4.0 main structure).
 */
module ID3v2FileHeader {
  import opened Bytes
  import opened ID3v2Frames

  /** sizeof(ID3v2FileHeader) under #pragma pack(1). */
  const FileHeaderSize: nat := 10

  /** kFlagUnsynchronized, kFlagExtended, kFlagExperimental, kFlagFooterPresent, kFlagsRemaining. */
  const FlagUnsynchronized: byte := 0x80
  const FlagExtended: byte := 0x40
  const FlagExperimental: byte := 0x20
  const FlagFooterPresent: byte := 0x10
  const FlagsRemaining: byte := 0x0F

  /** kID3String. */
  function ID3Magic(): (m: seq<byte>)
    ensures |m| == 3
  {
    [Ascii('I'), Ascii('D'), Ascii('3')]
  }

  /** The header's fields in file order. */
  datatype FileHeader = FileHeader(
    id3: seq<byte>,
    majorVersion: byte,
    minorVersion: byte,
    flags: byte,
    syncSafeSize: seq<byte>)

  /** The two arrays have their declared lengths. */
  predicate WellFormedHeader(h: FileHeader)
  {
    |h.id3| == 3 && |h.syncSafeSize| == 4
  }

  /** A default-constructed header: every member zero-initialised. */
  function EmptyHeader(): (h: FileHeader)
    ensures WellFormedHeader(h)
  {
    FileHeader([0, 0, 0], 0, 0, 0, [0, 0, 0, 0])
  }

  /** The header as it lies in the file's first ten bytes. */
  function ReadFileHeader(raw: seq<byte>): (h: FileHeader)
    requires |raw| == FileHeaderSize
    ensures WellFormedHeader(h)
  {
    FileHeader(raw[..3], raw[3], raw[4], raw[5], raw[6..10])
  }

  /** The ten bytes Write stores for a header. */
  function WriteFileHeader(h: FileHeader): (raw: seq<byte>)
    requires WellFormedHeader(h)
    ensures |raw| == FileHeaderSize
  {
    h.id3 + [h.majorVersion, h.minorVersion, h.flags] + h.syncSafeSize
  }

  /** Reading what was written gives the header back, and writing what was read gives the bytes back. */
  lemma FileHeaderRoundTrip(h: FileHeader, raw: seq<byte>)
    ensures WellFormedHeader(h) ==> ReadFileHeader(WriteFileHeader(h)) == h
    ensures |raw| == FileHeaderSize ==> WriteFileHeader(ReadFileHeader(raw)) == raw
  {
    if WellFormedHeader(h) {
      var w := WriteFileHeader(h);
      assert w[..3] == h.id3 && w[6..10] == h.syncSafeSize;
    }
    if |raw| == FileHeaderSize {
      assert raw == raw[..3] + [raw[3], raw[4], raw[5]] + raw[6..10];
    }
  }

  /** `b & mask` is non-zero for a mask holding the single bit `mask`. */
  predicate HasFlag(b: byte, mask: byte)
    requires mask == 0x80 || mask == 0x40 || mask == 0x20 || mask == 0x10
  {
    b / mask % 2 == 1
  }

  /**
   * The flag test of IsValidFileHeader: kFlagExtended, kFlagExperimental and
   * kFlagsRemaining all clear.  Exactly four flag bytes pass: none, footer
   * present, unsynchronised, or both.
   */
  predicate ValidFlags(flags: byte)
    ensures ValidFlags(flags) <==> flags in {0, FlagFooterPresent, FlagUnsynchronized, FlagUnsynchronized + FlagFooterPresent}
  {
    var hi := flags / 0x10;
    assert flags == hi * 0x10 + flags % 0x10;
    assert hi < 0x10;
    assert flags / 0x40 == hi / 4 && flags / 0x20 == hi / 2;
    !(HasFlag(flags, FlagExtended) || HasFlag(flags, FlagExperimental) || flags % (FlagsRemaining + 1) != 0)
  }

  /**
   * IsValidFileHeader: the magic is "ID3", 3 <= major != 0xFF, minor != 0xFF,
   * and the flags pass.  Versions 2.3 to 2.254 are accepted, with one of the
   * four flag bytes ValidFlags admits.
   */
  predicate IsValidFileHeader(h: FileHeader)
    ensures IsValidFileHeader(h) <==>
      h.id3 == ID3Magic() && 3 <= h.majorVersion < 0xFF && h.minorVersion < 0xFF
      && h.flags in {0, FlagFooterPresent, FlagUnsynchronized, FlagUnsynchronized + FlagFooterPresent}
  {
    h.id3 == ID3Magic()
    && !(h.majorVersion < 3 || h.majorVersion == 0xFF || h.minorVersion == 0xFF)
    && ValidFlags(h.flags)
  }

  /** The frame-section size the header declares, decoded as a sync-safe integer. */
  function FrameSectionSize(h: FileHeader): (n: nat)
    requires WellFormedHeader(h)
    ensures n < 0x1000_0000
  {
    ReadID3Int(7, h.syncSafeSize)
  }

  /** audioBufferOffset_: the header plus the declared frame section; never wraps in 32 bits. */
  function AudioBufferOffset(h: FileHeader): (n: nat)
    requires WellFormedHeader(h)
    ensures FileHeaderSize <= n < U32Limit
  {
    FileHeaderSize + FrameSectionSize(h)
  }

  /** The header Write stores: only the size field changes, to WriteID3Int<7> of the 32-bit truncation of `size`. */
  function WithSectionSize(h: FileHeader, size: nat): (h': FileHeader)
    requires WellFormedHeader(h)
    ensures WellFormedHeader(h')
    ensures h'.id3 == h.id3 && h'.majorVersion == h.majorVersion && h'.minorVersion == h.minorVersion && h'.flags == h.flags
  {
    h.(syncSafeSize := WriteID3Int(7, size % U32Limit))
  }

  /** The rewritten header declares `size` modulo 2^28, exactly `size` when it fits, and stays valid. */
  lemma WithSectionSizeReadsBack(h: FileHeader, size: nat)
    requires WellFormedHeader(h)
    ensures FrameSectionSize(WithSectionSize(h, size)) == size % U32Limit % 0x1000_0000
    ensures size < 0x1000_0000 ==> FrameSectionSize(WithSectionSize(h, size)) == size
    ensures IsValidFileHeader(h) ==> IsValidFileHeader(WithSectionSize(h, size))
  {
    SectionSizeField(h, size);
    if size < 0x1000_0000 {
      SmallSizeKept(size);
    }
  }

  /** The size field of the rewritten header reads back as the size modulo 2^32, then modulo 2^28. */
  lemma SectionSizeField(h: FileHeader, size: nat)
    requires WellFormedHeader(h)
    ensures FrameSectionSize(WithSectionSize(h, size)) == size % U32Limit % 0x1000_0000
  {
    ReadWriteID3Int(7, size % U32Limit);
  }

  /** A size below 2^28 survives both reductions. */
  lemma SmallSizeKept(size: nat)
    requires size < 0x1000_0000
    ensures size % U32Limit % 0x1000_0000 == size
  {
    assert size % U32Limit == size;
  }
}
