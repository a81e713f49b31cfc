/**
 * Mp3TagData::Frame, the tri-state record behind every entry of the frame list.
 *
 * In the source a frame is a pair (rawFrame, newFrame): a pointer into the tag
 * buffer read from the file (null for a frame created in memory) and a byte
 * vector whose LENGTH says which state the frame is in: 0 means the original
 * bytes are current, 1 means the frame is flagged for deletion, more than 1
 * means newFrame holds a replacement.  `FrameRecord` keeps that shape; the
 * model works with `Frame`, which names the three states, and the lemmas at
 * the end of this module tie the two together.  A raw pointer is modelled as
 * an offset into the tag buffer.
 */
module TagFrame {
  import opened Bytes
  import opened ID3v2Frames
  import opened Mp3BaseTagData

  /** kFlaggedForDelete: the length of newFrame that marks a frame for deletion. */
  const FlaggedForDelete: nat := 1

  /** The three states of a frame. */
  datatype Frame =
      /** The bytes at `offset` of the tag buffer, unchanged. */
    | Original(offset: nat)
      /** Flagged for deletion; `residue` is the one byte newFrame keeps. */
    | Tombstone(original: Option<nat>, residue: byte)
      /** Superseded by `bytes`, which always hold more than one byte. */
    | Replacement(original: Option<nat>, bytes: seq<byte>)

  /** A Replacement is only ever longer than kFlaggedForDelete. */
  predicate WellFormed(f: Frame)
  {
    f.Replacement? ==> |f.bytes| > FlaggedForDelete
  }

  /** The rawFrame pointer the frame keeps, whatever its state. */
  function RawFrame(f: Frame): (raw: Option<nat>)
  {
    match f
    case Original(o) => Some(o)
    case Tombstone(orig, _) => orig
    case Replacement(orig, _) => orig
  }

  /** The contents of newFrame in each state. */
  function NewFrame(f: Frame): (bytes: seq<byte>)
  {
    match f
    case Original(_) => []
    case Tombstone(_, r) => [r]
    case Replacement(_, b) => b
  }

  /** Every offset the frame keeps lies within the tag buffer. */
  predicate InBuffer(f: Frame, buf: seq<byte>)
  {
    RawFrame(f).Some? ==> RawFrame(f).value <= |buf|
  }

  /**
   * GetData() const: the most relevant bytes.  The original bytes (from the
   * frame's offset to the end of the buffer) for an original frame and for a
   * tombstone, which has no data when it never had original bytes (a null
   * pointer); the replacement bytes otherwise.
   */
  function GetData(f: Frame, buf: seq<byte>): (d: Option<seq<byte>>)
    requires InBuffer(f, buf)
    ensures f.Replacement? ==> d == Some(f.bytes)
    ensures !f.Replacement? ==> d == (if RawFrame(f).Some? then Some(buf[RawFrame(f).value..]) else Option.None)
  {
    match f
    case Original(o) => Some(buf[o..])
    case Tombstone(orig, _) => if orig.Some? then Some(buf[orig.value..]) else Option.None
    case Replacement(_, b) => Some(b)
  }

  /** GetData(), mutable overload: legal only on a replacement, whose bytes it exposes. */
  function GetMutableData(f: Frame): (d: seq<byte>)
    requires f.Replacement? && WellFormed(f)
    ensures |d| > FlaggedForDelete
    ensures d == NewFrame(f)
  {
    f.bytes
  }

  /** The frame's current data holds at least a whole frame header. */
  predicate HasHeader(f: Frame, buf: seq<byte>)
  {
    InBuffer(f, buf) && GetData(f, buf).Some? && |GetData(f, buf).value| >= FrameHeaderSize
  }

  /** IsFrameID: the first four bytes of the current data are the type's frame ID; only a type from the table can match. */
  predicate IsFrameID(f: Frame, buf: seq<byte>, t: Mp3FrameType)
    requires HasHeader(f, buf)
    ensures IsFrameID(f, buf, t) ==> t != Mp3FrameType.None
  {
    GetData(f, buf).value[..FrameIdCharCount] == GetFrameIDOf(t)
  }

  /** GetFrameType of the ID of a frame that matches a type gives that type back. */
  lemma IsFrameIDNeedsTableId(f: Frame, buf: seq<byte>, t: Mp3FrameType)
    requires HasHeader(f, buf) && IsFrameID(f, buf, t)
    ensures FrameTypeOf(GetData(f, buf).value[..FrameIdCharCount]) == t
  {
    FrameTypeRoundTrip(t);
  }

  /** IsCommentFrame: the frame's ID is "COMM"; such a frame is never a text frame. */
  predicate IsCommentFrame(f: Frame, buf: seq<byte>)
    requires HasHeader(f, buf)
    ensures IsCommentFrame(f, buf) ==> !IsTextFrame(f, buf)
  {
    var d := GetData(f, buf).value;
    assert d[0] == d[..FrameIdCharCount][0];
    IsFrameID(f, buf, Comment)
  }

  /**
   * IsTextFrame: the first byte of the current data is 'T'.  A frame
   * carrying a type's ID is a text frame exactly when the type is a text type.
   */
  predicate IsTextFrame(f: Frame, buf: seq<byte>)
    requires HasHeader(f, buf)
    ensures forall t :: IsFrameID(f, buf, t) ==> (IsTextFrame(f, buf) <==> IsTextFrameType(t))
  {
    var d := GetData(f, buf).value;
    assert forall t :: IsFrameID(f, buf, t) ==> d[0] == d[..FrameIdCharCount][0] == GetFrameIDOf(t)[0];
    IsTextFrameID(d)
  }

  /** Allocate(n), n > 1: the frame becomes a replacement of n bytes; newFrame's old prefix is kept, the rest zero. */
  function Allocate(f: Frame, n: nat): (g: Frame)
    requires n > FlaggedForDelete
    ensures g.Replacement? && WellFormed(g) && |g.bytes| == n
    ensures IsDirty(g)
    ensures RawFrame(g) == RawFrame(f)
    ensures forall i :: 0 <= i < n && i < |NewFrame(f)| ==> g.bytes[i] == NewFrame(f)[i]
    ensures forall i :: |NewFrame(f)| <= i < n ==> g.bytes[i] == 0
  {
    Replacement(RawFrame(f), Resize(NewFrame(f), n))
  }

  /** Frame() followed by Allocate(n): a replacement of n zero bytes with no original. */
  function AllocateNew(n: nat): (g: Frame)
    requires n > FlaggedForDelete
    ensures g.Replacement? && RawFrame(g).None? && |g.bytes| == n
    ensures forall i :: 0 <= i < n ==> g.bytes[i] == 0
  {
    Replacement(Option.None, Zeros(n))
  }

  /** IsDirty: newFrame holds a replacement, i.e. its length is neither 0 nor 1. */
  predicate IsDirty(f: Frame)
    ensures WellFormed(f) ==> (IsDirty(f) <==> |NewFrame(f)| > 0 && |NewFrame(f)| != FlaggedForDelete)
  {
    f.Replacement?
  }

  /** FlagToDelete: newFrame is resized to one byte; the original pointer is kept. */
  function FlagToDelete(f: Frame): (g: Frame)
    ensures g.Tombstone? && !IsDirty(g)
    ensures RawFrame(g) == RawFrame(f)
    ensures g.residue == (if |NewFrame(f)| > 0 then NewFrame(f)[0] else 0)
  {
    Tombstone(RawFrame(f), Resize(NewFrame(f), FlaggedForDelete)[0])
  }

  /** The buffer holds the whole header of an original frame. */
  predicate OriginalHeaderFits(f: Frame, buf: seq<byte>)
  {
    f.Original? ==> f.offset + FrameHeaderSize <= |buf|
  }

  /**
   * GetFrameBytes: the header plus the size the header declares, under the
   * file's major version.
   */
  function GetFrameBytes(header: seq<byte>, majorVersion: byte): (n: nat)
    requires |header| >= FrameHeaderSize
    ensures FrameHeaderSize <= n < FrameHeaderSize + Capacity(SizeBits(majorVersion))
  {
    FrameHeaderSize + GetSize(header, majorVersion)
  }

  /** GetWriteBytes: the bytes Write stores for the frame. */
  function GetWriteBytes(f: Frame, buf: seq<byte>, majorVersion: byte): (n: nat)
    requires OriginalHeaderFits(f, buf)
    ensures WellFormed(f) ==> (f.Tombstone? <==> n == 0)
    ensures f.Replacement? ==> n == |f.bytes|
    ensures f.Original? ==> n == FrameHeaderSize + GetSize(buf[f.offset..], majorVersion)
  {
    match f
    case Original(o) => GetFrameBytes(buf[o..], majorVersion)
    case Tombstone(_, _) => 0
    case Replacement(_, b) => |b|
  }

  /** A flagged frame writes nothing, is not dirty, and keeps its original pointer. */
  lemma FlagToDeleteWritesNothing(f: Frame, buf: seq<byte>, majorVersion: byte)
    ensures OriginalHeaderFits(FlagToDelete(f), buf)
    ensures GetWriteBytes(FlagToDelete(f), buf, majorVersion) == 0
    ensures !IsDirty(FlagToDelete(f)) && RawFrame(FlagToDelete(f)) == RawFrame(f)
  {
  }

  // ---------------------------------------------------------------------------
  // The source's own representation and its link to Frame

  /** The pair (rawFrame, newFrame) exactly as the source stores it. */
  datatype FrameRecord = FrameRecord(rawFrame: Option<nat>, newFrame: seq<byte>)

  /** A record the source can hold at rest: an original record has a non-null pointer. */
  predicate RecordWellFormed(r: FrameRecord)
  {
    |r.newFrame| == 0 ==> r.rawFrame.Some?
  }

  /** The state a record is in, decided by the length of newFrame alone. */
  function Abs(r: FrameRecord): (f: Frame)
    requires RecordWellFormed(r)
    ensures WellFormed(f)
  {
    if |r.newFrame| == 0 then Original(r.rawFrame.value)
    else if |r.newFrame| == FlaggedForDelete then Tombstone(r.rawFrame, r.newFrame[0])
    else Replacement(r.rawFrame, r.newFrame)
  }

  /** The record a frame stands for. */
  function Rep(f: Frame): (r: FrameRecord)
    ensures r.rawFrame == RawFrame(f) && r.newFrame == NewFrame(f)
  {
    FrameRecord(RawFrame(f), NewFrame(f))
  }

  /** Frame and FrameRecord describe the same states: each round-trips through the other. */
  lemma AbsRep(f: Frame, r: FrameRecord)
    ensures WellFormed(f) ==> RecordWellFormed(Rep(f)) && Abs(Rep(f)) == f
    ensures RecordWellFormed(r) ==> Rep(Abs(r)) == r
  {
    if RecordWellFormed(r) && |r.newFrame| == FlaggedForDelete {
      assert [r.newFrame[0]] == r.newFrame;
    }
  }

  /** The 0 / 1 / more-than-1 rule: the length of newFrame alone decides the state. */
  lemma KindBySize(r: FrameRecord)
    requires RecordWellFormed(r)
    ensures Abs(r).Original? <==> |r.newFrame| == 0
    ensures Abs(r).Tombstone? <==> |r.newFrame| == FlaggedForDelete
    ensures Abs(r).Replacement? <==> |r.newFrame| > FlaggedForDelete
    ensures RawFrame(Abs(r)) == r.rawFrame
  {
  }

  /** GetData() const as the source writes it: a switch on the length of newFrame. */
  function RecordGetData(r: FrameRecord, buf: seq<byte>): (d: Option<seq<byte>>)
    requires r.rawFrame.Some? ==> r.rawFrame.value <= |buf|
  {
    match |r.newFrame|
    case 0 => if r.rawFrame.Some? then Some(buf[r.rawFrame.value..]) else Option.None
    case 1 => if r.rawFrame.Some? then Some(buf[r.rawFrame.value..]) else Option.None
    case _ => Some(r.newFrame)
  }

  /** GetWriteBytes as the source writes it: a switch on the length of newFrame. */
  function RecordGetWriteBytes(r: FrameRecord, buf: seq<byte>, majorVersion: byte): (n: nat)
    requires |r.newFrame| == 0 ==> r.rawFrame.Some? && r.rawFrame.value + FrameHeaderSize <= |buf|
  {
    match |r.newFrame|
    case 0 => GetFrameBytes(buf[r.rawFrame.value..], majorVersion)
    case 1 => 0
    case _ => |r.newFrame|
  }

  /** IsDirty as the source writes it. */
  predicate RecordIsDirty(r: FrameRecord)
  {
    |r.newFrame| > 0 && |r.newFrame| != FlaggedForDelete
  }

  /** Allocate and FlagToDelete as the source writes them: a resize of newFrame. */
  function RecordAllocate(r: FrameRecord, n: nat): (r': FrameRecord)
  {
    FrameRecord(r.rawFrame, Resize(r.newFrame, n))
  }

  function RecordFlagToDelete(r: FrameRecord): (r': FrameRecord)
  {
    FrameRecord(r.rawFrame, Resize(r.newFrame, FlaggedForDelete))
  }

  /** The queries on Frame answer exactly what the source's switches answer. */
  lemma QueriesAgree(r: FrameRecord, buf: seq<byte>, majorVersion: byte)
    requires RecordWellFormed(r)
    requires r.rawFrame.Some? ==> r.rawFrame.value <= |buf|
    ensures GetData(Abs(r), buf) == RecordGetData(r, buf)
    ensures IsDirty(Abs(r)) == RecordIsDirty(r)
    ensures OriginalHeaderFits(Abs(r), buf) && (|r.newFrame| == 0 ==> r.rawFrame.value + FrameHeaderSize <= |buf|) ==>
      GetWriteBytes(Abs(r), buf, majorVersion) == RecordGetWriteBytes(r, buf, majorVersion)
  {
  }

  /** Allocate and FlagToDelete on Frame do what the resizes do to the record. */
  lemma UpdatesAgree(r: FrameRecord, n: nat)
    requires RecordWellFormed(r)
    ensures n > FlaggedForDelete ==> RecordWellFormed(RecordAllocate(r, n)) && Abs(RecordAllocate(r, n)) == Allocate(Abs(r), n)
    ensures RecordWellFormed(RecordFlagToDelete(r)) && Abs(RecordFlagToDelete(r)) == FlagToDelete(Abs(r))
  {
    AbsRep(Abs(r), r);
  }

  /** Frame() followed by Allocate(n) is the record (null, n zero bytes). */
  lemma AllocateNewAgrees(n: nat)
    requires n > FlaggedForDelete
    ensures RecordWellFormed(RecordAllocate(FrameRecord(Option.None, []), n))
    ensures Abs(RecordAllocate(FrameRecord(Option.None, []), n)) == AllocateNew(n)
  {
  }
}
