/**
 * The walk over the frame section that ParseFrame / ParseFrames perform,
 * and the text and comment index lists built after it.
 *
 * The walk starts at offset 0 and, at each offset, either stops or records an
 * original frame there and moves past it by 10 + the size its header
 * declares.  The guard of the source only checks that the offset is inside
 * the buffer; `NextFrame` also requires the header and the declared body to
 * lie inside it (see `ParseFrameAsWritten` for the guard as written).
 */
module FrameParse {
  import opened Bytes
  import opened ID3v2Frames
  import opened Mp3BaseTagData
  import opened TagFrame

  /** A frame starts at `offset`: its header is in the buffer, IsValidFrame accepts it, and its body ends in the buffer. */
  predicate FrameStartsAt(buf: seq<byte>, offset: nat, majorVersion: byte)
  {
    offset + FrameHeaderSize <= |buf|
    && IsValidFrame(Some(buf[offset..]))
    && offset + GetFrameBytes(buf[offset..], majorVersion) <= |buf|
  }

  /** ParseFrame with the bounds checks: the offset after the frame at `offset`, or None when the walk stops. */
  function NextFrame(buf: seq<byte>, offset: nat, majorVersion: byte): (next: Option<nat>)
    ensures next.Some? <==> FrameStartsAt(buf, offset, majorVersion)
    ensures next.Some? ==> next.value == offset + GetFrameBytes(buf[offset..], majorVersion)
    ensures next.Some? ==> offset + FrameHeaderSize <= next.value <= |buf|
  {
    if offset >= |buf| then Option.None
    else if offset + FrameHeaderSize > |buf| then Option.None
    else if !IsValidFrame(Some(buf[offset..])) then Option.None
    else
      var next := offset + GetFrameBytes(buf[offset..], majorVersion);
      if next > |buf| then Option.None else Some(next)
  }

  /**
   * The frames ParseFrames appends, starting the walk at `offset`: one
   * original frame per offset visited.
   */
  function FrameList(buf: seq<byte>, offset: nat, majorVersion: byte): (frames: seq<Frame>)
    decreases |buf| - offset
  {
    match NextFrame(buf, offset, majorVersion)
    case None => []
    case Some(next) => [Original(offset)] + FrameList(buf, next, majorVersion)
  }

  /**
   * The walk visits increasing offsets, each a frame start, each frame
   * starting where the previous one ends.
   */
  lemma {:induction false} FrameListWalk(buf: seq<byte>, offset: nat, majorVersion: byte)
    ensures var frames := FrameList(buf, offset, majorVersion);
      (forall i :: 0 <= i < |frames| ==>
        frames[i].Original? && offset <= frames[i].offset && FrameStartsAt(buf, frames[i].offset, majorVersion))
      && (|frames| > 0 ==> frames[0].offset == offset)
      && (forall i :: 0 <= i < |frames| - 1 ==>
        frames[i + 1].offset == frames[i].offset + GetFrameBytes(buf[frames[i].offset..], majorVersion))
      && (forall i, j :: 0 <= i < j < |frames| ==> frames[i].offset < frames[j].offset)
    decreases |buf| - offset
  {
    match NextFrame(buf, offset, majorVersion)
    case None =>
    case Some(next) =>
      FrameListWalk(buf, next, majorVersion);
      var rest := FrameList(buf, next, majorVersion);
      assert FrameList(buf, offset, majorVersion) == [Original(offset)] + rest;
  }

  /** The offset where the walk stops. */
  function StopOffset(buf: seq<byte>, offset: nat, majorVersion: byte): (stop: nat)
    ensures offset <= stop
    ensures offset <= |buf| ==> stop <= |buf|
    ensures !FrameStartsAt(buf, stop, majorVersion)
    decreases |buf| - offset
  {
    match NextFrame(buf, offset, majorVersion)
    case None => offset
    case Some(next) => StopOffset(buf, next, majorVersion)
  }

  /** The walk covers the buffer from `offset` to where it stops: the frames' sizes add up to that span. */
  lemma {:induction false} FrameListCoversSpan(buf: seq<byte>, offset: nat, majorVersion: byte)
    ensures var frames := FrameList(buf, offset, majorVersion);
      |frames| > 0 ==> (frames[|frames| - 1].Original? && frames[|frames| - 1].offset + FrameHeaderSize <= |buf|
        && StopOffset(buf, offset, majorVersion) ==
          frames[|frames| - 1].offset + GetFrameBytes(buf[frames[|frames| - 1].offset..], majorVersion))
    ensures FrameList(buf, offset, majorVersion) == [] <==> StopOffset(buf, offset, majorVersion) == offset
    decreases |buf| - offset
  {
    match NextFrame(buf, offset, majorVersion)
    case None =>
    case Some(next) =>
      FrameListCoversSpan(buf, next, majorVersion);
      var rest := FrameList(buf, next, majorVersion);
      assert FrameList(buf, offset, majorVersion) == [Original(offset)] + rest;
  }

  /** Every frame the walk records has a whole header in the buffer. */
  lemma FrameListHasHeaders(buf: seq<byte>, majorVersion: byte)
    ensures forall i :: 0 <= i < |FrameList(buf, 0, majorVersion)| ==>
      FrameList(buf, 0, majorVersion)[i].Original? && HasHeader(FrameList(buf, 0, majorVersion)[i], buf)
  {
    FrameListWalk(buf, 0, majorVersion);
  }

  // ---------------------------------------------------------------------------
  // ParseFrame as written

  /**
   * ParseFrame as the source writes it.  The only guard is `offset <
   * frameBuffer_.size()`, so the four ID bytes and the six header bytes that
   * follow may be read from past the end of the buffer: `beyond` stands for
   * whatever memory follows it.  The offset is a uint32_t, and adding the
   * frame's length to it wraps modulo 2^32.
   */
  function ParseFrameAsWritten(buf: seq<byte>, beyond: seq<byte>, offset: nat, majorVersion: byte): (next: Option<nat>)
    requires offset < U32Limit
    requires offset < |buf| ==> offset + FrameHeaderSize <= |buf| + |beyond|
    ensures next.Some? ==> next.value < U32Limit
  {
    if offset >= |buf| then Option.None
    else
      var memory := buf + beyond;
      if !IsValidFrame(Some(memory[offset..])) then Option.None
      else Some((offset + GetFrameBytes(memory[offset..], majorVersion) % U32Limit) % U32Limit)
  }

  /** Where the header and body lie inside a buffer shorter than 2^32, the guard as written decides as NextFrame does. */
  lemma AsWrittenAgreesWhenFrameFits(buf: seq<byte>, beyond: seq<byte>, offset: nat, majorVersion: byte)
    requires |buf| < U32Limit
    requires offset + FrameHeaderSize <= |buf|
    requires offset + GetFrameBytes(buf[offset..], majorVersion) <= |buf|
    ensures ParseFrameAsWritten(buf, beyond, offset, majorVersion) == NextFrame(buf, offset, majorVersion)
  {
    var memory := buf + beyond;
    assert memory[offset..][0] == buf[offset..][0];
    assert memory[offset..][..FrameIdCharCount] == buf[offset..][..FrameIdCharCount];
    assert memory[offset..][4..8] == buf[offset..][4..8];
    var n := GetFrameBytes(buf[offset..], majorVersion);
    assert GetFrameBytes(memory[offset..], majorVersion) == n;
    assert n % U32Limit == n;
    assert (offset + n) % U32Limit == offset + n;
  }

  /** The four-byte buffer "TIT2": the guard as written accepts a frame whose header runs six bytes past the buffer. */
  lemma AsWrittenReadsPastBuffer()
    ensures var buf := Id4("TIT2");
      ParseFrameAsWritten(buf, Zeros(6), 0, 4) == Some(FrameHeaderSize)
      && |buf| < FrameHeaderSize
      && NextFrame(buf, 0, 4) == Option.None
  {
    var buf := Id4("TIT2");
    var memory := buf + Zeros(6);
    TableIdsAreValid(Title);
    assert memory[0..][..FrameIdCharCount] == GetFrameIDOf(Title);
    assert memory[0..][4..8] == [0, 0, 0, 0];
  }

  /**
   * A ten-byte buffer holding a version-3 header "TIT2" that declares a
   * 5-byte body, as a file cut short after the header leaves it: the guard as
   * written accepts the frame, whose body runs five bytes past the buffer,
   * and the walk then stops at offset 15; NextFrame rejects the frame, so the
   * walk records no frame at all.
   */
  lemma AsWrittenKeepsTruncatedBody()
    ensures var buf := Id4("TIT2") + [0, 0, 0, 5, 0, 0];
      ParseFrameAsWritten(buf, [], 0, 3) == Some(15)
      && ParseFrameAsWritten(buf, [], 15, 3) == Option.None
      && NextFrame(buf, 0, 3) == Option.None
      && FrameList(buf, 0, 3) == []
  {
    var buf := Id4("TIT2") + [0, 0, 0, 5, 0, 0];
    TableIdsAreValid(Title);
    assert (buf + [])[0..][..FrameIdCharCount] == GetFrameIDOf(Title);
    assert (buf + [])[0..][4..8] == [0, 0, 0, 5];
    assert GetSize((buf + [])[0..], 3) == 5;
  }

  /**
   * A version-3 frame "TIT2" declaring size 0xFFFFFFF6: the offset as written
   * comes back to 0 (10 + 0xFFFFFFF6 is 2^32), so ParseFrames would visit
   * the same frame forever; NextFrame rejects it because its body does not fit.
   */
  lemma AsWrittenOffsetWraps()
    ensures var buf := Id4("TIT2") + [0xFF, 0xFF, 0xFF, 0xF6, 0, 0];
      ParseFrameAsWritten(buf, [], 0, 3) == Some(0)
      && NextFrame(buf, 0, 3) == Option.None
  {
    var buf := Id4("TIT2") + [0xFF, 0xFF, 0xFF, 0xF6, 0, 0];
    TableIdsAreValid(Title);
    assert (buf + [])[0..][..FrameIdCharCount] == GetFrameIDOf(Title);
    assert (buf + [])[0..][4..8] == [0xFF, 0xFF, 0xFF, 0xF6];
    assert GetSize((buf + [])[0..], 3) == 0xFFFF_FFF6;
  }

  // ---------------------------------------------------------------------------
  // The index lists

  /** Which sub-list: textFrames_ or commentFrames_. */
  datatype IndexKind = TextIndex | CommentIndex

  /** The frames a list holds: those starting with 'T', or those with ID "COMM". */
  predicate OfKind(kind: IndexKind, f: Frame, buf: seq<byte>)
    requires HasHeader(f, buf)
  {
    match kind
    case TextIndex => IsTextFrame(f, buf)
    case CommentIndex => IsCommentFrame(f, buf)
  }

  /** The positions below `n` whose frame is of the kind, in increasing order. */
  function IndexPositions(kind: IndexKind, frames: seq<Frame>, buf: seq<byte>, n: nat): (idx: seq<nat>)
    requires n <= |frames|
    requires forall i :: 0 <= i < n ==> HasHeader(frames[i], buf)
    ensures forall k :: 0 <= k < |idx| ==> idx[k] < n
    ensures StrictlyIncreasing(idx)
    ensures forall p :: 0 <= p < n ==> (p in idx <==> OfKind(kind, frames[p], buf))
  {
    if n == 0 then []
    else IndexPositions(kind, frames, buf, n - 1) + (if OfKind(kind, frames[n - 1], buf) then [n - 1] else [])
  }

  /** One more position: the list grows by that position exactly when its frame is of the kind. */
  lemma IndexPositionsStep(kind: IndexKind, frames: seq<Frame>, buf: seq<byte>, n: nat)
    requires n < |frames|
    requires forall i :: 0 <= i < |frames| ==> HasHeader(frames[i], buf)
    ensures IndexPositions(kind, frames, buf, n + 1) ==
      IndexPositions(kind, frames, buf, n) + (if OfKind(kind, frames[n], buf) then [n] else [])
  {
  }
}
