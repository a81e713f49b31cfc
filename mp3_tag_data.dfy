/**
 * Mp3TagData: the tag of one MP3 file held in memory.  The object keeps the
 * file header, the frame section as read, the list of frames (each original,
 * flagged for deletion or replaced), the positions of the text and comment
 * frames in that list, and a dirty flag.  Its methods change these fields in
 * place; each is proved to end in the state the function of the same
 * operation in TagModel describes, and the lemmas there say what that means.
 *
 * The file on disk is a parameter: LoadTagData is given the file's bytes and
 * Write is given them and returns the bytes it leaves.
 */
module Mp3Tag {
  import opened Bytes
  import opened ID3v2Frames
  import opened Mp3BaseTagData
  import opened TagFrame
  import opened ID3v2FileHeader
  import opened FrameParse
  import opened TagLayout
  import opened TagModel

  class Mp3TagData {
    var fileHeader: FileHeader
    var audioBufferOffset: nat
    var frameBuffer: seq<byte>
    var frames: seq<Frame>
    var textFrames: seq<nat>
    var commentFrames: seq<nat>
    var isDirty: bool

    /** The fields as one value. */
    function State(): (st: TagState)
      reads this
    {
      TagState(fileHeader, audioBufferOffset, frameBuffer, frames, textFrames, commentFrames, isDirty)
    }

    ghost predicate Valid()
      reads this
    {
      StateValid(State())
    }

    constructor()
      ensures State() == InitialState() && Valid()
    {
      fileHeader := EmptyHeader();
      audioBufferOffset := 0;
      frameBuffer := [];
      frames := [];
      textFrames := [];
      commentFrames := [];
      isDirty := false;
    }

    /**
     * LoadTagData over the file's bytes: clear everything, read the header,
     * and when it is valid read the frame section (fewer bytes when the file
     * ends first), set the audio offset after it and parse the frames.
     */
    method LoadTagData(file: seq<byte>) returns (ok: bool)
      requires CanLoad(State())
      modifies this
      ensures ok == LoadSucceeds(file)
      ensures State() == Loaded(old(State()), file) && Valid()
    {
      ghost var st := State();
      frameBuffer, frames, textFrames, commentFrames, isDirty := [], [], [], [], false;
      if |file| < FileHeaderSize {
        LoadedValid(st, file);
        return false;
      }
      var header := ReadFileHeader(file[..FileHeaderSize]);
      fileHeader := header;
      if !IsValidFileHeader(header) {
        LoadedValid(st, file);
        return false;
      }
      var frameSectionSize := ReadID3Int(7, header.syncSafeSize);
      var bytesRead := if FileHeaderSize + frameSectionSize <= |file| then frameSectionSize else |file| - FileHeaderSize;
      audioBufferOffset, frameBuffer := FileHeaderSize + frameSectionSize, file[FileHeaderSize..FileHeaderSize + bytesRead];
      assert frameBuffer == LoadedBuffer(file, FrameSectionSize(header));
      ParseFrames();
      assert State() == ParsedState(header, frameBuffer);
      LoadedValid(st, file);
      return true;
    }

    /**
     * ParseFrame: when a frame starts at `offset`, append it and return the
     * offset after it; otherwise report that no frames remain.
     */
    method ParseFrame(offset: nat) returns (more: bool, next: nat)
      modifies this
      ensures more <==> FrameStartsAt(frameBuffer, offset, fileHeader.majorVersion)
      ensures more ==> frames == old(frames) + [Original(offset)] && next == NextFrame(frameBuffer, offset, fileHeader.majorVersion).value
      ensures !more ==> frames == old(frames) && next == offset
      ensures fileHeader == old(fileHeader) && audioBufferOffset == old(audioBufferOffset) && frameBuffer == old(frameBuffer)
      ensures textFrames == old(textFrames) && commentFrames == old(commentFrames) && isDirty == old(isDirty)
    {
      match NextFrame(frameBuffer, offset, fileHeader.majorVersion)
      case None =>
        more, next := false, offset;
      case Some(n) =>
        frames := frames + [Original(offset)];
        more, next := true, n;
    }

    /**
     * ParseFrames: walk the section appending every frame, then list the
     * positions of the text frames and of the comment frames.
     */
    method ParseFrames()
      requires frames == [] && textFrames == [] && commentFrames == []
      modifies this
      ensures frames == FrameList(frameBuffer, 0, fileHeader.majorVersion)
      ensures forall i :: 0 <= i < |frames| ==> HasHeader(frames[i], frameBuffer)
      ensures textFrames == IndexPositions(TextIndex, frames, frameBuffer, |frames|)
      ensures commentFrames == IndexPositions(CommentIndex, frames, frameBuffer, |frames|)
      ensures fileHeader == old(fileHeader) && audioBufferOffset == old(audioBufferOffset)
      ensures frameBuffer == old(frameBuffer) && isDirty == old(isDirty)
    {
      var buf := frameBuffer;
      var majorVersion := fileHeader.majorVersion;
      WalkFrames();
      var found := frames;
      FrameListHasHeaders(buf, majorVersion);
      var text, comments := IndexFrames(found, buf);
      textFrames, commentFrames := text, comments;
    }

    /** The loop of ParseFrames: ParseFrame at offset 0, then at each offset it returns, until it reports no frame. */
    method WalkFrames()
      requires frames == []
      modifies this
      ensures frames == FrameList(frameBuffer, 0, fileHeader.majorVersion)
      ensures fileHeader == old(fileHeader) && audioBufferOffset == old(audioBufferOffset) && frameBuffer == old(frameBuffer)
      ensures textFrames == old(textFrames) && commentFrames == old(commentFrames) && isDirty == old(isDirty)
    {
      var buf := frameBuffer;
      var majorVersion := fileHeader.majorVersion;
      ghost var all := FrameList(buf, 0, majorVersion);
      var offset: nat := 0;
      var framesRemain := true;
      while framesRemain
        invariant fileHeader == old(fileHeader) && audioBufferOffset == old(audioBufferOffset) && frameBuffer == buf
        invariant textFrames == old(textFrames) && commentFrames == old(commentFrames) && isDirty == old(isDirty)
        invariant offset <= |buf|
        invariant framesRemain ==> frames + FrameList(buf, offset, majorVersion) == all
        invariant !framesRemain ==> frames == all
        decreases if framesRemain then |buf| - offset + 1 else 0
      {
        ghost var prev := offset;
        ghost var rest := FrameList(buf, offset, majorVersion);
        framesRemain, offset := ParseFrame(offset);
        if framesRemain {
          assert rest == [Original(prev)] + FrameList(buf, offset, majorVersion);
        } else {
          assert rest == [];
        }
      }
    }

    /**
     * DeleteTextFrame: flag the first listed frame of the type for deletion
     * and erase its position from the text list; nothing when there is none.
     */
    method DeleteTextFrame(t: Mp3FrameType)
      requires Valid()
      modifies this
      ensures State() == TextDeleted(old(State()), t) && Valid()
    {
      ghost var st := State();
      TextDeletedValid(st, t);
      var framePos := TextPos(State(), t);
      if framePos.None? {
        return;
      }
      var p := framePos.value;
      var list := EraseValue(textFrames, p);
      TextDeletedAt(st, t, p);
      frames, textFrames, isDirty := frames[p := FlagToDelete(frames[p])], list, true;
      assert State() == TagState(st.fileHeader, st.audioBufferOffset, st.frameBuffer,
        st.frames[p := FlagToDelete(st.frames[p])], list, st.commentFrames, true);
    }

    /**
     * DeleteCommentFrame(i): flag the i-th listed comment frame for deletion
     * and erase its position from the comment list; nothing when i is out of range.
     */
    method DeleteCommentFrame(i: nat)
      requires Valid()
      modifies this
      ensures State() == CommentDeleted(old(State()), i) && Valid()
    {
      ghost var st := State();
      CommentDeletedValid(st, i);
      if i >= |commentFrames| {
        return;
      }
      var p := commentFrames[i];
      var list := EraseValue(commentFrames, p);
      CommentDeletedAt(st, i, p);
      frames, commentFrames, isDirty := frames[p := FlagToDelete(frames[p])], list, true;
      assert State() == TagState(st.fileHeader, st.audioBufferOffset, st.frameBuffer,
        st.frames[p := FlagToDelete(st.frames[p])], st.textFrames, list, true);
    }

    /**
     * SetText: an empty text deletes the frame; otherwise the first listed
     * frame of the type, or a new frame appended to both lists, is allocated
     * at the text frame's size and filled with the header and the text.
     */
    method SetText(t: Mp3FrameType, text: seq<byte>)
      requires Valid() && IsTextFrameType(t) && TextFixedSizeFits(text)
      modifies this
      ensures State() == TextSet(old(State()), t, text) && Valid()
    {
      if text == [] {
        DeleteTextFrame(t);
        return;
      }
      var framePos := TextPos(State(), t);
      if framePos.None? {
        AppendTextFrame(t, text);
      } else {
        ReplaceTextFrame(framePos.value, t, text);
      }
    }

    /** SetText's branch for a type with no frame yet: a new frame is appended to the frames and to the text list. */
    method AppendTextFrame(t: Mp3FrameType, text: seq<byte>)
      requires Valid() && IsTextFrameType(t) && TextFixedSizeFits(text) && text != []
      requires TextPos(State(), t).None?
      modifies this
      ensures State() == TextSet(old(State()), t, text) && Valid()
    {
      ghost var st := State();
      var g := BuildTextFrame(AllocateNew(ComputeTextFrameSize(text)), t, text, fileHeader.majorVersion);
      TextSetAppended(st, t, text, g);
      frames, textFrames, isDirty := frames + [g], textFrames + [|frames|], true;
      assert State() == TagState(st.fileHeader, st.audioBufferOffset, st.frameBuffer,
        st.frames + [g], st.textFrames + [|st.frames|], st.commentFrames, true);
      TextSetValid(st, t, text);
    }

    /** SetText's branch for the listed frame at position `p`: it is reallocated and refilled in place. */
    method ReplaceTextFrame(p: nat, t: Mp3FrameType, text: seq<byte>)
      requires Valid() && IsTextFrameType(t) && TextFixedSizeFits(text) && text != []
      requires TextPos(State(), t) == Some(p)
      modifies this
      ensures State() == TextSet(old(State()), t, text) && Valid()
    {
      ghost var st := State();
      var g := BuildTextFrame(Allocate(frames[p], ComputeTextFrameSize(text)), t, text, fileHeader.majorVersion);
      TextSetReplaced(st, t, text, p, g);
      frames, isDirty := frames[p := g], true;
      assert State() == TagState(st.fileHeader, st.audioBufferOffset, st.frameBuffer,
        st.frames[p := g], st.textFrames, st.commentFrames, true);
      TextSetValid(st, t, text);
    }

    /** Copy the allocated frame into an array of its size and fill it as a text frame of type `t`. */
    method BuildTextFrame(g0: Frame, t: Mp3FrameType, text: seq<byte>, majorVersion: byte) returns (g: Frame)
      requires g0.Replacement? && IsTextFrameType(t) && TextFixedSizeFits(text)
      requires |g0.bytes| == ComputeTextFrameSize(text)
      ensures g == Replacement(RawFrame(g0), TextFrameImage(GetFrameIDOf(t), text, majorVersion))
    {
      var frame := new byte[|g0.bytes|](j requires 0 <= j < |g0.bytes| => g0.bytes[j]);
      FillTextFrame(frame, GetFrameIDOf(t), text, majorVersion);
      g := Replacement(RawFrame(g0), frame[..]);
    }

    /**
     * SetComment(i): an empty text deletes the i-th comment; otherwise the
     * i-th listed comment frame, or a new frame appended to both lists when i
     * is the count, is allocated at the comment frame's size and filled.
     */
    method SetComment(i: nat, text: seq<byte>)
      requires Valid() && (text != [] ==> i <= CommentCount(State())) && CommentFixedSizeFits(text)
      modifies this
      ensures State() == CommentSet(old(State()), i, text) && Valid()
    {
      if text == [] {
        DeleteCommentFrame(i);
        return;
      }
      ghost var st := State();
      var majorVersion := fileHeader.majorVersion;
      if i == |commentFrames| {
        var g := BuildCommentFrame(AllocateNew(ComputeCommentFrameSize(text)), text, majorVersion);
        frames, commentFrames := frames + [g], commentFrames + [|frames|];
      } else {
        var p := commentFrames[i];
        var g := BuildCommentFrame(Allocate(frames[p], ComputeCommentFrameSize(text)), text, majorVersion);
        frames := frames[p := g];
      }
      isDirty := true;
      CommentSetValid(st, i, text);
    }

    /** Copy the allocated frame into an array of its size and fill it as a comment frame. */
    method BuildCommentFrame(g0: Frame, text: seq<byte>, majorVersion: byte) returns (g: Frame)
      requires g0.Replacement? && CommentFixedSizeFits(text)
      requires |g0.bytes| == ComputeCommentFrameSize(text)
      ensures g == Replacement(RawFrame(g0), CommentFrameImage(GetFrameIDOf(Comment), text, majorVersion))
    {
      var frame := new byte[|g0.bytes|](j requires 0 <= j < |g0.bytes| => g0.bytes[j]);
      FillCommentFrame(frame, GetFrameIDOf(Comment), text, majorVersion);
      g := Replacement(RawFrame(g0), frame[..]);
    }

    /**
     * WriteFrameSize: a frame size in the stored form of this tag's version,
     * plain big-endian for version 3 and sync-safe otherwise; reading it back
     * in the same form gives the size, modulo 2^28 when sync-safe.
     */
    function WriteFrameSize(frameSize: nat): (raw: seq<byte>)
      reads this
      requires frameSize < U32Limit
      ensures |raw| == 4
      ensures ReadID3Int(SizeBits(fileHeader.majorVersion), raw) == frameSize % Capacity(SizeBits(fileHeader.majorVersion))
    {
      var k := SizeBits(fileHeader.majorVersion);
      ReadWriteID3Int(k, frameSize);
      WriteID3Int(k, frameSize)
    }

    /**
     * Write over `disk`, the file's bytes: nothing when no frame changed;
     * otherwise add up the frames' write sizes, choose the padding, store the
     * new section size in the header, lay out the header, the frames, the
     * zeros and the audio from the end of the old tag on, and reload the
     * result.  Returns LoadTagData's result and the bytes left on disk.
     */
    method Write(disk: seq<byte>) returns (ok: bool, file: seq<byte>)
      requires Valid() && |disk| >= FileHeaderSize + |frameBuffer|
      modifies this
      ensures WriteOutcome(ok, State(), file) == Written(old(State()), disk)
      ensures Valid()
    {
      if !isDirty {
        return false, disk;
      }
      ghost var st := State();
      var header;
      header, file := RewriteFile(fileHeader, frames, frameBuffer, disk);
      WriteStep(st, disk, file);
      fileHeader := header;
      ghost var beforeLoad := State();
      ok := LoadTagData(file);
      LoadedIgnoresHeader(st, beforeLoad, file);
    }
  }

  /** std::ranges::find followed by vector::erase: the first entry equal to `p` is removed, if there is one. */
  method EraseValue(list: seq<nat>, p: nat) returns (list': seq<nat>)
    ensures list' == EraseFound(list, Find(list, p))
  {
    var pos := Find(list, p);
    list' := list;
    if pos < |list| {
      list' := list[..pos] + list[pos + 1..];
    }
  }

  /**
   * The header and the file Write stores: the frames' sizes added up, the
   * padding chosen, the section size stored in the header, and the header,
   * frames, zeros and the audio from the end of the old tag laid out.
   */
  method RewriteFile(h: FileHeader, frames: seq<Frame>, buf: seq<byte>, disk: seq<byte>) returns (header: FileHeader, file: seq<byte>)
    requires WellFormedHeader(h) && FramesFit(frames, buf, h.majorVersion) && |disk| >= FileHeaderSize + |buf|
    ensures header == NewHeader(h, SectionSize(frames, buf, h.majorVersion), |buf|)
    ensures file == RewrittenImage(h, SectionImage(frames, buf, h.majorVersion), |buf|, disk)
  {
    var frameSectionSize, section := WriteFrames(frames, buf, h.majorVersion);
    header, file := LayOutFile(h, section, |buf|, disk);
  }

  /**
   * The second half of Write: choose the padding, store the section size in
   * the header, and lay out the header, the frames' bytes, the zeros and the
   * audio from the end of the old tag.
   */
  method LayOutFile(h: FileHeader, section: seq<byte>, oldSize: nat, disk: seq<byte>) returns (header: FileHeader, file: seq<byte>)
    requires WellFormedHeader(h) && |disk| >= FileHeaderSize + oldSize
    ensures header == NewHeader(h, |section|, oldSize)
    ensures file == RewrittenImage(h, section, oldSize, disk)
  {
    var padBytes := PadBytes(|section|, oldSize);
    header := WithSectionSize(h, |section| + padBytes);
    var rest := disk[FileHeaderSize + oldSize..];
    file := WriteFileHeader(header) + section + Zeros(padBytes) + rest;
    RewrittenImageIs(h, section, oldSize, disk, header, padBytes);
  }

  /**
   * The fold of GetWriteBytes over the frames, and the bytes the frames
   * write one after the other; a frame flagged for deletion writes nothing.
   */
  method WriteFrames(frames: seq<Frame>, buf: seq<byte>, majorVersion: byte) returns (size: nat, section: seq<byte>)
    requires FramesFit(frames, buf, majorVersion)
    ensures size == SectionSize(frames, buf, majorVersion)
    ensures section == SectionImage(frames, buf, majorVersion)
  {
    size := 0;
    for i := 0 to |frames|
      invariant FramesFit(frames[..i], buf, majorVersion)
      invariant size == SectionSize(frames[..i], buf, majorVersion)
    {
      SectionStep(frames, buf, majorVersion, i);
      size := size + GetWriteBytes(frames[i], buf, majorVersion);
    }
    section := [];
    for i := 0 to |frames|
      invariant FramesFit(frames[..i], buf, majorVersion)
      invariant section == SectionImage(frames[..i], buf, majorVersion)
    {
      SectionStep(frames, buf, majorVersion, i);
      if GetWriteBytes(frames[i], buf, majorVersion) != 0 {
        section := section + FrameWriteData(frames[i], buf, majorVersion);
      }
    }
    assert frames[..|frames|] == frames;
  }

  /**
   * The index loop of ParseFrames: the positions of the text frames and of
   * the comment frames, in list order.
   */
  method IndexFrames(frames: seq<Frame>, buf: seq<byte>) returns (text: seq<nat>, comments: seq<nat>)
    requires forall i :: 0 <= i < |frames| ==> HasHeader(frames[i], buf)
    ensures text == IndexPositions(TextIndex, frames, buf, |frames|)
    ensures comments == IndexPositions(CommentIndex, frames, buf, |frames|)
  {
    text, comments := [], [];
    for i := 0 to |frames|
      invariant text == IndexPositions(TextIndex, frames, buf, i)
      invariant comments == IndexPositions(CommentIndex, frames, buf, i)
    {
      IndexPositionsStep(TextIndex, frames, buf, i);
      IndexPositionsStep(CommentIndex, frames, buf, i);
      if IsTextFrame(frames[i], buf) {
        text := text + [i];
      } else if IsCommentFrame(frames[i], buf) {
        comments := comments + [i];
      }
    }
  }
}
