/**
 * The member state of Mp3TagData as a value, and what each of its operations
 * does to that state.  The class in mp3_tag_data.dfy changes its fields step
 * by step; each of its methods is proved to end in the state the function of
 * the same operation here describes, and the lemmas here prove what the
 * operations promise: the lists stay consistent, a text or comment that was
 * set reads back, nothing else changes, a deleted comment shifts the later
 * ones down, and Write keeps the audio intact.
 */
module TagModel {
  import opened Bytes
  import opened ID3v2Frames
  import opened Mp3BaseTagData
  import opened TagFrame
  import opened ID3v2FileHeader
  import opened FrameParse
  import opened TagLayout

  /** fileHeader_, audioBufferOffset_, frameBuffer_, frames_, textFrames_, commentFrames_, isDirty_. */
  datatype TagState = TagState(
    fileHeader: FileHeader,
    audioBufferOffset: nat,
    frameBuffer: seq<byte>,
    frames: seq<Frame>,
    textFrames: seq<nat>,
    commentFrames: seq<nat>,
    isDirty: bool)

  function Version(st: TagState): (majorVersion: byte)
  {
    st.fileHeader.majorVersion
  }

  /**
   * The invariant every operation keeps: the header has its layout, the
   * offsets fit their fields, every frame fits the buffer, both index lists
   * are consistent and the dirty flag says whether anything changed.
   */
  predicate StateValid(st: TagState)
  {
    WellFormedHeader(st.fileHeader)
    && st.audioBufferOffset < U32Limit
    && |st.frameBuffer| < 0x1000_0000
    && FramesFit(st.frames, st.frameBuffer, Version(st))
    && IndexValid(TextIndex, st.frames, st.frameBuffer, Version(st), st.textFrames)
    && IndexValid(CommentIndex, st.frames, st.frameBuffer, Version(st), st.commentFrames)
    && DirtyMatches(st.frames, st.isDirty)
  }

  /** A default-constructed Mp3TagData. */
  function InitialState(): (st: TagState)
    ensures StateValid(st) && !st.isDirty && st.frames == []
  {
    TagState(EmptyHeader(), 0, [], [], [], [], false)
  }

  // ---------------------------------------------------------------------------
  // LoadTagData

  /** The file holds a whole header and IsValidFileHeader accepts it. */
  predicate LoadSucceeds(file: seq<byte>)
  {
    |file| >= FileHeaderSize && IsValidFileHeader(ReadFileHeader(file[..FileHeaderSize]))
  }

  /** The frame section LoadTagData reads: the declared size, or fewer bytes when the file ends first. */
  function LoadedBuffer(file: seq<byte>, size: nat): (buf: seq<byte>)
    requires |file| >= FileHeaderSize
    ensures |buf| <= size && FileHeaderSize + |buf| <= |file|
    ensures buf == file[FileHeaderSize..FileHeaderSize + |buf|]
    ensures |buf| < size ==> FileHeaderSize + |buf| == |file|
  {
    if FileHeaderSize + size <= |file| then file[FileHeaderSize..FileHeaderSize + size] else file[FileHeaderSize..]
  }

  /**
   * The state after LoadTagData(file): the lists are cleared and the header
   * read when the file has one; when the header is valid the frame section
   * is read, walked and indexed, and the audio offset set after it.
   */
  function Loaded(st: TagState, file: seq<byte>): (st': TagState)
    requires WellFormedHeader(st.fileHeader)
    ensures !st'.isDirty && WellFormedHeader(st'.fileHeader)
    ensures |file| >= FileHeaderSize ==> st'.fileHeader == ReadFileHeader(file[..FileHeaderSize])
    ensures !LoadSucceeds(file) ==>
      st'.frameBuffer == [] && st'.frames == [] && st'.textFrames == [] && st'.commentFrames == []
      && st'.audioBufferOffset == st.audioBufferOffset
    ensures LoadSucceeds(file) ==>
      st'.audioBufferOffset == FileHeaderSize + FrameSectionSize(st'.fileHeader)
      && st'.frameBuffer == LoadedBuffer(file, FrameSectionSize(st'.fileHeader))
      && st'.frames == FrameList(st'.frameBuffer, 0, st'.fileHeader.majorVersion)
  {
    var h := if |file| >= FileHeaderSize then ReadFileHeader(file[..FileHeaderSize]) else st.fileHeader;
    if !LoadSucceeds(file) then TagState(h, st.audioBufferOffset, [], [], [], [], false)
    else ParsedState(h, LoadedBuffer(file, FrameSectionSize(h)))
  }

  /** The state once the section `buf` under header `h` has been walked and indexed. */
  function ParsedState(h: FileHeader, buf: seq<byte>): (st': TagState)
    requires WellFormedHeader(h)
    ensures st'.fileHeader == h && st'.frameBuffer == buf && !st'.isDirty
  {
    var frames := FrameList(buf, 0, h.majorVersion);
    FrameListHasHeaders(buf, h.majorVersion);
    TagState(h, AudioBufferOffset(h), buf, frames,
             IndexPositions(TextIndex, frames, buf, |frames|), IndexPositions(CommentIndex, frames, buf, |frames|), false)
  }

  /**
   * What loading needs of the state before it: a header of the declared
   * shape, and an audio offset that fits a uint32_t, since a failed load
   * keeps it.
   */
  predicate CanLoad(st: TagState)
  {
    WellFormedHeader(st.fileHeader) && st.audioBufferOffset < U32Limit
  }

  /** Loading always leaves a consistent state, in which every frame found is an original one. */
  lemma LoadedValid(st: TagState, file: seq<byte>)
    requires CanLoad(st)
    ensures StateValid(Loaded(st, file))
    ensures forall i :: 0 <= i < |Loaded(st, file).frames| ==> Loaded(st, file).frames[i].Original?
  {
    if LoadSucceeds(file) {
      var h := ReadFileHeader(file[..FileHeaderSize]);
      ParsedStateValid(LoadedBuffer(file, FrameSectionSize(h)), h.majorVersion);
    }
  }

  // ---------------------------------------------------------------------------
  // Lookups

  /** The consistent lists can be read: every listed position has a frame with a header. */
  lemma ListsIndexable(st: TagState)
    requires StateValid(st)
    ensures Indexable(st.frames, st.frameBuffer, st.textFrames)
    ensures Indexable(st.frames, st.frameBuffer, st.commentFrames)
  {
    IndexValidIsIndexable(TextIndex, st.frames, st.frameBuffer, Version(st), st.textFrames);
    IndexValidIsIndexable(CommentIndex, st.frames, st.frameBuffer, Version(st), st.commentFrames);
  }

  /** GetTextFrameReferencePos on the state. */
  function TextPos(st: TagState, t: Mp3FrameType): (pos: Option<nat>)
    requires StateValid(st)
    ensures pos.Some? ==> pos.value in st.textFrames && pos.value < |st.frames|
  {
    ListsIndexable(st);
    TextFrameReferencePos(st.frames, st.frameBuffer, st.textFrames, t)
  }

  /** The current bytes of a listed frame. */
  function DataAt(st: TagState, p: nat): (d: seq<byte>)
    requires StateValid(st) && (p in st.textFrames || p in st.commentFrames)
    ensures |d| >= FrameHeaderSize
  {
    ListsIndexable(st);
    GetData(st.frames[p], st.frameBuffer).value
  }

  /**
   * GetText: the text of the first listed frame of the type, the empty text
   * when there is none.  None stands for a frame whose encoding is not the
   * ANSI layout, which this model does not decode.
   */
  function TextOf(st: TagState, t: Mp3FrameType): (text: Option<seq<byte>>)
    requires StateValid(st) && IsTextFrameType(t)
    ensures TextPos(st, t).None? ==> text == Some([])
  {
    match TextPos(st, t)
    case None => Some([])
    case Some(p) => TextFrameText(DataAt(st, p), Version(st))
  }

  /** GetCommentCount: the number of listed comments, never more than the frames. */
  function CommentCount(st: TagState): (n: nat)
    ensures StateValid(st) ==> n <= |st.frames|
  {
    if StateValid(st) then IncreasingBounded(st.commentFrames, |st.frames|); |st.commentFrames|
    else |st.commentFrames|
  }

  /** GetComment(i): the text of the i-th listed comment frame, the empty text when i is out of range. */
  function CommentOf(st: TagState, i: nat): (text: Option<seq<byte>>)
    requires StateValid(st)
    ensures i >= CommentCount(st) ==> text == Some([])
  {
    if i >= |st.commentFrames| then Some([])
    else CommentFrameText(DataAt(st, st.commentFrames[i]), Version(st))
  }

  /**
   * Two states whose text lists hold the same matching positions for a type
   * find the same frame for it.
   */
  lemma SameMatchesSamePos(st: TagState, st': TagState, t: Mp3FrameType)
    requires StateValid(st) && StateValid(st')
    requires forall q :: q in st.textFrames && IsMatch(st.frames, st.frameBuffer, q, t) ==>
      q in st'.textFrames && IsMatch(st'.frames, st'.frameBuffer, q, t)
    requires forall q :: q in st'.textFrames && IsMatch(st'.frames, st'.frameBuffer, q, t) ==>
      q in st.textFrames && IsMatch(st.frames, st.frameBuffer, q, t)
    ensures TextPos(st', t) == TextPos(st, t)
  {
    ListsIndexable(st);
    ListsIndexable(st');
    SameMatchesSameRef(st.frames, st.frameBuffer, st.textFrames, st'.frames, st'.frameBuffer, st'.textFrames, t);
  }

  // ---------------------------------------------------------------------------
  // SetText, SetComment, DeleteTextFrame, DeleteCommentFrame

  /** The four ID bytes a built frame starts with. */
  lemma BuiltFrameIds(id: seq<byte>, text: seq<byte>, majorVersion: byte)
    requires |id| == FrameIdCharCount
    ensures TextFixedSizeFits(text) ==> TextFrameImage(id, text, majorVersion)[..FrameIdCharCount] == id
    ensures CommentFixedSizeFits(text) ==> CommentFrameImage(id, text, majorVersion)[..FrameIdCharCount] == id
  {
    if TextFixedSizeFits(text) {
      assert TextFrameImage(id, text, majorVersion)[..FrameIdCharCount] == FrameHeader(id, 1 + |text|, majorVersion)[..FrameIdCharCount];
    }
    if CommentFixedSizeFits(text) {
      assert CommentFrameImage(id, text, majorVersion)[..FrameIdCharCount] == FrameHeader(id, 5 + |text|, majorVersion)[..FrameIdCharCount];
    }
  }

  /** ComputeFrameSize does not wrap: the text frame's size fits 32 bits. */
  predicate TextFixedSizeFits(text: seq<byte>)
  {
    TextFrameFixedSize + |text| < U32Limit
  }

  /** ComputeFrameSize does not wrap: the comment frame's size fits 32 bits. */
  predicate CommentFixedSizeFits(text: seq<byte>)
  {
    CommentFrameFixedSize + |text| < U32Limit
  }

  /**
   * DeleteTextFrame: the first listed frame of the type is flagged for
   * deletion and its position erased from the text list; nothing happens when
   * there is none.
   */
  function TextDeleted(st: TagState, t: Mp3FrameType): (st': TagState)
    requires StateValid(st)
    ensures st'.fileHeader == st.fileHeader && st'.frameBuffer == st.frameBuffer
    ensures st'.commentFrames == st.commentFrames && |st'.frames| == |st.frames|
    ensures TextPos(st, t).None? ==> st' == st
    ensures TextPos(st, t).Some? ==>
      st'.isDirty && st'.frames[TextPos(st, t).value].Tombstone?
      && |st'.textFrames| == |st.textFrames| - 1 && TextPos(st, t).value !in st'.textFrames
  {
    match TextPos(st, t)
    case None => st
    case Some(p) =>
      st.(frames := st.frames[p := FlagToDelete(st.frames[p])],
          textFrames := EraseFound(st.textFrames, Find(st.textFrames, p)),
          isDirty := true)
  }

  /** The state TextDeleted gives when the first listed frame of `t` is at `p`. */
  lemma TextDeletedAt(st: TagState, t: Mp3FrameType, p: nat)
    requires StateValid(st) && TextPos(st, t) == Some(p)
    ensures TextDeleted(st, t) == TagState(st.fileHeader, st.audioBufferOffset, st.frameBuffer,
      st.frames[p := FlagToDelete(st.frames[p])], EraseFound(st.textFrames, Find(st.textFrames, p)),
      st.commentFrames, true)
  {
  }

  /**
   * SetText: an empty text deletes; otherwise the first listed frame of the
   * type, or a new frame appended to the list and to the text list, becomes
   * the text frame built for the text.
   */
  function TextSet(st: TagState, t: Mp3FrameType, text: seq<byte>): (st': TagState)
    requires StateValid(st) && IsTextFrameType(t) && TextFixedSizeFits(text)
    ensures text == [] ==> st' == TextDeleted(st, t)
    ensures text != [] ==>
      st'.isDirty && st'.fileHeader == st.fileHeader && st'.frameBuffer == st.frameBuffer
      && st'.commentFrames == st.commentFrames
      && |st'.frames| == |st.frames| + (if TextPos(st, t).None? then 1 else 0)
    ensures text != [] ==>
      var p := if TextPos(st, t).Some? then TextPos(st, t).value else |st.frames|;
      p < |st'.frames| && p in st'.textFrames && st'.frames[p].Replacement?
      && st'.frames[p].bytes == TextFrameImage(GetFrameIDOf(t), text, Version(st))
  {
    if text == [] then TextDeleted(st, t)
    else
      var image := TextFrameImage(GetFrameIDOf(t), text, Version(st));
      match TextPos(st, t)
      case Some(p) =>
        st.(frames := st.frames[p := Replacement(RawFrame(st.frames[p]), image)], isDirty := true)
      case None =>
        st.(frames := st.frames + [Replacement(Option.None, image)], textFrames := st.textFrames + [|st.frames|],
            isDirty := true)
  }

  /** The state TextSet gives when the frame for `t` is new: appended to the frames and to the text list. */
  lemma TextSetAppended(st: TagState, t: Mp3FrameType, text: seq<byte>, g: Frame)
    requires StateValid(st) && IsTextFrameType(t) && TextFixedSizeFits(text) && text != []
    requires TextPos(st, t).None? && g == Replacement(Option.None, TextFrameImage(GetFrameIDOf(t), text, Version(st)))
    ensures TextSet(st, t, text) == TagState(st.fileHeader, st.audioBufferOffset, st.frameBuffer,
      st.frames + [g], st.textFrames + [|st.frames|], st.commentFrames, true)
  {
  }

  /** The state TextSet gives when the listed frame at `p` is refilled in place. */
  lemma TextSetReplaced(st: TagState, t: Mp3FrameType, text: seq<byte>, p: nat, g: Frame)
    requires StateValid(st) && IsTextFrameType(t) && TextFixedSizeFits(text) && text != []
    requires TextPos(st, t) == Some(p)
    requires g == Replacement(RawFrame(st.frames[p]), TextFrameImage(GetFrameIDOf(t), text, Version(st)))
    ensures TextSet(st, t, text) == TagState(st.fileHeader, st.audioBufferOffset, st.frameBuffer,
      st.frames[p := g], st.textFrames, st.commentFrames, true)
  {
  }

  /**
   * DeleteCommentFrame(i): the i-th listed comment is flagged for deletion
   * and its position erased from the comment list; nothing happens when i is
   * out of range.
   */
  function CommentDeleted(st: TagState, i: nat): (st': TagState)
    requires StateValid(st)
    ensures st'.fileHeader == st.fileHeader && st'.frameBuffer == st.frameBuffer
    ensures st'.textFrames == st.textFrames && |st'.frames| == |st.frames|
    ensures i >= CommentCount(st) ==> st' == st
    ensures i < CommentCount(st) ==>
      st'.isDirty && st'.frames[st.commentFrames[i]].Tombstone?
      && CommentCount(st') == CommentCount(st) - 1 && st.commentFrames[i] !in st'.commentFrames
  {
    if i >= |st.commentFrames| then st
    else
      var p := st.commentFrames[i];
      st.(frames := st.frames[p := FlagToDelete(st.frames[p])],
          commentFrames := EraseFound(st.commentFrames, Find(st.commentFrames, p)),
          isDirty := true)
  }

  /** The state CommentDeleted gives when the i-th listed comment is at `p`. */
  lemma CommentDeletedAt(st: TagState, i: nat, p: nat)
    requires StateValid(st) && i < |st.commentFrames| && st.commentFrames[i] == p
    ensures p < |st.frames|
    ensures CommentDeleted(st, i) == TagState(st.fileHeader, st.audioBufferOffset, st.frameBuffer,
      st.frames[p := FlagToDelete(st.frames[p])], st.textFrames,
      EraseFound(st.commentFrames, Find(st.commentFrames, p)), true)
  {
  }

  /**
   * SetComment(i): an empty text deletes; otherwise the i-th listed comment,
   * or a new frame appended to the list and to the comment list when i is the
   * count, becomes the comment frame built for the text.
   */
  function CommentSet(st: TagState, i: nat, text: seq<byte>): (st': TagState)
    requires StateValid(st) && (text != [] ==> i <= CommentCount(st)) && CommentFixedSizeFits(text)
    ensures text == [] ==> st' == CommentDeleted(st, i)
    ensures text != [] ==>
      st'.isDirty && st'.fileHeader == st.fileHeader && st'.frameBuffer == st.frameBuffer
      && st'.textFrames == st.textFrames
      && CommentCount(st') == CommentCount(st) + (if i == CommentCount(st) then 1 else 0)
    ensures text != [] ==>
      i < CommentCount(st') && st'.commentFrames[i] < |st'.frames| && st'.frames[st'.commentFrames[i]].Replacement?
      && st'.frames[st'.commentFrames[i]].bytes == CommentFrameImage(GetFrameIDOf(Comment), text, Version(st))
  {
    if text == [] then CommentDeleted(st, i)
    else
      var image := CommentFrameImage(GetFrameIDOf(Comment), text, Version(st));
      if i == |st.commentFrames| then
        st.(frames := st.frames + [Replacement(Option.None, image)], commentFrames := st.commentFrames + [|st.frames|],
            isDirty := true)
      else
        var p := st.commentFrames[i];
        st.(frames := st.frames[p := Replacement(RawFrame(st.frames[p]), image)], isDirty := true)
  }

  // ---------------------------------------------------------------------------
  // The lists stay consistent

  /** Replacing a live frame by a replacement of the same kinds keeps the state consistent and makes it dirty. */
  lemma ReplaceValid(st: TagState, p: nat, g: Frame)
    requires StateValid(st) && p < |st.frames| && Live(st.frames[p])
    requires g.Replacement? && FrameFits(g, st.frameBuffer, Version(st))
    requires OfKind(TextIndex, g, st.frameBuffer) == OfKind(TextIndex, st.frames[p], st.frameBuffer)
    requires OfKind(CommentIndex, g, st.frameBuffer) == OfKind(CommentIndex, st.frames[p], st.frameBuffer)
    ensures StateValid(st.(frames := st.frames[p := g], isDirty := true))
  {
    ReplaceKeepsIndex(TextIndex, st.frames, st.frameBuffer, Version(st), st.textFrames, p, g);
    ReplaceKeepsIndex(CommentIndex, st.frames, st.frameBuffer, Version(st), st.commentFrames, p, g);
    assert !st.frames[p := g][p].Original?;
  }

  /** Appending a replacement and listing it where its kind says keeps the state consistent and makes it dirty. */
  lemma AppendValid(st: TagState, g: Frame)
    requires StateValid(st)
    requires g.Replacement? && FrameFits(g, st.frameBuffer, Version(st))
    ensures var n := |st.frames|;
      StateValid(st.(frames := st.frames + [g],
                     textFrames := if OfKind(TextIndex, g, st.frameBuffer) then st.textFrames + [n] else st.textFrames,
                     commentFrames := if OfKind(CommentIndex, g, st.frameBuffer) then st.commentFrames + [n] else st.commentFrames,
                     isDirty := true))
  {
    AppendKeepsIndex(TextIndex, st.frames, st.frameBuffer, Version(st), st.textFrames, g);
    AppendKeepsIndex(CommentIndex, st.frames, st.frameBuffer, Version(st), st.commentFrames, g);
    assert !(st.frames + [g])[|st.frames|].Original?;
  }

  /** Flagging a listed frame and erasing it from both lists keeps the state consistent and makes it dirty. */
  lemma TombstoneValid(st: TagState, p: nat)
    requires StateValid(st) && p < |st.frames| && Live(st.frames[p])
    ensures StateValid(st.(frames := st.frames[p := FlagToDelete(st.frames[p])],
                           textFrames := EraseFound(st.textFrames, Find(st.textFrames, p)),
                           commentFrames := EraseFound(st.commentFrames, Find(st.commentFrames, p)),
                           isDirty := true))
  {
    TombstoneKeepsIndex(TextIndex, st.frames, st.frameBuffer, Version(st), st.textFrames, p);
    TombstoneKeepsIndex(CommentIndex, st.frames, st.frameBuffer, Version(st), st.commentFrames, p);
    assert !st.frames[p := FlagToDelete(st.frames[p])][p].Original?;
  }

  /** Erasing a position a list does not hold leaves it as it is. */
  lemma EraseAbsent(idx: seq<nat>, p: nat)
    requires p !in idx
    ensures EraseFound(idx, Find(idx, p)) == idx
  {
  }

  /** A listed text position holds a live text frame, never a comment frame. */
  lemma ListedText(st: TagState, p: nat)
    requires StateValid(st) && p in st.textFrames
    ensures p < |st.frames| && Live(st.frames[p]) && HasHeader(st.frames[p], st.frameBuffer)
    ensures OfKind(TextIndex, st.frames[p], st.frameBuffer) && !OfKind(CommentIndex, st.frames[p], st.frameBuffer)
    ensures p !in st.commentFrames
  {
    ListsIndexable(st);
  }

  /** A listed comment position holds a live comment frame, never a text frame. */
  lemma ListedComment(st: TagState, p: nat)
    requires StateValid(st) && p in st.commentFrames
    ensures p < |st.frames| && Live(st.frames[p]) && HasHeader(st.frames[p], st.frameBuffer)
    ensures OfKind(CommentIndex, st.frames[p], st.frameBuffer) && !OfKind(TextIndex, st.frames[p], st.frameBuffer)
    ensures p !in st.textFrames
  {
    ListsIndexable(st);
  }

  /** A replacement holding a built text frame fits, is a text frame, not a comment, and has the type's ID. */
  lemma TextReplacement(raw: Option<nat>, t: Mp3FrameType, text: seq<byte>, buf: seq<byte>, majorVersion: byte)
    requires IsTextFrameType(t) && TextFixedSizeFits(text)
    requires raw.Some? ==> raw.value <= |buf|
    ensures var g := Replacement(raw, TextFrameImage(GetFrameIDOf(t), text, majorVersion));
      FrameFits(g, buf, majorVersion) && HasHeader(g, buf)
      && OfKind(TextIndex, g, buf) && !OfKind(CommentIndex, g, buf) && IsFrameID(g, buf, t)
  {
    var image := TextFrameImage(GetFrameIDOf(t), text, majorVersion);
    BuiltFrameIds(GetFrameIDOf(t), text, majorVersion);
    assert image[0] == image[..FrameIdCharCount][0];
    assert GetFrameIDOf(Comment)[0] != GetFrameIDOf(t)[0];
  }

  /** A replacement holding a built comment frame fits, is a comment frame and not a text frame. */
  lemma CommentReplacement(raw: Option<nat>, text: seq<byte>, buf: seq<byte>, majorVersion: byte)
    requires CommentFixedSizeFits(text)
    requires raw.Some? ==> raw.value <= |buf|
    ensures var g := Replacement(raw, CommentFrameImage(GetFrameIDOf(Comment), text, majorVersion));
      FrameFits(g, buf, majorVersion) && HasHeader(g, buf)
      && OfKind(CommentIndex, g, buf) && !OfKind(TextIndex, g, buf)
  {
    var image := CommentFrameImage(GetFrameIDOf(Comment), text, majorVersion);
    BuiltFrameIds(GetFrameIDOf(Comment), text, majorVersion);
    assert image[0] == image[..FrameIdCharCount][0];
  }

  /** DeleteTextFrame keeps the state consistent. */
  lemma TextDeletedValid(st: TagState, t: Mp3FrameType)
    requires StateValid(st)
    ensures StateValid(TextDeleted(st, t))
  {
    match TextPos(st, t)
    case None =>
    case Some(p) =>
      ListedText(st, p);
      EraseAbsent(st.commentFrames, p);
      TombstoneValid(st, p);
  }

  /** SetText keeps the state consistent. */
  lemma TextSetValid(st: TagState, t: Mp3FrameType, text: seq<byte>)
    requires StateValid(st) && IsTextFrameType(t) && TextFixedSizeFits(text)
    ensures StateValid(TextSet(st, t, text))
  {
    if text == [] {
      TextDeletedValid(st, t);
    } else {
      match TextPos(st, t)
      case Some(p) =>
        ReplacedTextValid(st, t, text, p);
      case None =>
        AppendedTextValid(st, t, text);
    }
  }

  lemma ReplacedTextValid(st: TagState, t: Mp3FrameType, text: seq<byte>, p: nat)
    requires StateValid(st) && IsTextFrameType(t) && TextFixedSizeFits(text) && TextPos(st, t) == Some(p)
    ensures StateValid(st.(frames := st.frames[p := Replacement(RawFrame(st.frames[p]), TextFrameImage(GetFrameIDOf(t), text, Version(st)))],
                           isDirty := true))
  {
    ListedText(st, p);
    TextReplacement(RawFrame(st.frames[p]), t, text, st.frameBuffer, Version(st));
    ReplaceValid(st, p, Replacement(RawFrame(st.frames[p]), TextFrameImage(GetFrameIDOf(t), text, Version(st))));
  }

  lemma AppendedTextValid(st: TagState, t: Mp3FrameType, text: seq<byte>)
    requires StateValid(st) && IsTextFrameType(t) && TextFixedSizeFits(text)
    ensures StateValid(st.(frames := st.frames + [Replacement(Option.None, TextFrameImage(GetFrameIDOf(t), text, Version(st)))],
                           textFrames := st.textFrames + [|st.frames|], isDirty := true))
  {
    var g := Replacement(Option.None, TextFrameImage(GetFrameIDOf(t), text, Version(st)));
    TextReplacement(Option.None, t, text, st.frameBuffer, Version(st));
    AppendValid(st, g);
  }

  /** DeleteCommentFrame keeps the state consistent. */
  lemma CommentDeletedValid(st: TagState, i: nat)
    requires StateValid(st)
    ensures StateValid(CommentDeleted(st, i))
  {
    if i < |st.commentFrames| {
      var p := st.commentFrames[i];
      ListedComment(st, p);
      EraseAbsent(st.textFrames, p);
      TombstoneValid(st, p);
    }
  }

  /** SetComment keeps the state consistent. */
  lemma CommentSetValid(st: TagState, i: nat, text: seq<byte>)
    requires StateValid(st) && (text != [] ==> i <= CommentCount(st)) && CommentFixedSizeFits(text)
    ensures StateValid(CommentSet(st, i, text))
  {
    if text == [] {
      CommentDeletedValid(st, i);
    } else if i == |st.commentFrames| {
      CommentReplacement(Option.None, text, st.frameBuffer, Version(st));
      AppendValid(st, Replacement(Option.None, CommentFrameImage(GetFrameIDOf(Comment), text, Version(st))));
    } else {
      var p := st.commentFrames[i];
      ListedComment(st, p);
      CommentReplacement(RawFrame(st.frames[p]), text, st.frameBuffer, Version(st));
      ReplaceValid(st, p, Replacement(RawFrame(st.frames[p]), CommentFrameImage(GetFrameIDOf(Comment), text, Version(st))));
    }
  }

  // ---------------------------------------------------------------------------
  // What reads back

  /** A frame has one ID, so it matches at most one type. */
  lemma MatchesOneType(frames: seq<Frame>, buf: seq<byte>, q: nat, t: Mp3FrameType, u: Mp3FrameType)
    requires IsMatch(frames, buf, q, t) && IsMatch(frames, buf, q, u)
    ensures t == u
  {
    FrameIdsDistinct(t, u);
  }

  /**
   * After a non-empty SetText(t, text), GetText(t) returns the text without
   * its trailing NULs (so the text itself when it does not end in NUL),
   * whenever its size fits the file's size form.
   */
  lemma TextSetReadsBack(st: TagState, t: Mp3FrameType, text: seq<byte>)
    requires StateValid(st) && IsTextFrameType(t) && TextFixedSizeFits(text)
    requires text != [] && 1 + |text| < Capacity(SizeBits(Version(st)))
    ensures StateValid(TextSet(st, t, text))
    ensures TextOf(TextSet(st, t, text), t) == Some(TrimTrailingNul(text))
    ensures text[|text| - 1] != 0 ==> TextOf(TextSet(st, t, text), t) == Some(text)
  {
    if text[|text| - 1] != 0 {
      TrimKeepsUnterminated(text);
    }
    if TextPos(st, t).Some? {
      ReplacedTextReadsBack(st, t, text, TextPos(st, t).value);
    } else {
      AppendedTextReadsBack(st, t, text);
    }
    TextFrameRoundTrip(GetFrameIDOf(t), text, Version(st));
  }

  /** SetText over an existing frame: the frame find_if found is still the one found, and holds the new frame. */
  lemma ReplacedTextReadsBack(st: TagState, t: Mp3FrameType, text: seq<byte>, p: nat)
    requires StateValid(st) && IsTextFrameType(t) && TextFixedSizeFits(text) && text != []
    requires TextPos(st, t) == Some(p)
    ensures StateValid(TextSet(st, t, text))
    ensures TextPos(TextSet(st, t, text), t) == Some(p)
    ensures DataAt(TextSet(st, t, text), p) == TextFrameImage(GetFrameIDOf(t), text, Version(st))
    ensures TextOf(TextSet(st, t, text), t) == TextFrameText(TextFrameImage(GetFrameIDOf(t), text, Version(st)), Version(st))
  {
    TextSetValid(st, t, text);
    ListsIndexable(st);
    var g := Replacement(RawFrame(st.frames[p]), TextFrameImage(GetFrameIDOf(t), text, Version(st)));
    TextReplacement(RawFrame(st.frames[p]), t, text, st.frameBuffer, Version(st));
    FindIfAfterReplace(st.frames, st.frameBuffer, st.textFrames, t, g);
    assert TextSet(st, t, text).frames == st.frames[p := g];
  }

  /** SetText of an absent type: find_if finds the appended frame, which holds the new frame. */
  lemma AppendedTextReadsBack(st: TagState, t: Mp3FrameType, text: seq<byte>)
    requires StateValid(st) && IsTextFrameType(t) && TextFixedSizeFits(text) && text != []
    requires TextPos(st, t).None?
    ensures StateValid(TextSet(st, t, text))
    ensures TextPos(TextSet(st, t, text), t) == Some(|st.frames|)
    ensures DataAt(TextSet(st, t, text), |st.frames|) == TextFrameImage(GetFrameIDOf(t), text, Version(st))
    ensures TextOf(TextSet(st, t, text), t) == TextFrameText(TextFrameImage(GetFrameIDOf(t), text, Version(st)), Version(st))
  {
    TextSetValid(st, t, text);
    ListsIndexable(st);
    var g := Replacement(Option.None, TextFrameImage(GetFrameIDOf(t), text, Version(st)));
    TextReplacement(Option.None, t, text, st.frameBuffer, Version(st));
    FindIfAfterAppend(st.frames, st.frameBuffer, st.textFrames, t, g);
    assert TextSet(st, t, text).frames == st.frames + [g];
  }


  // ---------------------------------------------------------------------------
  // What stays as it was

  /**
   * GetText(u) depends only on the listed positions whose frame has the ID of
   * u: two states with the same buffer and version that list the same such
   * positions, holding the same frames there, read the same text.
   */
  lemma TextOfFromMatches(st: TagState, st': TagState, u: Mp3FrameType)
    requires StateValid(st) && StateValid(st') && IsTextFrameType(u)
    requires st'.frameBuffer == st.frameBuffer && Version(st') == Version(st)
    requires forall q :: q in st.textFrames && IsMatch(st.frames, st.frameBuffer, q, u) ==>
      q in st'.textFrames && q < |st'.frames| && st'.frames[q] == st.frames[q]
    requires forall q :: q in st'.textFrames && IsMatch(st'.frames, st'.frameBuffer, q, u) ==>
      q in st.textFrames && q < |st.frames| && st.frames[q] == st'.frames[q]
    ensures TextOf(st', u) == TextOf(st, u)
  {
    SameMatchesSamePos(st, st', u);
    match TextPos(st, u)
    case None =>
    case Some(q) =>
      ListsIndexable(st);
      assert IsMatch(st.frames, st.frameBuffer, q, u);
      assert DataAt(st', q) == DataAt(st, q);
  }

  /** SetText(t, text) leaves GetText of every other type as it was. */
  lemma TextSetKeepsOthers(st: TagState, t: Mp3FrameType, text: seq<byte>, u: Mp3FrameType)
    requires StateValid(st) && IsTextFrameType(t) && TextFixedSizeFits(text)
    requires IsTextFrameType(u) && u != t
    ensures StateValid(TextSet(st, t, text))
    ensures TextOf(TextSet(st, t, text), u) == TextOf(st, u)
  {
    TextSetValid(st, t, text);
    if TextPos(st, t).Some? {
      var p := TextPos(st, t).value;
      ListsIndexable(st);
      assert IsMatch(st.frames, st.frameBuffer, p, t);
      if text == [] {
        DeletedKeepsOthers(st, t, u, p);
      } else {
        ReplacedKeepsOthers(st, t, text, u, p);
      }
    } else if text != [] {
      AppendedKeepsOthers(st, t, text, u);
    }
  }

  lemma DeletedKeepsOthers(st: TagState, t: Mp3FrameType, u: Mp3FrameType, p: nat)
    requires StateValid(st) && IsTextFrameType(u) && u != t
    requires TextPos(st, t) == Some(p) && IsMatch(st.frames, st.frameBuffer, p, t)
    ensures StateValid(TextDeleted(st, t))
    ensures TextOf(TextDeleted(st, t), u) == TextOf(st, u)
  {
    TextDeletedValid(st, t);
    var st' := TextDeleted(st, t);
    EraseFoundKeepsIncreasing(st.textFrames, p);
    assert st'.textFrames == EraseFound(st.textFrames, Find(st.textFrames, p));
    assert st'.frames == st.frames[p := FlagToDelete(st.frames[p])];
    forall q | q in st.textFrames && IsMatch(st.frames, st.frameBuffer, q, u)
      ensures q in st'.textFrames && q < |st'.frames| && st'.frames[q] == st.frames[q]
    {
      if q == p { MatchesOneType(st.frames, st.frameBuffer, p, t, u); }
    }
    TextOfFromMatches(st, st', u);
  }

  lemma ReplacedKeepsOthers(st: TagState, t: Mp3FrameType, text: seq<byte>, u: Mp3FrameType, p: nat)
    requires StateValid(st) && IsTextFrameType(t) && TextFixedSizeFits(text) && text != []
    requires IsTextFrameType(u) && u != t
    requires TextPos(st, t) == Some(p) && IsMatch(st.frames, st.frameBuffer, p, t)
    ensures StateValid(TextSet(st, t, text))
    ensures TextOf(TextSet(st, t, text), u) == TextOf(st, u)
  {
    TextSetValid(st, t, text);
    var st' := TextSet(st, t, text);
    var g := Replacement(RawFrame(st.frames[p]), TextFrameImage(GetFrameIDOf(t), text, Version(st)));
    TextReplacement(RawFrame(st.frames[p]), t, text, st.frameBuffer, Version(st));
    assert st'.frames == st.frames[p := g] && st'.textFrames == st.textFrames;
    assert IsMatch(st'.frames, st'.frameBuffer, p, t);
    ReplacedMatches(st.frames, st.frameBuffer, st.textFrames, p, g, t, u);
    TextOfFromMatches(st, st', u);
  }

  /** Replacing a frame of type t by another of type t changes nothing about which listed frames have the ID of another type. */
  lemma ReplacedMatches(frames: seq<Frame>, buf: seq<byte>, idx: seq<nat>, p: nat, g: Frame, t: Mp3FrameType, u: Mp3FrameType)
    requires IsMatch(frames, buf, p, t) && IsMatch(frames[p := g], buf, p, t) && u != t
    ensures forall q :: q in idx && IsMatch(frames, buf, q, u) ==>
      q in idx && q < |frames[p := g]| && frames[p := g][q] == frames[q]
    ensures forall q :: q in idx && IsMatch(frames[p := g], buf, q, u) ==>
      q in idx && q < |frames| && frames[q] == frames[p := g][q]
  {
    forall q | q in idx && IsMatch(frames, buf, q, u)
      ensures q < |frames[p := g]| && frames[p := g][q] == frames[q]
    {
      if q == p { MatchesOneType(frames, buf, p, t, u); }
    }
    forall q | q in idx && IsMatch(frames[p := g], buf, q, u)
      ensures q < |frames| && frames[q] == frames[p := g][q]
    {
      if q == p { MatchesOneType(frames[p := g], buf, p, t, u); }
    }
  }

  lemma AppendedKeepsOthers(st: TagState, t: Mp3FrameType, text: seq<byte>, u: Mp3FrameType)
    requires StateValid(st) && IsTextFrameType(t) && TextFixedSizeFits(text) && text != []
    requires IsTextFrameType(u) && u != t
    requires TextPos(st, t).None?
    ensures StateValid(TextSet(st, t, text))
    ensures TextOf(TextSet(st, t, text), u) == TextOf(st, u)
  {
    TextSetValid(st, t, text);
    var st' := TextSet(st, t, text);
    var n := |st.frames|;
    var g := Replacement(Option.None, TextFrameImage(GetFrameIDOf(t), text, Version(st)));
    TextReplacement(Option.None, t, text, st.frameBuffer, Version(st));
    assert st'.frames == st.frames + [g] && st'.textFrames == st.textFrames + [n];
    assert IsMatch(st'.frames, st'.frameBuffer, n, t);
    AppendedMatches(st.frames, st.frameBuffer, st.textFrames, g, t, u);
    TextOfFromMatches(st, st', u);
  }

  /** Appending a frame of type t and its position changes nothing about which listed frames have the ID of another type. */
  lemma AppendedMatches(frames: seq<Frame>, buf: seq<byte>, idx: seq<nat>, g: Frame, t: Mp3FrameType, u: Mp3FrameType)
    requires IsMatch(frames + [g], buf, |frames|, t) && u != t
    ensures forall q :: q in idx && IsMatch(frames, buf, q, u) ==>
      q in idx + [|frames|] && q < |frames + [g]| && (frames + [g])[q] == frames[q]
    ensures forall q :: q in idx + [|frames|] && IsMatch(frames + [g], buf, q, u) ==>
      q in idx && q < |frames| && frames[q] == (frames + [g])[q]
  {
    var n := |frames|;
    forall q | q in idx + [n] && IsMatch(frames + [g], buf, q, u)
      ensures q in idx && q < n && frames[q] == (frames + [g])[q]
    {
      if q == n { MatchesOneType(frames + [g], buf, n, t, u); }
    }
  }

  /** Two states listing the same comment positions, holding the same frames there, read the same comments. */
  lemma CommentsFromPositions(st: TagState, st': TagState)
    requires StateValid(st) && StateValid(st')
    requires st'.frameBuffer == st.frameBuffer && Version(st') == Version(st)
    requires st'.commentFrames == st.commentFrames
    requires forall k :: 0 <= k < |st.commentFrames| ==>
      st.commentFrames[k] < |st.frames| && st.commentFrames[k] < |st'.frames|
      && st'.frames[st.commentFrames[k]] == st.frames[st.commentFrames[k]]
    ensures CommentCount(st') == CommentCount(st)
    ensures forall i :: CommentOf(st', i) == CommentOf(st, i)
  {
  }

  /** SetText (and so DeleteTextFrame) leaves the comments as they were. */
  lemma TextSetKeepsComments(st: TagState, t: Mp3FrameType, text: seq<byte>)
    requires StateValid(st) && IsTextFrameType(t) && TextFixedSizeFits(text)
    ensures StateValid(TextSet(st, t, text))
    ensures CommentCount(TextSet(st, t, text)) == CommentCount(st)
    ensures forall i :: CommentOf(TextSet(st, t, text), i) == CommentOf(st, i)
  {
    TextSetValid(st, t, text);
    if TextPos(st, t).Some? && text == [] {
      DeletedKeepsComments(st, t, TextPos(st, t).value);
    } else if TextPos(st, t).Some? {
      ReplacedKeepsComments(st, t, text, TextPos(st, t).value);
    } else if text != [] {
      AppendedKeepsComments(st, t, text);
    }
  }

  /** DeleteTextFrame flags a text frame, which no comment position names. */
  lemma DeletedKeepsComments(st: TagState, t: Mp3FrameType, p: nat)
    requires StateValid(st) && IsTextFrameType(t)
    requires TextPos(st, t) == Some(p)
    ensures StateValid(TextDeleted(st, t))
    ensures CommentCount(TextDeleted(st, t)) == CommentCount(st)
    ensures forall i :: CommentOf(TextDeleted(st, t), i) == CommentOf(st, i)
  {
    TextDeletedValid(st, t);
    var st' := TextDeleted(st, t);
    ListedText(st, p);
    assert st'.frames == st.frames[p := FlagToDelete(st.frames[p])] && st'.commentFrames == st.commentFrames;
    TombstoneKeepsComments(st, p, st'.frames);
    CommentsFromPositions(st, st');
  }

  /** SetText over a listed text frame replaces that frame, which no comment position names. */
  lemma ReplacedKeepsComments(st: TagState, t: Mp3FrameType, text: seq<byte>, p: nat)
    requires StateValid(st) && IsTextFrameType(t) && TextFixedSizeFits(text) && text != []
    requires TextPos(st, t) == Some(p)
    ensures StateValid(TextSet(st, t, text))
    ensures CommentCount(TextSet(st, t, text)) == CommentCount(st)
    ensures forall i :: CommentOf(TextSet(st, t, text), i) == CommentOf(st, i)
  {
    TextSetValid(st, t, text);
    var st' := TextSet(st, t, text);
    ListedText(st, p);
    var g := Replacement(RawFrame(st.frames[p]), TextFrameImage(GetFrameIDOf(t), text, Version(st)));
    TextSetReplaced(st, t, text, p, g);
    TombstoneKeepsComments(st, p, st'.frames);
    CommentsFromPositions(st, st');
  }

  /** Changing a frame no comment position names leaves the comment positions' frames as they were. */
  lemma TombstoneKeepsComments(st: TagState, p: nat, frames': seq<Frame>)
    requires StateValid(st) && p < |st.frames| && p !in st.commentFrames
    requires |frames'| == |st.frames| && forall q :: 0 <= q < |st.frames| && q != p ==> frames'[q] == st.frames[q]
    ensures EraseFound(st.commentFrames, Find(st.commentFrames, p)) == st.commentFrames
    ensures forall k :: 0 <= k < |st.commentFrames| ==>
      st.commentFrames[k] < |st.frames| && frames'[st.commentFrames[k]] == st.frames[st.commentFrames[k]]
  {
    EraseAbsent(st.commentFrames, p);
    assert forall k :: 0 <= k < |st.commentFrames| ==> st.commentFrames[k] in st.commentFrames;
  }

  lemma AppendedKeepsComments(st: TagState, t: Mp3FrameType, text: seq<byte>)
    requires StateValid(st) && IsTextFrameType(t) && TextFixedSizeFits(text) && text != []
    requires TextPos(st, t).None?
    ensures StateValid(TextSet(st, t, text))
    ensures CommentCount(TextSet(st, t, text)) == CommentCount(st)
    ensures forall i :: CommentOf(TextSet(st, t, text), i) == CommentOf(st, i)
  {
    TextSetValid(st, t, text);
    var g := Replacement(Option.None, TextFrameImage(GetFrameIDOf(t), text, Version(st)));
    assert TextSet(st, t, text).frames == st.frames + [g];
    CommentsFromPositions(st, TextSet(st, t, text));
  }

  /** At most one listed frame has the ID of the type (the parse tolerates duplicates, which only draw a warning). */
  predicate UniqueText(st: TagState, t: Mp3FrameType)
  {
    forall q, q' :: (q in st.textFrames && q' in st.textFrames
      && IsMatch(st.frames, st.frameBuffer, q, t) && IsMatch(st.frames, st.frameBuffer, q', t)) ==> q == q'
  }

  /**
   * DeleteTextFrame(t) of an absent type changes nothing, not even the dirty
   * flag; when the type is present and not duplicated, GetText(t) is empty
   * afterwards.
   */
  lemma TextDeletedClears(st: TagState, t: Mp3FrameType)
    requires StateValid(st) && IsTextFrameType(t) && UniqueText(st, t)
    ensures StateValid(TextDeleted(st, t))
    ensures TextPos(st, t).None? ==> TextDeleted(st, t) == st
    ensures TextOf(TextDeleted(st, t), t) == Some([])
  {
    TextDeletedValid(st, t);
    if TextPos(st, t).Some? {
      DeletedHasNoMatch(st, t, TextPos(st, t).value);
    }
  }

  lemma DeletedHasNoMatch(st: TagState, t: Mp3FrameType, p: nat)
    requires StateValid(st) && IsTextFrameType(t) && UniqueText(st, t)
    requires TextPos(st, t) == Some(p)
    ensures StateValid(TextDeleted(st, t))
    ensures TextPos(TextDeleted(st, t), t).None?
  {
    TextDeletedValid(st, t);
    var st' := TextDeleted(st, t);
    ListsIndexable(st);
    ListsIndexable(st');
    assert IsMatch(st.frames, st.frameBuffer, p, t);
    ErasedHasNoMatch(st.frames, st.frameBuffer, st.textFrames, p, FlagToDelete(st.frames[p]), t);
    FirstMatch(st'.frames, st'.frameBuffer, st'.textFrames, t, 0);
  }

  /** With a single match in an increasing list, erasing it and changing its frame leaves no match. */
  lemma ErasedHasNoMatch(frames: seq<Frame>, buf: seq<byte>, idx: seq<nat>, p: nat, f: Frame, t: Mp3FrameType)
    requires StrictlyIncreasing(idx) && p in idx && IsMatch(frames, buf, p, t)
    requires forall q :: q in idx && IsMatch(frames, buf, q, t) ==> q == p
    ensures forall q :: q in EraseFound(idx, Find(idx, p)) ==> !IsMatch(frames[p := f], buf, q, t)
  {
    EraseFoundKeepsIncreasing(idx, p);
  }

  /** Two states listing the same text positions, holding the same frames there, read the same text of every type. */
  lemma TextsFromPositions(st: TagState, st': TagState)
    requires StateValid(st) && StateValid(st')
    requires st'.frameBuffer == st.frameBuffer && Version(st') == Version(st)
    requires st'.textFrames == st.textFrames
    requires forall q :: q in st.textFrames ==> q < |st.frames| && q < |st'.frames| && st'.frames[q] == st.frames[q]
    ensures forall u :: IsTextFrameType(u) ==> TextOf(st', u) == TextOf(st, u)
  {
    forall u | IsTextFrameType(u)
      ensures TextOf(st', u) == TextOf(st, u)
    {
      TextOfFromMatches(st, st', u);
    }
  }

  /** Changing one frame that no text position names leaves the text positions' frames as they were. */
  lemma CommentFrameOnly(st: TagState, p: nat, frames': seq<Frame>)
    requires StateValid(st) && p < |st.frames| && p !in st.textFrames
    requires |frames'| == |st.frames| && forall q :: 0 <= q < |st.frames| && q != p ==> frames'[q] == st.frames[q]
    ensures EraseFound(st.textFrames, Find(st.textFrames, p)) == st.textFrames
    ensures forall q :: q in st.textFrames ==> q < |st.frames| && q < |frames'| && frames'[q] == st.frames[q]
  {
    EraseAbsent(st.textFrames, p);
  }

  /**
   * After a non-empty SetComment(i, text), GetComment(i) returns the text
   * without its trailing NULs (the text itself when it does not end in NUL),
   * and the count grows by one exactly when i was the count.
   */
  lemma CommentSetReadsBack(st: TagState, i: nat, text: seq<byte>)
    requires StateValid(st) && CommentFixedSizeFits(text) && text != [] && i <= CommentCount(st)
    requires 5 + |text| < Capacity(SizeBits(Version(st)))
    ensures StateValid(CommentSet(st, i, text))
    ensures CommentCount(CommentSet(st, i, text)) == if i == CommentCount(st) then CommentCount(st) + 1 else CommentCount(st)
    ensures CommentOf(CommentSet(st, i, text), i) == Some(TrimTrailingNul(text))
    ensures text[|text| - 1] != 0 ==> CommentOf(CommentSet(st, i, text), i) == Some(text)
  {
    if text[|text| - 1] != 0 {
      TrimKeepsUnterminated(text);
    }
    CommentSetHoldsFrame(st, i, text);
    CommentFrameRoundTrip(GetFrameIDOf(Comment), text, Version(st));
  }

  /** After a non-empty SetComment(i, text), comment i is read from the frame SetComment built. */
  lemma CommentSetHoldsFrame(st: TagState, i: nat, text: seq<byte>)
    requires StateValid(st) && CommentFixedSizeFits(text) && text != [] && i <= CommentCount(st)
    ensures StateValid(CommentSet(st, i, text))
    ensures CommentCount(CommentSet(st, i, text)) == if i == CommentCount(st) then CommentCount(st) + 1 else CommentCount(st)
    ensures CommentOf(CommentSet(st, i, text), i)
      == CommentFrameText(CommentFrameImage(GetFrameIDOf(Comment), text, Version(st)), Version(st))
  {
    CommentSetValid(st, i, text);
    var st' := CommentSet(st, i, text);
    var image := CommentFrameImage(GetFrameIDOf(Comment), text, Version(st));
    if i == |st.commentFrames| {
      assert st'.commentFrames[i] == |st.frames|;
      assert st'.frames[|st.frames|] == Replacement(Option.None, image);
    } else {
      var p := st.commentFrames[i];
      assert st'.commentFrames[i] == p;
      assert st'.frames[p] == Replacement(RawFrame(st.frames[p]), image);
    }
    assert DataAt(st', st'.commentFrames[i]) == image;
  }

  /** A non-empty SetComment(i, text) leaves every other comment, and every text, as it was. */
  lemma CommentSetKeepsOthers(st: TagState, i: nat, text: seq<byte>, j: nat)
    requires StateValid(st) && CommentFixedSizeFits(text) && text != [] && i <= CommentCount(st)
    requires j != i
    ensures StateValid(CommentSet(st, i, text))
    ensures CommentOf(CommentSet(st, i, text), j) == CommentOf(st, j)
    ensures forall u :: IsTextFrameType(u) ==> TextOf(CommentSet(st, i, text), u) == TextOf(st, u)
  {
    if i == |st.commentFrames| {
      AppendedCommentKeepsOthers(st, text, j);
    } else {
      ReplacedCommentKeepsOthers(st, i, text, j);
    }
  }

  lemma AppendedCommentKeepsOthers(st: TagState, text: seq<byte>, j: nat)
    requires StateValid(st) && CommentFixedSizeFits(text) && text != [] && j != CommentCount(st)
    ensures StateValid(CommentSet(st, CommentCount(st), text))
    ensures CommentOf(CommentSet(st, CommentCount(st), text), j) == CommentOf(st, j)
    ensures forall u :: IsTextFrameType(u) ==> TextOf(CommentSet(st, CommentCount(st), text), u) == TextOf(st, u)
  {
    var i := CommentCount(st);
    CommentSetValid(st, i, text);
    var st' := CommentSet(st, i, text);
    var g := Replacement(Option.None, CommentFrameImage(GetFrameIDOf(Comment), text, Version(st)));
    assert st'.frames == st.frames + [g] && st'.textFrames == st.textFrames;
    if j < i {
      assert st'.commentFrames[j] == st.commentFrames[j];
      assert st.commentFrames[j] in st.commentFrames;
    }
    TextsFromPositions(st, st');
  }

  lemma ReplacedCommentKeepsOthers(st: TagState, i: nat, text: seq<byte>, j: nat)
    requires StateValid(st) && CommentFixedSizeFits(text) && text != [] && i < CommentCount(st) && j != i
    ensures StateValid(CommentSet(st, i, text))
    ensures CommentOf(CommentSet(st, i, text), j) == CommentOf(st, j)
    ensures forall u :: IsTextFrameType(u) ==> TextOf(CommentSet(st, i, text), u) == TextOf(st, u)
  {
    CommentSetValid(st, i, text);
    var st' := CommentSet(st, i, text);
    var p := st.commentFrames[i];
    ListedComment(st, p);
    var g := Replacement(RawFrame(st.frames[p]), CommentFrameImage(GetFrameIDOf(Comment), text, Version(st)));
    assert st'.frames == st.frames[p := g] && st'.commentFrames == st.commentFrames;
    if j < |st.commentFrames| {
      assert st.commentFrames[j] != p;
      assert st.commentFrames[j] in st.commentFrames;
    }
    CommentFrameOnly(st, p, st'.frames);
    TextsFromPositions(st, st');
  }

  /**
   * DeleteCommentFrame(i) of an out-of-range i changes nothing, not even the
   * dirty flag; otherwise the count drops by one, earlier comments stay and
   * later ones move down one place, and every text stays as it was.
   */
  lemma CommentDeletedShifts(st: TagState, i: nat)
    requires StateValid(st)
    ensures StateValid(CommentDeleted(st, i))
    ensures i >= CommentCount(st) ==> CommentDeleted(st, i) == st
    ensures i < CommentCount(st) ==> CommentCount(CommentDeleted(st, i)) == CommentCount(st) - 1
    ensures forall j: nat :: j < i ==> CommentOf(CommentDeleted(st, i), j) == CommentOf(st, j)
    ensures forall j: nat :: j >= i && i < CommentCount(st) ==> CommentOf(CommentDeleted(st, i), j) == CommentOf(st, j + 1)
    ensures forall u :: IsTextFrameType(u) ==> TextOf(CommentDeleted(st, i), u) == TextOf(st, u)
  {
    CommentDeletedValid(st, i);
    if i < |st.commentFrames| {
      DeletedCommentShifts(st, i);
      DeletedCommentKeepsTexts(st, i);
    }
  }

  lemma DeletedCommentShifts(st: TagState, i: nat)
    requires StateValid(st) && i < CommentCount(st)
    ensures StateValid(CommentDeleted(st, i))
    ensures CommentCount(CommentDeleted(st, i)) == CommentCount(st) - 1
    ensures forall j: nat :: j < i ==> CommentOf(CommentDeleted(st, i), j) == CommentOf(st, j)
    ensures forall j: nat :: j >= i ==> CommentOf(CommentDeleted(st, i), j) == CommentOf(st, j + 1)
  {
    CommentDeletedValid(st, i);
    var st' := CommentDeleted(st, i);
    var cf := st.commentFrames;
    var p := cf[i];
    FindInIncreasing(cf, i);
    assert st'.commentFrames == EraseFound(cf, i);
    assert st'.frames == st.frames[p := FlagToDelete(st.frames[p])];
    forall j: nat | j < i
      ensures CommentOf(st', j) == CommentOf(st, j)
    {
      if j < |st'.commentFrames| {
        assert cf[j] != p && cf[j] in cf;
      }
    }
    forall j: nat | j >= i
      ensures CommentOf(st', j) == CommentOf(st, j + 1)
    {
      if j < |st'.commentFrames| {
        assert st'.commentFrames[j] == cf[j + 1];
        assert cf[j + 1] != p && cf[j + 1] in cf;
      }
    }
  }

  lemma DeletedCommentKeepsTexts(st: TagState, i: nat)
    requires StateValid(st) && i < CommentCount(st)
    ensures StateValid(CommentDeleted(st, i))
    ensures forall u :: IsTextFrameType(u) ==> TextOf(CommentDeleted(st, i), u) == TextOf(st, u)
  {
    CommentDeletedValid(st, i);
    var st' := CommentDeleted(st, i);
    var p := st.commentFrames[i];
    ListedComment(st, p);
    assert st'.frames == st.frames[p := FlagToDelete(st.frames[p])];
    CommentFrameOnly(st, p, st'.frames);
    TextsFromPositions(st, st');
  }

  // ---------------------------------------------------------------------------
  // Write

  /** What Write leaves behind: its result, the reloaded state, and the file's bytes. */
  datatype WriteOutcome = WriteOutcome(ok: bool, state: TagState, file: seq<byte>)

  /** The file Write produces over `file`, the bytes on disk: the frames' section rewritten in front of the audio. */
  function WrittenImage(st: TagState, file: seq<byte>): (image: seq<byte>)
    requires StateValid(st) && |file| >= FileHeaderSize + |st.frameBuffer|
    ensures |image| >= FileHeaderSize
  {
    RewrittenImage(st.fileHeader, SectionImage(st.frames, st.frameBuffer, Version(st)), |st.frameBuffer|, file)
  }

  /**
   * Write: nothing happens and false is returned when nothing changed;
   * otherwise the file is rewritten and LoadTagData reloads it, and its
   * result is returned.
   */
  function Written(st: TagState, file: seq<byte>): (out: WriteOutcome)
    requires StateValid(st) && |file| >= FileHeaderSize + |st.frameBuffer|
    ensures StateValid(out.state) && !out.state.isDirty
    ensures !st.isDirty ==> !out.ok && out.state == st && out.file == file
  {
    if !st.isDirty then WriteOutcome(false, st, file)
    else
      var image := WrittenImage(st, file);
      LoadedValid(st, image);
      WriteOutcome(LoadSucceeds(image), Loaded(st, image), image)
  }

  /** The bytes Write lays out for a dirty state are WrittenImage, and Written is their load. */
  lemma WriteStep(st: TagState, disk: seq<byte>, file: seq<byte>)
    requires StateValid(st) && st.isDirty && |disk| >= FileHeaderSize + |st.frameBuffer|
    requires file == RewrittenImage(st.fileHeader, SectionImage(st.frames, st.frameBuffer, st.fileHeader.majorVersion), |st.frameBuffer|, disk)
    ensures Written(st, disk) == WriteOutcome(LoadSucceeds(file), Loaded(st, file), file)
  {
    assert file == WrittenImage(st, disk);
  }

  /** Loading a file of at least ten bytes does not depend on the header held before. */
  lemma LoadedIgnoresHeader(st: TagState, st': TagState, file: seq<byte>)
    requires WellFormedHeader(st.fileHeader) && WellFormedHeader(st'.fileHeader)
    requires |file| >= FileHeaderSize && st.audioBufferOffset == st'.audioBufferOffset
    ensures Loaded(st, file) == Loaded(st', file)
  {
  }

  /** A loaded state fits the file it was loaded from and has a valid header. */
  lemma LoadedFitsFile(st: TagState, file: seq<byte>)
    requires StateValid(st) && LoadSucceeds(file)
    ensures StateValid(Loaded(st, file))
    ensures |file| >= FileHeaderSize + |Loaded(st, file).frameBuffer|
    ensures IsValidFileHeader(Loaded(st, file).fileHeader)
  {
    LoadedValid(st, file);
  }

  /** The file Write produces has a valid header declaring the frames plus the padding. */
  lemma WrittenHeaderValid(st: TagState, file: seq<byte>)
    requires StateValid(st) && |file| >= FileHeaderSize + |st.frameBuffer|
    requires IsValidFileHeader(st.fileHeader)
    requires SectionSize(st.frames, st.frameBuffer, Version(st)) + PaddingBytes < 0x1000_0000
    ensures var image := WrittenImage(st, file);
      var size := SectionSize(st.frames, st.frameBuffer, Version(st));
      LoadSucceeds(image)
      && FrameSectionSize(ReadFileHeader(image[..FileHeaderSize])) == size + PadBytes(size, |st.frameBuffer|)
  {
    RewrittenHeaderValid(st.fileHeader, SectionImage(st.frames, st.frameBuffer, Version(st)), |st.frameBuffer|, file);
  }

  /**
   * Write of a changed, valid tag succeeds and keeps the audio: the reloaded
   * state points its audio offset at the old file's bytes after the old tag,
   * now placed after the frames and the padding, and its frame section holds
   * the written frames then zeros.  When the frames fit in the old section,
   * the file keeps its length and the audio does not move.
   */
  lemma WriteKeepsAudio(st: TagState, file: seq<byte>)
    requires StateValid(st) && |file| >= FileHeaderSize + |st.frameBuffer|
    requires st.isDirty && IsValidFileHeader(st.fileHeader)
    requires SectionSize(st.frames, st.frameBuffer, Version(st)) + PaddingBytes < 0x1000_0000
    ensures var out := Written(st, file);
      var section := SectionImage(st.frames, st.frameBuffer, Version(st));
      var pad := PadBytes(|section|, |st.frameBuffer|);
      out.ok && !out.state.isDirty
      && out.state.audioBufferOffset == FileHeaderSize + |section| + pad
      && out.file[out.state.audioBufferOffset..] == file[FileHeaderSize + |st.frameBuffer|..]
      && out.state.frameBuffer == section + Zeros(pad)
      && (|section| <= |st.frameBuffer| ==> |out.file| == |file| && out.state.audioBufferOffset == FileHeaderSize + |st.frameBuffer|)
  {
    var image := WrittenImage(st, file);
    RewriteReloads(st.fileHeader, SectionImage(st.frames, st.frameBuffer, Version(st)), |st.frameBuffer|, file);
  }

  /**
   * What loading the rewritten file reads back, over the header, the
   * frames' bytes and the old file alone: a valid header, the frames then
   * the zeros as the section, and the old audio at the audio offset.
   */
  lemma RewriteReloads(h: FileHeader, section: seq<byte>, oldSize: nat, file: seq<byte>)
    requires IsValidFileHeader(h) && WellFormedHeader(h)
    requires |file| >= FileHeaderSize + oldSize && oldSize < 0x1000_0000
    requires |section| + PaddingBytes < 0x1000_0000
    ensures var image := RewrittenImage(h, section, oldSize, file);
      var pad := PadBytes(|section|, oldSize);
      var h' := ReadFileHeader(image[..FileHeaderSize]);
      LoadSucceeds(image)
      && AudioBufferOffset(h') == FileHeaderSize + |section| + pad
      && image[AudioBufferOffset(h')..] == file[FileHeaderSize + oldSize..]
      && LoadedBuffer(image, FrameSectionSize(h')) == section + Zeros(pad)
      && (|section| <= oldSize ==> |image| == |file| && AudioBufferOffset(h') == FileHeaderSize + oldSize)
  {
    var image := RewrittenImage(h, section, oldSize, file);
    var pad := PadBytes(|section|, oldSize);
    RewrittenHeaderValid(h, section, oldSize, file);
    if |section| <= oldSize {
      RewriteInPlace(h, section, oldSize, file);
    } else {
      RewriteGrows(h, section, oldSize, file);
    }
    assert image[FileHeaderSize..FileHeaderSize + |section| + pad] == section + Zeros(pad);
  }
}
