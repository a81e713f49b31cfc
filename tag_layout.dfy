/**
 * Value-level definitions behind Mp3TagData: what a consistent frame list and
 * its two index lists look like, how frames are looked up, how the ANSI
 * layout SetText writes is read back, and the byte image Write produces.
 * The class in mp3_tag_data.dfy is specified in these terms.
 */
module TagLayout {
  import opened Bytes
  import opened ID3v2Frames
  import opened Mp3BaseTagData
  import opened TagFrame
  import opened ID3v2FileHeader
  import opened FrameParse

  /** kPaddingBytes: the padding written when the frames outgrow the old section. */
  const PaddingBytes: nat := 2048

  // ---------------------------------------------------------------------------
  // Consistent state

  /** A frame the list may hold: an original lies wholly in the buffer, a replacement holds at least a header. */
  predicate FrameFits(f: Frame, buf: seq<byte>, majorVersion: byte)
  {
    WellFormed(f) && InBuffer(f, buf)
    && match f
       case Original(o) => o + FrameHeaderSize <= |buf| && o + GetFrameBytes(buf[o..], majorVersion) <= |buf|
       case Tombstone(_, _) => true
       case Replacement(_, b) => |b| >= FrameHeaderSize
  }

  /** Not flagged for deletion. */
  predicate Live(f: Frame)
  {
    !f.Tombstone?
  }

  predicate FramesFit(frames: seq<Frame>, buf: seq<byte>, majorVersion: byte)
  {
    forall i :: 0 <= i < |frames| ==> FrameFits(frames[i], buf, majorVersion)
  }

  /**
   * An index list is consistent with the frames: strictly increasing, in
   * range, pointing only at live frames, and holding exactly the live frames
   * of its kind.
   */
  predicate IndexValid(kind: IndexKind, frames: seq<Frame>, buf: seq<byte>, majorVersion: byte, idx: seq<nat>)
    requires FramesFit(frames, buf, majorVersion)
  {
    StrictlyIncreasing(idx)
    && (forall k :: 0 <= k < |idx| ==> idx[k] < |frames| && Live(frames[idx[k]]))
    && (forall p :: 0 <= p < |frames| && Live(frames[p]) ==> (p in idx <==> OfKind(kind, frames[p], buf)))
  }

  /** isDirty_ holds exactly when some frame is a replacement or a tombstone. */
  predicate DirtyMatches(frames: seq<Frame>, dirty: bool)
  {
    dirty <==> exists i :: 0 <= i < |frames| && !frames[i].Original?
  }

  /** Every entry of `idx` names a frame with a readable header. */
  predicate Indexable(frames: seq<Frame>, buf: seq<byte>, idx: seq<nat>)
  {
    forall k :: 0 <= k < |idx| ==> idx[k] < |frames| && HasHeader(frames[idx[k]], buf)
  }

  lemma IndexValidIsIndexable(kind: IndexKind, frames: seq<Frame>, buf: seq<byte>, majorVersion: byte, idx: seq<nat>)
    requires FramesFit(frames, buf, majorVersion) && IndexValid(kind, frames, buf, majorVersion, idx)
    ensures Indexable(frames, buf, idx)
  {
  }

  /** The lists ParseFrames builds from the frames it found are consistent, and nothing is dirty. */
  lemma ParsedStateValid(buf: seq<byte>, majorVersion: byte)
    ensures var frames := FrameList(buf, 0, majorVersion);
      FramesFit(frames, buf, majorVersion)
      && (forall i :: 0 <= i < |frames| ==> frames[i].Original? && HasHeader(frames[i], buf))
      && IndexValid(TextIndex, frames, buf, majorVersion, IndexPositions(TextIndex, frames, buf, |frames|))
      && IndexValid(CommentIndex, frames, buf, majorVersion, IndexPositions(CommentIndex, frames, buf, |frames|))
      && DirtyMatches(frames, false)
  {
    var frames := FrameList(buf, 0, majorVersion);
    FrameListWalk(buf, 0, majorVersion);
    forall i | 0 <= i < |frames|
      ensures FrameFits(frames[i], buf, majorVersion) && HasHeader(frames[i], buf)
    {
      assert frames[i].Original? && FrameStartsAt(buf, frames[i].offset, majorVersion);
    }
    ParsedIndexValid(TextIndex, frames, buf, majorVersion);
    ParsedIndexValid(CommentIndex, frames, buf, majorVersion);
  }

  /** Over frames none of which is flagged, the positions of a kind form a consistent index list. */
  lemma ParsedIndexValid(kind: IndexKind, frames: seq<Frame>, buf: seq<byte>, majorVersion: byte)
    requires FramesFit(frames, buf, majorVersion)
    requires forall i :: 0 <= i < |frames| ==> frames[i].Original? && HasHeader(frames[i], buf)
    ensures IndexValid(kind, frames, buf, majorVersion, IndexPositions(kind, frames, buf, |frames|))
  {
  }

  // ---------------------------------------------------------------------------
  // Keeping the lists consistent

  /** Replacing a live frame by a live frame of the same kind keeps an index list consistent. */
  lemma ReplaceKeepsIndex(kind: IndexKind, frames: seq<Frame>, buf: seq<byte>, majorVersion: byte, idx: seq<nat>,
                          p: nat, g: Frame)
    requires FramesFit(frames, buf, majorVersion) && IndexValid(kind, frames, buf, majorVersion, idx)
    requires p < |frames| && Live(frames[p]) && Live(g) && FrameFits(g, buf, majorVersion)
    requires OfKind(kind, g, buf) == OfKind(kind, frames[p], buf)
    ensures FramesFit(frames[p := g], buf, majorVersion)
    ensures IndexValid(kind, frames[p := g], buf, majorVersion, idx)
  {
  }

  /** Appending a live frame keeps an index list consistent when its position is appended exactly if it is of the kind. */
  lemma AppendKeepsIndex(kind: IndexKind, frames: seq<Frame>, buf: seq<byte>, majorVersion: byte, idx: seq<nat>, g: Frame)
    requires FramesFit(frames, buf, majorVersion) && IndexValid(kind, frames, buf, majorVersion, idx)
    requires Live(g) && FrameFits(g, buf, majorVersion)
    ensures FramesFit(frames + [g], buf, majorVersion)
    ensures IndexValid(kind, frames + [g], buf, majorVersion, if OfKind(kind, g, buf) then idx + [|frames|] else idx)
  {
    AppendFits(frames, buf, majorVersion, g);
    if OfKind(kind, g, buf) {
      AppendIncreasing(idx, |frames|);
      AppendKindPositions(kind, frames, buf, majorVersion, idx, g, idx + [|frames|]);
    } else {
      AppendKindPositions(kind, frames, buf, majorVersion, idx, g, idx);
    }
  }

  /** Appending a frame that fits keeps every frame fitting. */
  lemma AppendFits(frames: seq<Frame>, buf: seq<byte>, majorVersion: byte, g: Frame)
    requires FramesFit(frames, buf, majorVersion) && FrameFits(g, buf, majorVersion)
    ensures FramesFit(frames + [g], buf, majorVersion)
  {
    assert forall i :: 0 <= i < |frames| ==> (frames + [g])[i] == frames[i];
  }

  /** The membership half of AppendKeepsIndex: the old positions keep their answer, the new one is in exactly if it is of the kind. */
  lemma AppendKindPositions(kind: IndexKind, frames: seq<Frame>, buf: seq<byte>, majorVersion: byte, idx: seq<nat>,
                            g: Frame, idx': seq<nat>)
    requires FramesFit(frames + [g], buf, majorVersion) && FramesFit(frames, buf, majorVersion)
    requires IndexValid(kind, frames, buf, majorVersion, idx) && Live(g) && FrameFits(g, buf, majorVersion)
    requires idx' == if OfKind(kind, g, buf) then idx + [|frames|] else idx
    requires StrictlyIncreasing(idx')
    ensures IndexValid(kind, frames + [g], buf, majorVersion, idx')
  {
    ListedStillLive(kind, frames, buf, majorVersion, idx, g, idx');
    OldPositionsKept(kind, frames, buf, majorVersion, idx, g, idx');
    NewPositionKept(kind, frames, buf, majorVersion, idx, g, idx');
  }

  /** Every entry of the new list names a live frame of the new frames. */
  lemma ListedStillLive(kind: IndexKind, frames: seq<Frame>, buf: seq<byte>, majorVersion: byte, idx: seq<nat>,
                        g: Frame, idx': seq<nat>)
    requires FramesFit(frames, buf, majorVersion) && IndexValid(kind, frames, buf, majorVersion, idx)
    requires FrameFits(g, buf, majorVersion) && Live(g)
    requires idx' == if OfKind(kind, g, buf) then idx + [|frames|] else idx
    ensures forall k :: 0 <= k < |idx'| ==> idx'[k] < |frames + [g]| && Live((frames + [g])[idx'[k]])
  {
    forall k | 0 <= k < |idx'|
      ensures idx'[k] < |frames + [g]| && Live((frames + [g])[idx'[k]])
    {
      if k < |idx| {
        assert idx'[k] == idx[k] && (frames + [g])[idx[k]] == frames[idx[k]];
      }
    }
  }

  /** The appended position is in the new list exactly when the appended frame is of the kind. */
  lemma NewPositionKept(kind: IndexKind, frames: seq<Frame>, buf: seq<byte>, majorVersion: byte, idx: seq<nat>,
                        g: Frame, idx': seq<nat>)
    requires FramesFit(frames, buf, majorVersion) && IndexValid(kind, frames, buf, majorVersion, idx)
    requires FrameFits(g, buf, majorVersion) && Live(g)
    requires idx' == if OfKind(kind, g, buf) then idx + [|frames|] else idx
    ensures HasHeader((frames + [g])[|frames|], buf)
    ensures |frames| in idx' <==> OfKind(kind, (frames + [g])[|frames|], buf)
  {
    assert |frames| !in idx;
  }

  /** The positions below the appended one are in the new list exactly when they were in the old. */
  lemma OldPositionsKept(kind: IndexKind, frames: seq<Frame>, buf: seq<byte>, majorVersion: byte, idx: seq<nat>,
                         g: Frame, idx': seq<nat>)
    requires FramesFit(frames, buf, majorVersion) && IndexValid(kind, frames, buf, majorVersion, idx)
    requires FrameFits(g, buf, majorVersion) && Live(g)
    requires idx' == if OfKind(kind, g, buf) then idx + [|frames|] else idx
    ensures forall p :: 0 <= p < |frames| && Live((frames + [g])[p]) ==>
      HasHeader((frames + [g])[p], buf) && (p in idx' <==> OfKind(kind, (frames + [g])[p], buf))
  {
    forall p | 0 <= p < |frames| && Live((frames + [g])[p])
      ensures HasHeader((frames + [g])[p], buf) && (p in idx' <==> OfKind(kind, (frames + [g])[p], buf))
    {
      assert (frames + [g])[p] == frames[p];
      assert p in idx' <==> p in idx;
    }
  }

  /** Appending a value above every entry keeps a list strictly increasing. */
  lemma AppendIncreasing(idx: seq<nat>, n: nat)
    requires StrictlyIncreasing(idx) && forall k :: 0 <= k < |idx| ==> idx[k] < n
    ensures StrictlyIncreasing(idx + [n])
  {
  }

  /** std::ranges::find: the first position of `p` in `idx`, or |idx| when it is absent. */
  function Find(idx: seq<nat>, p: nat): (k: nat)
    ensures k <= |idx|
    ensures k < |idx| ==> idx[k] == p
    ensures forall j :: 0 <= j < k ==> idx[j] != p
  {
    if |idx| == 0 then 0 else if idx[0] == p then 0 else 1 + Find(idx[1..], p)
  }

  /** vector::erase at a found position; erasing at the end position is not done. */
  function EraseFound(idx: seq<nat>, k: nat): (r: seq<nat>)
    requires k <= |idx|
    ensures |r| == if k < |idx| then |idx| - 1 else |idx|
    ensures forall j :: 0 <= j < k && j < |r| ==> r[j] == idx[j]
    ensures forall j :: k <= j < |r| ==> r[j] == idx[j + 1]
  {
    if k < |idx| then idx[..k] + idx[k + 1..] else idx
  }

  /** In a strictly increasing list, find returns the only position holding the value. */
  lemma FindInIncreasing(idx: seq<nat>, i: nat)
    requires StrictlyIncreasing(idx) && i < |idx|
    ensures Find(idx, idx[i]) == i
  {
  }

  /** Erasing keeps a list strictly increasing, and removes exactly the value found. */
  lemma EraseFoundKeepsIncreasing(idx: seq<nat>, p: nat)
    requires StrictlyIncreasing(idx)
    ensures StrictlyIncreasing(EraseFound(idx, Find(idx, p)))
    ensures forall q :: q in EraseFound(idx, Find(idx, p)) <==> q in idx && q != p
  {
    var k := Find(idx, p);
    if k < |idx| {
      EraseAtKeepsIncreasing(idx, k);
      EraseAtMembers(idx, k);
    }
  }

  /** Removing one entry of a strictly increasing list leaves it strictly increasing. */
  lemma EraseAtKeepsIncreasing(idx: seq<nat>, k: nat)
    requires StrictlyIncreasing(idx) && k < |idx|
    ensures StrictlyIncreasing(idx[..k] + idx[k + 1..])
  {
    var r := idx[..k] + idx[k + 1..];
    forall i, j | 0 <= i < j < |r|
      ensures r[i] < r[j]
    {
      var i' := if i < k then i else i + 1;
      var j' := if j < k then j else j + 1;
      assert r[i] == idx[i'] && r[j] == idx[j'];
    }
  }

  /** Removing the entry at k from a strictly increasing list removes exactly the value there. */
  lemma EraseAtMembers(idx: seq<nat>, k: nat)
    requires StrictlyIncreasing(idx) && k < |idx|
    ensures forall q :: q in idx[..k] + idx[k + 1..] <==> q in idx && q != idx[k]
  {
    var r := idx[..k] + idx[k + 1..];
    forall q | q in r
      ensures q in idx && q != idx[k]
    {
      var j :| 0 <= j < |r| && r[j] == q;
      var j' := if j < k then j else j + 1;
      assert idx[j'] == q;
    }
    forall q | q in idx && q != idx[k]
      ensures q in r
    {
      var j :| 0 <= j < |idx| && idx[j] == q;
      if j < k { assert r[j] == q; } else { assert r[j - 1] == q; }
    }
  }

  /**
   * Flagging a live frame for deletion and erasing its position from an index
   * list keeps the list consistent, whether or not the position was in it.
   */
  lemma TombstoneKeepsIndex(kind: IndexKind, frames: seq<Frame>, buf: seq<byte>, majorVersion: byte, idx: seq<nat>, p: nat)
    requires FramesFit(frames, buf, majorVersion) && IndexValid(kind, frames, buf, majorVersion, idx)
    requires p < |frames|
    ensures FramesFit(frames[p := FlagToDelete(frames[p])], buf, majorVersion)
    ensures IndexValid(kind, frames[p := FlagToDelete(frames[p])], buf, majorVersion, EraseFound(idx, Find(idx, p)))
  {
    EraseFoundKeepsIncreasing(idx, p);
    TombstoneFits(frames, buf, majorVersion, p);
    TombstoneKeepsMembers(kind, frames, buf, majorVersion, idx, EraseFound(idx, Find(idx, p)), p);
  }

  /** A flagged frame still fits. */
  lemma TombstoneFits(frames: seq<Frame>, buf: seq<byte>, majorVersion: byte, p: nat)
    requires FramesFit(frames, buf, majorVersion) && p < |frames|
    ensures FramesFit(frames[p := FlagToDelete(frames[p])], buf, majorVersion)
  {
    var frames' := frames[p := FlagToDelete(frames[p])];
    forall q | 0 <= q < |frames'|
      ensures FrameFits(frames'[q], buf, majorVersion)
    {
      if q != p { assert frames'[q] == frames[q]; }
    }
  }

  /** The list without `p` holds exactly the live frames of its kind once `p` is flagged. */
  lemma TombstoneKeepsMembers(kind: IndexKind, frames: seq<Frame>, buf: seq<byte>, majorVersion: byte,
                              idx: seq<nat>, idx': seq<nat>, p: nat)
    requires FramesFit(frames, buf, majorVersion) && IndexValid(kind, frames, buf, majorVersion, idx)
    requires p < |frames| && FramesFit(frames[p := FlagToDelete(frames[p])], buf, majorVersion)
    requires StrictlyIncreasing(idx')
    requires forall q :: q in idx' <==> q in idx && q != p
    ensures IndexValid(kind, frames[p := FlagToDelete(frames[p])], buf, majorVersion, idx')
  {
    var frames' := frames[p := FlagToDelete(frames[p])];
    forall k | 0 <= k < |idx'|
      ensures idx'[k] < |frames'| && Live(frames'[idx'[k]])
    {
      assert idx'[k] in idx';
    }
    forall q | 0 <= q < |frames'| && Live(frames'[q])
      ensures q in idx' <==> OfKind(kind, frames'[q], buf)
    {
      assert q != p && frames'[q] == frames[q];
    }
  }

  // ---------------------------------------------------------------------------
  // Lookups

  /**
   * std::ranges::find_if over an index list: the position in `idx` of the
   * first frame whose ID is the type's, or |idx| (the end) when there is none.
   */
  function FindIf(frames: seq<Frame>, buf: seq<byte>, idx: seq<nat>, t: Mp3FrameType): (k: nat)
    requires Indexable(frames, buf, idx)
    ensures k <= |idx|
    ensures k < |idx| ==> IsFrameID(frames[idx[k]], buf, t)
    ensures forall j :: 0 <= j < k ==> !IsFrameID(frames[idx[j]], buf, t)
    decreases |idx|
  {
    if |idx| == 0 then 0
    else if IsFrameID(frames[idx[0]], buf, t) then 0
    else 1 + FindIf(frames, buf, idx[1..], t)
  }

  /** GetTextFrameReferencePos: the frame position found by find_if, None standing for kInvalidFramePos. */
  function TextFrameReferencePos(frames: seq<Frame>, buf: seq<byte>, idx: seq<nat>, t: Mp3FrameType): (pos: Option<nat>)
    requires Indexable(frames, buf, idx)
    ensures pos.Some? ==> pos.value in idx && pos.value < |frames| && IsFrameID(frames[pos.value], buf, t)
    ensures pos.None? <==> forall k :: 0 <= k < |idx| ==> !IsFrameID(frames[idx[k]], buf, t)
  {
    var k := FindIf(frames, buf, idx, t);
    if k < |idx| then Some(idx[k]) else Option.None
  }

  /** GetCommentFrameReferencePos: the i-th entry of the comment list, None when i is out of range. */
  function CommentFrameReferencePos(idx: seq<nat>, i: nat): (pos: Option<nat>)
    ensures pos.None? <==> i >= |idx|
    ensures pos.Some? ==> pos.value in idx && pos.value == idx[i]
  {
    if i >= |idx| then Option.None else Some(idx[i])
  }

  /** Position `q` holds a frame with a header whose ID is the type's. */
  predicate IsMatch(frames: seq<Frame>, buf: seq<byte>, q: nat, t: Mp3FrameType)
  {
    q < |frames| && HasHeader(frames[q], buf) && IsFrameID(frames[q], buf, t)
  }

  /**
   * Over an increasing list, find_if finds the smallest listed position that
   * matches, and finds nothing exactly when no listed position matches.
   */
  lemma {:induction false} FirstMatch(frames: seq<Frame>, buf: seq<byte>, idx: seq<nat>, t: Mp3FrameType, q: nat)
    requires Indexable(frames, buf, idx) && StrictlyIncreasing(idx)
    ensures TextFrameReferencePos(frames, buf, idx, t) == Some(q) <==>
      q in idx && IsMatch(frames, buf, q, t) && forall q' :: q' in idx && q' < q ==> !IsMatch(frames, buf, q', t)
    ensures TextFrameReferencePos(frames, buf, idx, t).None? <==> forall q' :: q' in idx ==> !IsMatch(frames, buf, q', t)
  {
    if TextFrameReferencePos(frames, buf, idx, t) == Some(q) {
      FoundIsFirst(frames, buf, idx, t);
    }
    if q in idx && IsMatch(frames, buf, q, t) && forall q' :: q' in idx && q' < q ==> !IsMatch(frames, buf, q', t) {
      FirstIsFound(frames, buf, idx, t, q);
    }
    if TextFrameReferencePos(frames, buf, idx, t).None? {
      NoneFoundNoMatch(frames, buf, idx, t);
    }
  }

  /** Two lists whose matching positions are the same give the same find_if result. */
  lemma SameMatchesSameRef(frames: seq<Frame>, buf: seq<byte>, idx: seq<nat>,
                           frames': seq<Frame>, buf': seq<byte>, idx': seq<nat>, t: Mp3FrameType)
    requires Indexable(frames, buf, idx) && StrictlyIncreasing(idx)
    requires Indexable(frames', buf', idx') && StrictlyIncreasing(idx')
    requires forall q :: q in idx && IsMatch(frames, buf, q, t) ==> q in idx' && IsMatch(frames', buf', q, t)
    requires forall q :: q in idx' && IsMatch(frames', buf', q, t) ==> q in idx && IsMatch(frames, buf, q, t)
    ensures TextFrameReferencePos(frames', buf', idx', t) == TextFrameReferencePos(frames, buf, idx, t)
  {
    FirstMatch(frames, buf, idx, t, 0);
    FirstMatch(frames', buf', idx', t, 0);
    match TextFrameReferencePos(frames, buf, idx, t)
    case None =>
    case Some(q) =>
      FirstMatch(frames, buf, idx, t, q);
      FirstMatch(frames', buf', idx', t, q);
  }

  lemma {:induction false} FoundIsFirst(frames: seq<Frame>, buf: seq<byte>, idx: seq<nat>, t: Mp3FrameType)
    requires Indexable(frames, buf, idx) && StrictlyIncreasing(idx)
    requires TextFrameReferencePos(frames, buf, idx, t).Some?
    ensures var q := TextFrameReferencePos(frames, buf, idx, t).value;
      IsMatch(frames, buf, q, t) && forall q' :: q' in idx && q' < q ==> !IsMatch(frames, buf, q', t)
  {
    var k := FindIf(frames, buf, idx, t);
    var q := idx[k];
    forall q' | q' in idx && q' < q
      ensures !IsMatch(frames, buf, q', t)
    {
      var j :| 0 <= j < |idx| && idx[j] == q';
      assert j < k;
    }
  }

  lemma {:induction false} FirstIsFound(frames: seq<Frame>, buf: seq<byte>, idx: seq<nat>, t: Mp3FrameType, q: nat)
    requires Indexable(frames, buf, idx) && StrictlyIncreasing(idx)
    requires q in idx && IsMatch(frames, buf, q, t) && forall q' :: q' in idx && q' < q ==> !IsMatch(frames, buf, q', t)
    ensures TextFrameReferencePos(frames, buf, idx, t) == Some(q)
  {
    var k := FindIf(frames, buf, idx, t);
    var m :| 0 <= m < |idx| && idx[m] == q;
    assert k < |idx| ==> idx[k] in idx;
  }

  lemma {:induction false} NoneFoundNoMatch(frames: seq<Frame>, buf: seq<byte>, idx: seq<nat>, t: Mp3FrameType)
    requires Indexable(frames, buf, idx)
    requires TextFrameReferencePos(frames, buf, idx, t).None?
    ensures forall q' :: q' in idx ==> !IsMatch(frames, buf, q', t)
  {
    forall q' | q' in idx
      ensures !IsMatch(frames, buf, q', t)
    {
      var j :| 0 <= j < |idx| && idx[j] == q';
    }
  }

  /** Replacing the frame find_if found by one with the same ID leaves find_if's answer in place. */
  lemma FindIfAfterReplace(frames: seq<Frame>, buf: seq<byte>, idx: seq<nat>, t: Mp3FrameType, g: Frame)
    requires Indexable(frames, buf, idx) && StrictlyIncreasing(idx)
    requires FindIf(frames, buf, idx, t) < |idx|
    requires var p := idx[FindIf(frames, buf, idx, t)]; InBuffer(g, buf) && HasHeader(g, buf) && IsFrameID(g, buf, t)
    ensures var p := idx[FindIf(frames, buf, idx, t)];
      Indexable(frames[p := g], buf, idx) && FindIf(frames[p := g], buf, idx, t) == FindIf(frames, buf, idx, t)
  {
    var k := FindIf(frames, buf, idx, t);
    var p := idx[k];
    var frames' := frames[p := g];
    assert Indexable(frames', buf, idx);
    FindIfFirst(frames', buf, idx, t, k);
  }

  /** find_if returns `k` when the frame there matches and no earlier one does. */
  lemma {:induction false} FindIfFirst(frames: seq<Frame>, buf: seq<byte>, idx: seq<nat>, t: Mp3FrameType, k: nat)
    requires Indexable(frames, buf, idx) && k < |idx|
    requires IsFrameID(frames[idx[k]], buf, t)
    requires forall j :: 0 <= j < k ==> !IsFrameID(frames[idx[j]], buf, t)
    ensures FindIf(frames, buf, idx, t) == k
    decreases k
  {
    if k > 0 {
      assert Indexable(frames, buf, idx[1..]);
      FindIfFirst(frames, buf, idx[1..], t, k - 1);
    }
  }

  /** After appending a matching frame and its position to a list with no match, find_if finds the new frame. */
  lemma {:induction false} FindIfAfterAppend(frames: seq<Frame>, buf: seq<byte>, idx: seq<nat>, t: Mp3FrameType, g: Frame)
    requires Indexable(frames, buf, idx)
    requires FindIf(frames, buf, idx, t) == |idx|
    requires InBuffer(g, buf) && HasHeader(g, buf) && IsFrameID(g, buf, t)
    ensures Indexable(frames + [g], buf, idx + [|frames|])
    ensures FindIf(frames + [g], buf, idx + [|frames|], t) == |idx|
  {
    var frames' := frames + [g];
    var idx' := idx + [|frames|];
    AppendIndexable(frames, buf, idx, g);
    AppendKeepsListed(frames, idx, g);
    FindIfFirst(frames', buf, idx', t, |idx|);
  }

  /** Appending a frame and its position leaves every listed position naming the same frame. */
  lemma AppendKeepsListed(frames: seq<Frame>, idx: seq<nat>, g: Frame)
    requires forall k :: 0 <= k < |idx| ==> idx[k] < |frames|
    ensures forall k :: 0 <= k < |idx| ==> (idx + [|frames|])[k] == idx[k] && (frames + [g])[idx[k]] == frames[idx[k]]
  {
  }

  /** Appending a frame with a header and its position keeps every listed position pointing at a frame with a header. */
  lemma AppendIndexable(frames: seq<Frame>, buf: seq<byte>, idx: seq<nat>, g: Frame)
    requires Indexable(frames, buf, idx) && HasHeader(g, buf)
    ensures Indexable(frames + [g], buf, idx + [|frames|])
  {
    var frames' := frames + [g];
    var idx' := idx + [|frames|];
    forall k | 0 <= k < |idx'|
      ensures idx'[k] < |frames'| && HasHeader(frames'[idx'[k]], buf)
    {
      if k < |idx| {
        assert idx'[k] == idx[k] && frames'[idx[k]] == frames[idx[k]];
      } else {
        assert frames'[idx'[k]] == g;
      }
    }
  }

  // ---------------------------------------------------------------------------
  // Reading text back

  /**
   * GetTextBytes: the bytes from `textOffset` to the end of the frame, the
   * end being 10 + the declared size computed in 32 bits.
   */
  function GetTextBytes(textOffset: nat, rawFrame: seq<byte>, majorVersion: byte): (n: nat)
    requires |rawFrame| >= FrameHeaderSize
    requires textOffset <= (FrameHeaderSize + GetSize(rawFrame, majorVersion)) % U32Limit
    ensures FrameHeaderSize + GetSize(rawFrame, majorVersion) < U32Limit ==>
      textOffset + n == FrameHeaderSize + GetSize(rawFrame, majorVersion)
  {
    (FrameHeaderSize + GetSize(rawFrame, majorVersion)) % U32Limit - textOffset
  }

  /** The end of a frame: 10 + its declared size. */
  function FrameEnd(rawFrame: seq<byte>, majorVersion: byte): (end: nat)
    requires |rawFrame| >= FrameHeaderSize
  {
    FrameHeaderSize + GetSize(rawFrame, majorVersion)
  }

  /** A frame whose declared end lies inside its data and fits a uint32_t. */
  predicate EndInData(data: seq<byte>, majorVersion: byte)
  {
    |data| >= FrameHeaderSize && FrameEnd(data, majorVersion) <= |data| && FrameEnd(data, majorVersion) < U32Limit
  }

  /**
   * The payload of a text frame in the ANSI layout: the bytes after the
   * encoding byte up to the end of the frame.  None for any other encoding,
   * which this model does not decode.
   */
  function TextFramePayload(data: seq<byte>, majorVersion: byte): (payload: Option<seq<byte>>)
    requires |data| >= FrameHeaderSize
    ensures payload.Some? ==> |data| > FrameHeaderSize && data[FrameHeaderSize] == EncodingByte(ANSI)
    ensures payload.Some? ==>
      TextFrameFixedSize + |payload.value| == FrameEnd(data, majorVersion) <= |data|
      && payload.value == data[TextFrameFixedSize..FrameEnd(data, majorVersion)]
  {
    if EndInData(data, majorVersion) && TextFrameFixedSize <= FrameEnd(data, majorVersion)
       && data[FrameHeaderSize] == EncodingByte(ANSI)
    then
      var n := GetTextBytes(TextFrameFixedSize, data, majorVersion);
      Some(data[TextFrameFixedSize..TextFrameFixedSize + n])
    else Option.None
  }

  /** The text of a text frame: its payload with trailing NULs removed. */
  function TextFrameText(data: seq<byte>, majorVersion: byte): (text: Option<seq<byte>>)
    requires |data| >= FrameHeaderSize
    ensures text.Some? <==> TextFramePayload(data, majorVersion).Some?
    ensures text.Some? ==>
      TextFrameFixedSize + |text.value| <= FrameEnd(data, majorVersion) <= |data|
      && text.value == data[TextFrameFixedSize..TextFrameFixedSize + |text.value|]
      && (forall k :: TextFrameFixedSize + |text.value| <= k < FrameEnd(data, majorVersion) ==> data[k] == 0)
      && (text.value == [] || text.value[|text.value| - 1] != 0)
  {
    match TextFramePayload(data, majorVersion)
    case None => Option.None
    case Some(payload) => Some(TrimTrailingNul(payload))
  }

  /** The first NUL from `j` on, before `end`: the end of a comment's description. */
  function NulFrom(data: seq<byte>, j: nat, end: nat): (r: Option<nat>)
    requires end <= |data|
    ensures r.Some? ==> j <= r.value < end && data[r.value] == 0
    ensures r.Some? ==> forall m :: j <= m < r.value ==> data[m] != 0
    ensures r.None? ==> forall m :: j <= m < end ==> data[m] != 0
    decreases end - j
  {
    if j >= end then Option.None
    else if data[j] == 0 then Some(j)
    else NulFrom(data, j + 1, end)
  }

  /** Offset of a comment's description: after the header, the encoding byte and the language. */
  const CommentDescriptionOffset: nat := 14

  /**
   * The payload of a comment frame in the ANSI layout: after the encoding
   * byte and the three-letter language, skip the NUL-terminated description;
   * the payload is the rest of the frame.
   */
  function CommentFramePayload(data: seq<byte>, majorVersion: byte): (payload: Option<seq<byte>>)
    requires |data| >= FrameHeaderSize
    ensures payload.Some? ==> |data| > FrameHeaderSize && data[FrameHeaderSize] == EncodingByte(ANSI)
  {
    if EndInData(data, majorVersion) && CommentDescriptionOffset <= FrameEnd(data, majorVersion)
       && data[FrameHeaderSize] == EncodingByte(ANSI)
    then
      match NulFrom(data, CommentDescriptionOffset, FrameEnd(data, majorVersion))
      case None => Option.None
      case Some(nul) =>
        var n := GetTextBytes(nul + 1, data, majorVersion);
        Some(data[nul + 1..nul + 1 + n])
    else Option.None
  }

  /** The text of a comment frame: its payload with trailing NULs removed. */
  function CommentFrameText(data: seq<byte>, majorVersion: byte): (text: Option<seq<byte>>)
    requires |data| >= FrameHeaderSize
    ensures text.Some? <==> CommentFramePayload(data, majorVersion).Some?
    ensures text.Some? ==>
      |text.value| <= |CommentFramePayload(data, majorVersion).value|
      && text.value == CommentFramePayload(data, majorVersion).value[..|text.value|]
      && (text.value == [] || text.value[|text.value| - 1] != 0)
  {
    match CommentFramePayload(data, majorVersion)
    case None => Option.None
    case Some(payload) => Some(TrimTrailingNul(payload))
  }

  /** Reading a text frame SetText built gives the text back without its trailing NULs, when its size fits the file's size form. */
  lemma TextFrameRoundTrip(id: seq<byte>, text: seq<byte>, majorVersion: byte)
    requires |id| == FrameIdCharCount
    requires 1 + |text| < Capacity(SizeBits(majorVersion)) && TextFrameFixedSize + |text| < U32Limit
    ensures TextFrameText(TextFrameImage(id, text, majorVersion), majorVersion) == Some(TrimTrailingNul(text))
  {
    TextPayloadRoundTrip(id, text, majorVersion);
  }

  /** The payload of a built text frame is the text as given. */
  lemma TextPayloadRoundTrip(id: seq<byte>, text: seq<byte>, majorVersion: byte)
    requires |id| == FrameIdCharCount
    requires 1 + |text| < Capacity(SizeBits(majorVersion)) && TextFrameFixedSize + |text| < U32Limit
    ensures TextFramePayload(TextFrameImage(id, text, majorVersion), majorVersion) == Some(text)
  {
    var image := TextFrameImage(id, text, majorVersion);
    var header := FrameHeader(id, 1 + |text|, majorVersion);
    FrameHeaderReadsBack(id, 1 + |text|, majorVersion);
    assert GetSize(header, majorVersion) == 1 + |text|;
    var prefix := header + [EncodingByte(ANSI)];
    assert |prefix| == TextFrameFixedSize;
    assert image == prefix + text;
    assert image[TextFrameFixedSize..] == text;
    assert image[4..8] == header[4..8];
    assert GetSize(image, majorVersion) == 1 + |text|;
    assert FrameEnd(image, majorVersion) == |image| == TextFrameFixedSize + |text|;
    assert EndInData(image, majorVersion);
    assert image[FrameHeaderSize] == EncodingByte(ANSI);
    assert GetTextBytes(TextFrameFixedSize, image, majorVersion) == |text|;
    assert image[TextFrameFixedSize..TextFrameFixedSize + |text|] == image[TextFrameFixedSize..];
  }

  /** Reading a comment frame SetComment built gives the comment back without its trailing NULs, when its size fits the file's size form. */
  lemma CommentFrameRoundTrip(id: seq<byte>, text: seq<byte>, majorVersion: byte)
    requires |id| == FrameIdCharCount
    requires 5 + |text| < Capacity(SizeBits(majorVersion)) && CommentFrameFixedSize + |text| < U32Limit
    ensures CommentFrameText(CommentFrameImage(id, text, majorVersion), majorVersion) == Some(TrimTrailingNul(text))
  {
    CommentPayloadRoundTrip(id, text, majorVersion);
  }

  /** The payload of a built comment frame is the comment as given. */
  lemma CommentPayloadRoundTrip(id: seq<byte>, text: seq<byte>, majorVersion: byte)
    requires |id| == FrameIdCharCount
    requires 5 + |text| < Capacity(SizeBits(majorVersion)) && CommentFrameFixedSize + |text| < U32Limit
    ensures CommentFramePayload(CommentFrameImage(id, text, majorVersion), majorVersion) == Some(text)
  {
    var image := CommentFrameImage(id, text, majorVersion);
    var header := FrameHeader(id, 5 + |text|, majorVersion);
    FrameHeaderReadsBack(id, 5 + |text|, majorVersion);
    assert GetSize(header, majorVersion) == 5 + |text|;
    assert image[..FrameHeaderSize] == header;
    assert image[4..8] == header[4..8];
    assert GetSize(image, majorVersion) == 5 + |text|;
    assert FrameEnd(image, majorVersion) == |image| == CommentFrameFixedSize + |text|;
    assert EndInData(image, majorVersion);
    assert image[FrameHeaderSize] == EncodingByte(ANSI);
    assert image[CommentDescriptionOffset] == 0;
    assert NulFrom(image, CommentDescriptionOffset, FrameEnd(image, majorVersion)) == Some(CommentDescriptionOffset);
    assert GetTextBytes(CommentFrameFixedSize, image, majorVersion) == |text|;
    assert image[CommentFrameFixedSize..CommentFrameFixedSize + |text|] == text;
  }

  // ---------------------------------------------------------------------------
  // The rewrite

  /** The bytes Write stores for one frame: GetWriteBytes bytes of GetData, nothing for a tombstone. */
  function FrameWriteData(f: Frame, buf: seq<byte>, majorVersion: byte): (d: seq<byte>)
    requires FrameFits(f, buf, majorVersion)
    ensures |d| == GetWriteBytes(f, buf, majorVersion)
    ensures f.Original? ==> d == buf[f.offset..f.offset + GetWriteBytes(f, buf, majorVersion)]
    ensures f.Replacement? ==> d == f.bytes
  {
    var n := GetWriteBytes(f, buf, majorVersion);
    if n == 0 then [] else GetData(f, buf).value[..n]
  }

  /** The fold of GetWriteBytes over the frames: the new frame-section size. */
  function SectionSize(frames: seq<Frame>, buf: seq<byte>, majorVersion: byte): (size: nat)
    requires FramesFit(frames, buf, majorVersion)
  {
    if |frames| == 0 then 0
    else SectionSize(frames[..|frames| - 1], buf, majorVersion) + GetWriteBytes(frames[|frames| - 1], buf, majorVersion)
  }

  /** The frames' bytes as Write stores them, in list order, tombstones skipped. */
  function SectionImage(frames: seq<Frame>, buf: seq<byte>, majorVersion: byte): (image: seq<byte>)
    requires FramesFit(frames, buf, majorVersion)
    ensures |image| == SectionSize(frames, buf, majorVersion)
  {
    if |frames| == 0 then []
    else SectionImage(frames[..|frames| - 1], buf, majorVersion) + FrameWriteData(frames[|frames| - 1], buf, majorVersion)
  }

  /** One more frame of a consistent list: the size grows by its write size and the image by its bytes. */
  lemma SectionStep(frames: seq<Frame>, buf: seq<byte>, majorVersion: byte, i: nat)
    requires FramesFit(frames, buf, majorVersion) && i < |frames|
    ensures FramesFit(frames[..i], buf, majorVersion) && FramesFit(frames[..i + 1], buf, majorVersion)
    ensures SectionSize(frames[..i + 1], buf, majorVersion) ==
      SectionSize(frames[..i], buf, majorVersion) + GetWriteBytes(frames[i], buf, majorVersion)
    ensures SectionImage(frames[..i + 1], buf, majorVersion) ==
      SectionImage(frames[..i], buf, majorVersion) + FrameWriteData(frames[i], buf, majorVersion)
  {
    assert frames[..i + 1][..i] == frames[..i];
  }

  /** The image of two lists one after the other is the two images one after the other. */
  lemma {:induction false} SectionImageAppend(a: seq<Frame>, b: seq<Frame>, buf: seq<byte>, majorVersion: byte)
    requires FramesFit(a, buf, majorVersion) && FramesFit(b, buf, majorVersion)
    ensures FramesFit(a + b, buf, majorVersion)
    ensures SectionImage(a + b, buf, majorVersion) == SectionImage(a, buf, majorVersion) + SectionImage(b, buf, majorVersion)
    decreases |b|
  {
    if |b| > 0 {
      var b' := b[..|b| - 1];
      assert (a + b)[..|a + b| - 1] == a + b';
      SectionImageAppend(a, b', buf, majorVersion);
    } else {
      assert a + b == a;
    }
  }

  /** A tombstone contributes nothing: the image is the frames before it followed by the frames after it. */
  lemma SectionImageSkipsTombstone(frames: seq<Frame>, buf: seq<byte>, majorVersion: byte, p: nat)
    requires FramesFit(frames, buf, majorVersion) && p < |frames| && frames[p].Tombstone?
    ensures SectionImage(frames, buf, majorVersion) ==
      SectionImage(frames[..p], buf, majorVersion) + SectionImage(frames[p + 1..], buf, majorVersion)
  {
    assert frames == frames[..p] + [frames[p]] + frames[p + 1..];
    SectionImageAppend(frames[..p], [frames[p]], buf, majorVersion);
    SectionImageAppend(frames[..p] + [frames[p]], frames[p + 1..], buf, majorVersion);
    assert SectionImage([frames[p]], buf, majorVersion) == [];
    assert SectionImage(frames[..p], buf, majorVersion) + [] == SectionImage(frames[..p], buf, majorVersion);
  }

  /** padBytes: the bytes the old section has to spare, or kPaddingBytes when the frames outgrow it. */
  function PadBytes(sectionSize: nat, bufferSize: nat): (pad: nat)
    ensures sectionSize <= bufferSize ==> sectionSize + pad == bufferSize
    ensures sectionSize > bufferSize ==> pad == PaddingBytes
  {
    if sectionSize > bufferSize then PaddingBytes else bufferSize - sectionSize
  }

  /**
   * The file after Write, given the frames' bytes `section` and the size of
   * the old frame section: the header declaring the new section size, the
   * frames, the padding, then the old file from the end of the old tag on.
   * When the frames fit in the old section these bytes overwrite the old tag
   * in place; otherwise the audio is read first and written after the padding.
   */
  function RewrittenImage(h: FileHeader, section: seq<byte>, oldSize: nat, file: seq<byte>): (image: seq<byte>)
    requires WellFormedHeader(h)
    requires |file| >= FileHeaderSize + oldSize
    ensures |image| == FileHeaderSize + |section| + PadBytes(|section|, oldSize) + (|file| - FileHeaderSize - oldSize)
  {
    var pad := PadBytes(|section|, oldSize);
    Assemble(WriteFileHeader(WithSectionSize(h, |section| + pad)), section, pad, file[FileHeaderSize + oldSize..])
  }

  /** The four pieces of the rewritten file, one after the other, each recoverable by its position. */
  function Assemble(header: seq<byte>, section: seq<byte>, pad: nat, rest: seq<byte>): (image: seq<byte>)
    ensures |image| == |header| + |section| + pad + |rest|
    ensures image[..|header|] == header
    ensures image[|header|..|header| + |section|] == section
    ensures image[|header| + |section|..|header| + |section| + pad] == Zeros(pad)
    ensures image[|header| + |section| + pad..] == rest
  {
    ConcatenationParts(header, section, Zeros(pad), rest);
    header + section + Zeros(pad) + rest
  }

  /** The header Write stores: the old one declaring `size` bytes of frames plus the padding. */
  function NewHeader(h: FileHeader, size: nat, oldSize: nat): (h': FileHeader)
    requires WellFormedHeader(h)
    ensures WellFormedHeader(h') && h'.majorVersion == h.majorVersion
  {
    WithSectionSize(h, size + PadBytes(size, oldSize))
  }

  /** Given the padding and the header Write chooses, the rewritten file is the four pieces one after the other. */
  lemma RewrittenImageIs(h: FileHeader, section: seq<byte>, oldSize: nat, file: seq<byte>, header: FileHeader, pad: nat)
    requires WellFormedHeader(h) && |file| >= FileHeaderSize + oldSize
    requires pad == PadBytes(|section|, oldSize) && header == WithSectionSize(h, |section| + pad)
    ensures RewrittenImage(h, section, oldSize, file) ==
      WriteFileHeader(header) + section + Zeros(pad) + file[FileHeaderSize + oldSize..]
  {
  }

  /** Where each of four concatenated pieces lies. */
  lemma ConcatenationParts(a: seq<byte>, b: seq<byte>, c: seq<byte>, d: seq<byte>)
    ensures var s := a + b + c + d;
      s[..|a|] == a && s[|a|..|a| + |b|] == b && s[|a| + |b|..|a| + |b| + |c|] == c && s[|a| + |b| + |c|..] == d
  {
  }

  /** The rewritten file's header reads back as the old one declaring frames plus padding. */
  lemma RewrittenHeader(h: FileHeader, section: seq<byte>, oldSize: nat, file: seq<byte>)
    requires WellFormedHeader(h)
    requires |file| >= FileHeaderSize + oldSize
    ensures ReadFileHeader(RewrittenImage(h, section, oldSize, file)[..FileHeaderSize]) ==
      WithSectionSize(h, |section| + PadBytes(|section|, oldSize))
  {
    var h' := WithSectionSize(h, |section| + PadBytes(|section|, oldSize));
    FileHeaderRoundTrip(h', []);
  }

  /** The rewritten file starts with a valid header declaring the frames plus the padding, when that size fits 28 bits. */
  lemma RewrittenHeaderValid(h: FileHeader, section: seq<byte>, oldSize: nat, file: seq<byte>)
    requires IsValidFileHeader(h) && WellFormedHeader(h)
    requires |file| >= FileHeaderSize + oldSize && oldSize < 0x1000_0000
    requires |section| + PaddingBytes < 0x1000_0000
    ensures var image := RewrittenImage(h, section, oldSize, file);
      |image| >= FileHeaderSize
      && IsValidFileHeader(ReadFileHeader(image[..FileHeaderSize]))
      && FrameSectionSize(ReadFileHeader(image[..FileHeaderSize])) == |section| + PadBytes(|section|, oldSize)
  {
    RewrittenHeader(h, section, oldSize, file);
    WithSectionSizeReadsBack(h, |section| + PadBytes(|section|, oldSize));
  }

  /**
   * When the frames fit in the old section the file keeps its length, its
   * audio bytes and the declared section size, so the audio offset does not
   * move.
   */
  lemma RewriteInPlace(h: FileHeader, section: seq<byte>, oldSize: nat, file: seq<byte>)
    requires WellFormedHeader(h)
    requires |file| >= FileHeaderSize + oldSize && oldSize < 0x1000_0000
    requires |section| <= oldSize
    ensures var image := RewrittenImage(h, section, oldSize, file);
      |image| == |file|
      && image[FileHeaderSize..FileHeaderSize + |section|] == section
      && image[FileHeaderSize + |section|..FileHeaderSize + oldSize] == Zeros(oldSize - |section|)
      && image[FileHeaderSize + oldSize..] == file[FileHeaderSize + oldSize..]
      && AudioBufferOffset(ReadFileHeader(image[..FileHeaderSize])) == FileHeaderSize + oldSize
  {
    RewrittenHeader(h, section, oldSize, file);
    WithSectionSizeReadsBack(h, oldSize);
  }

  /**
   * When the frames outgrow the old section, 2048 bytes of padding follow them
   * and the old audio is moved to just after the padding; the header declares
   * frames plus padding, and the audio offset points at the moved audio.
   */
  lemma RewriteGrows(h: FileHeader, section: seq<byte>, oldSize: nat, file: seq<byte>)
    requires WellFormedHeader(h)
    requires |file| >= FileHeaderSize + oldSize
    requires |section| > oldSize && |section| + PaddingBytes < 0x1000_0000
    ensures var image := RewrittenImage(h, section, oldSize, file);
      |image| == |file| - oldSize + |section| + PaddingBytes
      && image[FileHeaderSize..FileHeaderSize + |section|] == section
      && image[FileHeaderSize + |section|..FileHeaderSize + |section| + PaddingBytes] == Zeros(PaddingBytes)
      && image[FileHeaderSize + |section| + PaddingBytes..] == file[FileHeaderSize + oldSize..]
      && AudioBufferOffset(ReadFileHeader(image[..FileHeaderSize])) == FileHeaderSize + |section| + PaddingBytes
  {
    RewrittenHeader(h, section, oldSize, file);
    WithSectionSizeReadsBack(h, |section| + PaddingBytes);
  }
}
