/**
 * The frame-type catalogue and the frame-ID checks of Mp3BaseTagData.h.
 */
module Mp3BaseTagData {
  import opened Bytes
  import opened ID3v2Frames

  /** Mp3FrameType: `None`, seventeen text frames from Title to Mood, then Comment. */
  datatype Mp3FrameType =
    | None
    | Title | Subtitle | Genre | Artist | Album | Composer | Orchestra | OrigArtist
    | Year | OrigYear | TrackNum | BeatsPerMinute | Duration | Key | Conductor
    | Language | Mood
    | Comment

  /** The enumerator values: None is 0, Title (First) is 1, Comment is 18. */
  function Ordinal(t: Mp3FrameType): (n: nat)
  {
    match t
    case None => 0
    case Title => 1
    case Subtitle => 2
    case Genre => 3
    case Artist => 4
    case Album => 5
    case Composer => 6
    case Orchestra => 7
    case OrigArtist => 8
    case Year => 9
    case OrigYear => 10
    case TrackNum => 11
    case BeatsPerMinute => 12
    case Duration => 13
    case Key => 14
    case Conductor => 15
    case Language => 16
    case Mood => 17
    case Comment => 18
  }

  /** Mp3FrameType::Max, one past Comment. */
  const MaxOrdinal: nat := 19

  /** The enumerator with a given value; what `operator++` steps through. */
  function TypeAt(n: nat): (t: Mp3FrameType)
    requires n < MaxOrdinal
    ensures Ordinal(t) == n
  {
    match n
    case 0 => Mp3FrameType.None
    case 1 => Title
    case 2 => Subtitle
    case 3 => Genre
    case 4 => Artist
    case 5 => Album
    case 6 => Composer
    case 7 => Orchestra
    case 8 => OrigArtist
    case 9 => Year
    case 10 => OrigYear
    case 11 => TrackNum
    case 12 => BeatsPerMinute
    case 13 => Duration
    case 14 => Key
    case 15 => Conductor
    case 16 => Language
    case 17 => Mood
    case _ => Comment
  }

  /** A four-character frame ID as the bytes of its narrow string. */
  function Id4(s: string): (id: seq<byte>)
    requires |s| == 4
    ensures |id| == 4
  {
    [Ascii(s[0]), Ascii(s[1]), Ascii(s[2]), Ascii(s[3])]
  }

  /** GetFrameID(Mp3FrameType): the kMp3FrameID table; None maps to the empty string. */
  function GetFrameIDOf(t: Mp3FrameType): (id: seq<byte>)
    ensures t == Mp3FrameType.None <==> id == []
    ensures t != Mp3FrameType.None ==> |id| == FrameIdCharCount
  {
    match t
    case None => []
    case Title => Id4("TIT2")
    case Subtitle => Id4("TIT3")
    case Genre => Id4("TCON")
    case Artist => Id4("TPE1")
    case Album => Id4("TALB")
    case Composer => Id4("TCOM")
    case Orchestra => Id4("TPE2")
    case OrigArtist => Id4("TOPE")
    case Year => Id4("TYER")
    case OrigYear => Id4("TORY")
    case TrackNum => Id4("TRCK")
    case BeatsPerMinute => Id4("TBPM")
    case Duration => Id4("TLEN")
    case Key => Id4("TKEY")
    case Conductor => Id4("TPE3")
    case Language => Id4("TLAN")
    case Mood => Id4("TMOO")
    case Comment => Id4("COMM")
  }

  /** One character the frame-ID loop accepts: not below '0', not above 'Z', not in ":;<=>?@". */
  predicate IsFrameIdChar(c: byte)
  {
    !(c < Ascii('0') || c > Ascii('Z')) && !(c > Ascii('9') && c < Ascii('A'))
  }

  /** The loop over the ID's characters: true when none of them is rejected. */
  predicate AllFrameIdChars(id: seq<byte>)
  {
    |id| == 0 || (IsFrameIdChar(id[0]) && AllFrameIdChars(id[1..]))
  }

  /** A digit or an upper-case ASCII letter: the character class `[0-9A-Z]`. */
  predicate IsDigitOrUpper(c: byte)
  {
    (Ascii('0') <= c <= Ascii('9')) || (Ascii('A') <= c <= Ascii('Z'))
  }

  /** The loop accepts a sequence exactly when every character is in `[0-9A-Z]`. */
  lemma {:induction false} AllFrameIdCharsMeans(id: seq<byte>)
    ensures AllFrameIdChars(id) <==> forall i :: 0 <= i < |id| ==> IsDigitOrUpper(id[i])
  {
    if |id| > 0 {
      AllFrameIdCharsMeans(id[1..]);
      assert forall i :: 1 <= i < |id| ==> id[i] == id[1..][i - 1];
    }
  }

  /**
   * IsValidFrameID: exactly four characters, each accepted by the loop; so
   * it holds exactly for the IDs matching `[0-9A-Z]{4}`.
   */
  predicate IsValidFrameID(id: seq<byte>)
    ensures IsValidFrameID(id) <==> |id| == 4 && forall i :: 0 <= i < 4 ==> IsDigitOrUpper(id[i])
  {
    AllFrameIdCharsMeans(id);
    |id| == FrameIdCharCount && AllFrameIdChars(id)
  }

  /** The punctuation between '9' and 'A' in ASCII, ":;<=>?@", is never part of a valid ID. */
  lemma PunctuationRejected(id: seq<byte>, i: nat)
    requires i < |id| && Ascii(':') <= id[i] <= Ascii('@')
    ensures !IsValidFrameID(id)
  {
    AllFrameIdCharsMeans(id);
  }

  /** GetFrameID(const uint8_t*): the first four bytes of a raw frame. */
  function GetRawFrameID(rawFrame: seq<byte>): (id: seq<byte>)
    requires |rawFrame| >= FrameIdCharCount
    ensures id == rawFrame[..FrameIdCharCount]
  {
    GetFrameID(rawFrame)
  }

  /**
   * IsValidFrame: false for a null pointer (`None`) and for a first byte of 0
   * (the start of padding); otherwise whether the first four bytes form a valid ID.
   */
  function IsValidFrame(rawFrame: Option<seq<byte>>): (valid: bool)
    requires rawFrame.Some? ==> |rawFrame.value| >= FrameIdCharCount
    ensures valid <==> rawFrame.Some? && rawFrame.value[0] != 0 && IsValidFrameID(rawFrame.value[..FrameIdCharCount])
  {
    if rawFrame.None? then false
    else if rawFrame.value[0] == 0 then false
    else IsValidFrameID(GetRawFrameID(rawFrame.value))
  }

  /** IsTextFrame(const char*): the first character is 'T' (an empty string's terminator is not). */
  predicate IsTextFrameID(id: seq<byte>)
    ensures IsTextFrameID(id) ==> id != GetFrameIDOf(Comment) && id != GetFrameIDOf(Mp3FrameType.None)
  {
    |id| > 0 && id[0] == Ascii('T')
  }

  /**
   * IsTextFrame(Mp3FrameType): the type's table ID starts with 'T'.  The
   * text types are exactly Title through Mood; None and Comment ("COMM") are not.
   */
  predicate IsTextFrameType(t: Mp3FrameType)
    ensures IsTextFrameType(t) <==> 1 <= Ordinal(t) <= Ordinal(Mood)
  {
    IsTextFrameID(GetFrameIDOf(t))
  }

  /** Every ID in the table except None's is a valid frame ID. */
  lemma TableIdsAreValid(t: Mp3FrameType)
    requires t != Mp3FrameType.None
    ensures IsValidFrameID(GetFrameIDOf(t))
  {
  }

  /** The first type from `n` on whose table ID is `id`, as GetFrameType's loop looks for it. */
  function FrameTypeFrom(id: seq<byte>, n: nat): (t: Mp3FrameType)
    requires 1 <= n <= MaxOrdinal
    decreases MaxOrdinal - n
  {
    if n == MaxOrdinal then Mp3FrameType.None
    else if GetFrameIDOf(TypeAt(n)) == id then TypeAt(n)
    else FrameTypeFrom(id, n + 1)
  }

  /** The frame type with a given four-byte ID, or None: a type it names has that ID. */
  function FrameTypeOf(id: seq<byte>): (t: Mp3FrameType)
    ensures t != Mp3FrameType.None ==> GetFrameIDOf(t) == id
  {
    FrameTypeFromMeans(id, 1);
    FrameTypeFrom(id, 1)
  }

  /** TypeAt undoes Ordinal. */
  lemma TypeAtOrdinal(t: Mp3FrameType)
    ensures Ordinal(t) < MaxOrdinal && TypeAt(Ordinal(t)) == t
  {
  }

  /** What FrameTypeFrom returns: a type from `n` on with ID `id`, or None when no type from `n` on has it. */
  lemma {:induction false} FrameTypeFromMeans(id: seq<byte>, n: nat)
    requires 1 <= n <= MaxOrdinal
    ensures var r := FrameTypeFrom(id, n);
      (r != Mp3FrameType.None ==> n <= Ordinal(r) && GetFrameIDOf(r) == id) &&
      (r == Mp3FrameType.None ==> forall m :: n <= m < MaxOrdinal ==> GetFrameIDOf(TypeAt(m)) != id)
    decreases MaxOrdinal - n
  {
    if n < MaxOrdinal && GetFrameIDOf(TypeAt(n)) != id {
      FrameTypeFromMeans(id, n + 1);
      var r := FrameTypeFrom(id, n + 1);
      assert FrameTypeFrom(id, n) == r;
      if r == Mp3FrameType.None {
        forall m | n <= m < MaxOrdinal
          ensures GetFrameIDOf(TypeAt(m)) != id
        {
          if m != n {
            assert n + 1 <= m;
          }
        }
      }
    }
  }

  /** FrameTypeOf names the type whose ID is `id`, and is None exactly when the table has no such ID. */
  lemma FrameTypeOfMeans(id: seq<byte>)
    ensures FrameTypeOf(id) != Mp3FrameType.None ==> GetFrameIDOf(FrameTypeOf(id)) == id
    ensures FrameTypeOf(id) == Mp3FrameType.None <==> forall u :: u != Mp3FrameType.None ==> GetFrameIDOf(u) != id
  {
    FrameTypeFromMeans(id, 1);
    if FrameTypeOf(id) == Mp3FrameType.None {
      forall u | u != Mp3FrameType.None
        ensures GetFrameIDOf(u) != id
      {
        TypeAtOrdinal(u);
      }
    }
  }

  /**
   * GetFrameType: walks the enumerators from First up to Max and returns the
   * first whose table ID equals the first four bytes of `frameID`.
   */
  method GetFrameType(frameID: seq<byte>) returns (t: Mp3FrameType)
    requires |frameID| >= FrameIdCharCount
    ensures t == FrameTypeOf(frameID[..FrameIdCharCount])
    ensures t != Mp3FrameType.None ==> GetFrameIDOf(t) == frameID[..FrameIdCharCount]
    ensures t == Mp3FrameType.None ==> forall u :: u != Mp3FrameType.None ==> GetFrameIDOf(u) != frameID[..FrameIdCharCount]
  {
    var id := frameID[..FrameIdCharCount];
    var n := 1;
    while n != MaxOrdinal
      invariant 1 <= n <= MaxOrdinal
      invariant FrameTypeFrom(id, n) == FrameTypeOf(id)
    {
      if GetFrameIDOf(TypeAt(n)) == id {
        FrameTypeOfMeans(id);
        return TypeAt(n);
      }
      assert FrameTypeFrom(id, n) == FrameTypeFrom(id, n + 1);
      n := n + 1;
    }
    FrameTypeOfMeans(id);
    return Mp3FrameType.None;
  }

  /** FrameTypeFrom finds the type when it lies at or after `n` and no earlier type from `n` shares its ID. */
  lemma {:induction false} FrameTypeFromFinds(t: Mp3FrameType, n: nat)
    requires 1 <= n <= Ordinal(t) < MaxOrdinal
    requires forall m :: n <= m < Ordinal(t) ==> GetFrameIDOf(TypeAt(m)) != GetFrameIDOf(t)
    ensures FrameTypeFrom(GetFrameIDOf(t), n) == t
    decreases Ordinal(t) - n
  {
    if n < Ordinal(t) {
      FrameTypeFromFinds(t, n + 1);
    }
  }

  /** No two types of the catalogue share a frame ID. */
  lemma FrameIdsDistinct(t: Mp3FrameType, u: Mp3FrameType)
    requires GetFrameIDOf(t) == GetFrameIDOf(u)
    ensures t == u
  {
  }

  /** GetFrameType(GetFrameID(t)) == t for every type from Title through Comment. */
  lemma FrameTypeRoundTrip(t: Mp3FrameType)
    requires t != Mp3FrameType.None
    ensures FrameTypeOf(GetFrameIDOf(t)) == t
  {
    forall m | 1 <= m < Ordinal(t)
      ensures GetFrameIDOf(TypeAt(m)) != GetFrameIDOf(t)
    {
      if GetFrameIDOf(TypeAt(m)) == GetFrameIDOf(t) {
        FrameIdsDistinct(TypeAt(m), t);
      }
    }
    FrameTypeFromFinds(t, 1);
  }

  /** SetFrameID: the type's four ID bytes copied to `frameID[at..at + 4]`. */
  method SetFrameID(frameID: array<byte>, at: nat, t: Mp3FrameType)
    requires t != Mp3FrameType.None
    requires at + FrameIdCharCount <= frameID.Length
    modifies frameID
    ensures frameID[..] == old(frameID[..at]) + GetFrameIDOf(t) + old(frameID[at + FrameIdCharCount..])
  {
    StringSetText(frameID, at, GetFrameIDOf(t));
  }
}
