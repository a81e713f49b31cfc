# Mp3TagData in Dafny

A model of the ID3v2 tag core of the Mp3TagData library, with proofs about it.

The library reads the ID3v2 tag at the front of an MP3 file. It keeps the tag's frames in memory and lets a caller read, set and delete the text frames and the comment frames. It then rewrites the tag in front of the audio. The model covers six parts:

- **Integer and frame codec** (`id3v2_frames.dfy`, module `ID3v2Frames`).
  - The 4-byte size fields: plain big-endian for major version 3, sync-safe (7 bits per byte) for every other version.
  - The 10-byte frame header.
  - Text frames (header, encoding byte 0, text).
  - Comment frames (header, encoding byte 0, `"eng"`, an empty description, text).
  - Header and text writers that fill a caller's `array<byte>` in place, as the source's `memcpy`s do.
- **Frame catalogue** (`mp3_base_tag_data.dfy`, module `Mp3BaseTagData`).
  - The frame-type enumeration and its table of four-character IDs.
  - The frame-ID and padding checks.
  - The "starts with T" text-frame rule.
  - `GetFrameType`'s search loop and `SetFrameID`.
- **The tri-state frame record** (`tag_frame.dfy`, module `TagFrame`).
  - `Frame` is `Original(offset)`, `Tombstone(original, residue)` or `Replacement(original, bytes)`.
  - `FrameRecord` is the source's pair of `rawFrame` and `newFrame`, where the length of `newFrame` (0, 1, more) decides the kind. `Abs` and `Rep` connect the two forms.
- **File header and frame walk** (`file_header.dfy` and `frame_parse.dfy`).
  - The 10-byte `ID3v2FileHeader` and its validity check.
  - The section size and the audio offset.
  - The walk that cuts the frame section into frames.
  - The index lists of text frames and comment frames.
- **The tag model** (`tag_layout.dfy`, `tag_model.dfy` and `mp3_tag_data.dfy`).
  - `TagModel` states every operation of `Mp3TagData` as a function over a `TagState` value. It also holds the lemmas about what those functions read back and keep.
  - Class `Mp3Tag.Mp3TagData` has the source's fields and methods: `LoadTagData`, `ParseFrames`, `SetText`, `SetComment`, `DeleteTextFrame`, `DeleteCommentFrame` and `Write`.
  - `LoadTagData`, `SetText`, `SetComment`, the two deletes and `Write` are each proved to end in the state that the `TagModel` function of the same operation gives (`Loaded`, `TextSet`, `CommentSet`, `TextDeleted`, `CommentDeleted`, `Written`).
  - `ParseFrames` and its loop `WalkFrames` are proved to leave the frame list and the index lists that `FrameParse` defines: `FrameList` of the buffer and `IndexPositions` of the frames.
- **APEv2 structures** (`apev2_frames.dfy`, module `APEv2Frames`).
  - The 32-byte tag header and its flag bits.
  - A tag item: its value size, flags, NUL-terminated key, value and total size.

The file on disk is a parameter. `LoadTagData` is given the file's bytes. `Write` is given them and returns the bytes it leaves, then reloads them as the source does at `Mp3TagData.cpp:382`.

`bytes.dfy` holds the byte type, `Option`, zero-filled and resized byte sequences, and strictly increasing position lists.

## Model

| member | source | states |
|---|---|---|
| Bytes.Resize | Mp3TagData.h:148-151 | `vector::resize`: the new length, the kept prefix, zeros after it |
| Bytes.TrimTrailingNul | Mp3TagData.cpp:144-146 | `ToTrimmedTrailing` with NUL: the result is a prefix of the text, only NULs were cut, and it does not end in NUL |
| Bytes.TrimKeepsUnterminated | Mp3TagData.cpp:219-221 | a text that does not end in NUL is left as it is by the trim |
| ID3v2Frames.ReadID3Int | ID3v2Frames.h:52-57 | decoding 4 bytes gives a value below the form's capacity (2^28 sync-safe, 2^32 plain) |
| ID3v2Frames.WriteID3Int | ID3v2Frames.h:65-70 | encoding a 32-bit value gives 4 bytes |
| ID3v2Frames.ReadWriteID3Int | ID3v2Frames.h:52-70 | reading what was written gives the value modulo the form's capacity |
| ID3v2Frames.SyncSafeReadWrite | ID3v2Frames.h:52-70 | the sync-safe form round-trips the low 28 bits of any 32-bit value |
| ID3v2Frames.PlainReadWrite | ID3v2Frames.h:52-70 | the plain form round-trips every 32-bit value |
| ID3v2Frames.ID3IntRoundTrip | ID3v2Frames.h:52-70 | every value below the form's capacity reads back unchanged |
| ID3v2Frames.WriteReadID3Int | ID3v2Frames.h:52-70 | 4 bytes that are digits of the form (below 0x80 when sync-safe) are written back unchanged after a read |
| ID3v2Frames.SyncSafeTopBitsClear | ID3v2Frames.h:65-70 | every byte of the sync-safe form has its top bit clear |
| ID3v2Frames.GetFrameID | ID3v2Frames.h:92-95 | the frame ID is the header's first 4 bytes |
| ID3v2Frames.GetSize | ID3v2Frames.h:97-102 | the size field decodes below the capacity of the version's form |
| ID3v2Frames.IsReadOnly | ID3v2Frames.h:118-121 | read-only iff bit 5 (0x20) of the status byte is set |
| ID3v2Frames.FrameHeader | ID3v2Frames.h:104-116 | the header `SetHeader` writes is 10 bytes |
| ID3v2Frames.SetHeader | ID3v2Frames.h:104-116 | the array's first 10 bytes become the ID, the encoded size and two zero flag bytes; the rest is unchanged |
| ID3v2Frames.FrameHeaderReadsBack | ID3v2Frames.h:88-121 | after `SetHeader(id, n, mv)`: `GetFrameID` is id, `GetSize(mv)` is n modulo the capacity (n itself when it fits), `IsReadOnly` is false |
| ID3v2Frames.HeaderSizeField | ID3v2Frames.h:97-116 | the size read back from a written header, with the plain form exactly when the major version is 3 |
| ID3v2Frames.GetTextEncoding | ID3v2Frames.h:190-195 | the encoding is the one whose code is the byte after the header |
| ID3v2Frames.StringSetText | ID3v2Frames.h:160-165 | the text bytes are copied at the given offset and nothing else changes |
| ID3v2Frames.ComputeTextFrameSize | ID3v2Frames.h:197-206 | a text frame's size is 10 + 1 + the text length, in 32 bits |
| ID3v2Frames.TextFrameSetText | ID3v2Frames.h:208-212 | after the header: encoding byte 0 and then the text, with no terminator, filling the frame exactly |
| ID3v2Frames.TextFrameImage | ID3v2Frames.h:197-212 | a built text frame is `ComputeFrameSize` bytes long |
| ID3v2Frames.FillTextFrame | Mp3TagData.cpp:255-259 | `SetHeader` followed by `SetText` leaves exactly the text-frame image in the array |
| ID3v2Frames.ComputeCommentFrameSize | ID3v2Frames.h:235-245 | a comment frame's size is 10 + 1 + 3 + 1 + the text length, in 32 bits |
| ID3v2Frames.CommentFrameSetText | ID3v2Frames.h:247-253 | after the header: encoding byte 0, `"eng"`, one NUL and the text, filling the frame exactly |
| ID3v2Frames.CommentFrameImage | ID3v2Frames.h:235-253 | a built comment frame is `ComputeFrameSize` bytes long |
| ID3v2Frames.FillCommentFrame | Mp3TagData.cpp:292-296 | `SetHeader` followed by `SetText` leaves exactly the comment-frame image in the array |
| ID3v2Frames.BuiltFramesDeclareTheirLength | ID3v2Frames.h:197-253 | a built frame's size field reads back as its length minus 10, and its encoding is ANSI |
| Mp3BaseTagData.TypeAt | Mp3BaseTagData.h:27-57 | the enumerator of each ordinal has that ordinal |
| Mp3BaseTagData.GetFrameIDOf | Mp3BaseTagData.h:217-221 | None maps to the empty ID; every other type maps to a 4-byte ID from the table |
| Mp3BaseTagData.AllFrameIdCharsMeans | Mp3BaseTagData.h:170-177 | the per-character loop accepts exactly strings of digits and capitals |
| Mp3BaseTagData.IsValidFrameID | Mp3BaseTagData.h:164-179 | holds iff the ID has 4 characters, each in `0-9` or `A-Z` |
| Mp3BaseTagData.PunctuationRejected | Mp3BaseTagData.h:173-176 | an ID holding any of `:;<=>?@` is rejected |
| Mp3BaseTagData.GetRawFrameID | Mp3BaseTagData.h:206-211 | the ID of a raw frame is its first 4 bytes |
| Mp3BaseTagData.IsValidFrame | Mp3BaseTagData.h:148-158 | false for a null frame and for a first byte of 0 (padding); otherwise `IsValidFrameID` of the first 4 bytes |
| Mp3BaseTagData.IsTextFrameID | Mp3BaseTagData.h:196-200 | an ID starting with `'T'`; such an ID is never `"COMM"` nor None's empty ID |
| Mp3BaseTagData.IsTextFrameType | Mp3BaseTagData.h:185-189 | the text frame types are exactly Title through Mood |
| Mp3BaseTagData.TableIdsAreValid | Mp3BaseTagData.h:60-84 | every ID in the table passes `IsValidFrameID` |
| Mp3BaseTagData.TypeAtOrdinal | Mp3BaseTagData.h:86-89 | stepping through ordinals reaches every type |
| Mp3BaseTagData.FrameTypeFromMeans | Mp3BaseTagData.h:233-244 | the search from an ordinal returns the first later type with the ID, or None when there is none |
| Mp3BaseTagData.FrameTypeOf | Mp3BaseTagData.h:227-244 | the type the search finds from the first enumerator; a type other than None carries the given ID |
| Mp3BaseTagData.FrameTypeOfMeans | Mp3BaseTagData.h:227-244 | `GetFrameType` returns a type whose ID is the given one, or None exactly when no type has it |
| Mp3BaseTagData.GetFrameType | Mp3BaseTagData.h:227-244 | the loop over `operator++` returns the type with the ID's first 4 bytes, or None when the table has no such ID |
| Mp3BaseTagData.FrameTypeFromFinds | Mp3BaseTagData.h:238-242 | a search starting at or before a type's ordinal, with no earlier match, returns that type |
| Mp3BaseTagData.FrameIdsDistinct | Mp3BaseTagData.h:60-84 | the table's IDs are pairwise distinct |
| Mp3BaseTagData.FrameTypeRoundTrip | Mp3BaseTagData.h:217-244 | `GetFrameType(GetFrameID(t)) == t` for every type but None |
| Mp3BaseTagData.SetFrameID | Mp3BaseTagData.h:250-255 | the type's 4 ID bytes are copied to the buffer and nothing else changes |
| TagFrame.GetData | Mp3TagData.h:116-124 | a replacement gives its new bytes; an original or a tombstone gives the raw frame (null when there is none) |
| TagFrame.GetMutableData | Mp3TagData.h:126-131 | only defined on a replacement, whose new bytes number more than 1 |
| TagFrame.IsTextFrame | Mp3TagData.h:133-136 | a frame carrying a type's ID is a text frame exactly when the type is a text type |
| TagFrame.IsFrameID | Mp3TagData.h:138-141 | the frame's first 4 bytes are the type's ID; only a type other than None can match |
| TagFrame.IsFrameIDNeedsTableId | Mp3TagData.h:138-141 | `GetFrameType` of a matching frame's ID gives the type back |
| TagFrame.IsCommentFrame | Mp3TagData.h:143-146 | a comment frame (`"COMM"`) is never a text frame |
| TagFrame.Allocate | Mp3TagData.h:148-151 | the frame becomes a dirty replacement of length n that keeps its raw frame and its old new bytes as a prefix, zero-filled after them |
| TagFrame.AllocateNew | Mp3TagData.cpp:244-252 | a new frame allocated at n bytes is a replacement with no raw frame, all zeros |
| TagFrame.FlagToDelete | Mp3TagData.h:158-161 | the frame becomes a clean tombstone that keeps the raw frame and the first new byte |
| TagFrame.IsDirty | Mp3TagData.h:153-156 | on a well-formed frame: dirty iff `newFrame` is neither empty nor 1 byte long |
| TagFrame.GetFrameBytes | Mp3TagData.cpp:493-508 | a frame's byte count is 10 plus its declared size under the version's form |
| TagFrame.GetWriteBytes | Mp3TagData.h:163-171 | original: 10 + the decoded size; tombstone: 0; replacement: the new length (and 0 only for a tombstone) |
| TagFrame.FlagToDeleteWritesNothing | Mp3TagData.h:153-171 | after `FlagToDelete` the frame writes 0 bytes, is not dirty and keeps its raw frame |
| TagFrame.Abs | Mp3TagData.h:96-99 | the kind a `rawFrame`/`newFrame` pair stands for is well formed |
| TagFrame.Rep | Mp3TagData.h:96-99 | the pair of a frame carries its raw frame and its new bytes |
| TagFrame.AbsRep | Mp3TagData.h:96-124 | `Abs` and `Rep` are inverse on well-formed values, both ways |
| TagFrame.KindBySize | Mp3TagData.h:99-124 | original iff `newFrame` is empty, tombstone iff it has 1 byte, replacement iff more |
| TagFrame.QueriesAgree | Mp3TagData.h:116-171 | `GetData`, `IsDirty` and `GetWriteBytes` on the datatype agree with the size-switch on the pair |
| TagFrame.UpdatesAgree | Mp3TagData.h:148-161 | `Allocate` and `FlagToDelete` on the datatype agree with resizing `newFrame` |
| TagFrame.AllocateNewAgrees | Mp3TagData.cpp:244-252 | allocating a default frame agrees with `AllocateNew` |
| ID3v2FileHeader.ID3Magic | Mp3TagData.h:191 | the magic is the 3 bytes `"ID3"` |
| ID3v2FileHeader.EmptyHeader | Mp3TagData.h:188-196 | the zeroed header is well formed |
| ID3v2FileHeader.ReadFileHeader | Mp3TagData.h:188-196 | 10 bytes read as magic, major, minor, flags and size field |
| ID3v2FileHeader.WriteFileHeader | Mp3TagData.h:188-196 | a header is stored as 10 bytes |
| ID3v2FileHeader.FileHeaderRoundTrip | Mp3TagData.h:188-196 | reading and writing the header are inverse, both ways |
| ID3v2FileHeader.ValidFlags | Mp3TagData.cpp:409-416 | the accepted flag bytes are exactly 0, footer, unsynchronized, and both (bits 6, 5 and 3-0 clear) |
| ID3v2FileHeader.IsValidFileHeader | Mp3TagData.cpp:389-418 | accepted iff the magic is `"ID3"`, 3 <= major < 0xFF, minor < 0xFF and the flag byte is one of those four |
| ID3v2FileHeader.FrameSectionSize | Mp3TagData.cpp:75-76 | the frame section's size is the sync-safe size field, below 2^28 |
| ID3v2FileHeader.AudioBufferOffset | Mp3TagData.cpp:75-77 | the audio offset lies after the 10-byte header and fits in 32 bits |
| ID3v2FileHeader.WithSectionSize | Mp3TagData.cpp:339-341 | storing a section size keeps magic, versions and flags |
| ID3v2FileHeader.WithSectionSizeReadsBack | Mp3TagData.cpp:339-341 | the stored size reads back modulo 2^28 (exactly when it fits), and a valid header stays valid |
| FrameParse.NextFrame | Mp3TagData.cpp:424-442 | a frame starts at the offset iff its header and body fit and it passes `IsValidFrame`; the next offset is 10 + its size later |
| FrameParse.FrameListWalk | Mp3TagData.cpp:448-456 | the walk visits frame starts at increasing offsets, each frame starting where the previous one ends |
| FrameParse.StopOffset | Mp3TagData.cpp:448-456 | the walk stops inside the buffer at an offset where no frame starts |
| FrameParse.FrameListCoversSpan | Mp3TagData.cpp:448-456 | the walked frames tile the buffer from the start to the stop offset |
| FrameParse.FrameListHasHeaders | Mp3TagData.cpp:448-456 | every walked frame's header lies inside the buffer |
| FrameParse.ParseFrameAsWritten | Mp3TagData.cpp:424-442 | the guard as written: 32-bit offset, only `offset < size` checked |
| FrameParse.AsWrittenAgreesWhenFrameFits | Mp3TagData.cpp:424-442 | when the frame fits in the buffer, the guard as written and `NextFrame` agree |
| FrameParse.AsWrittenReadsPastBuffer | Mp3TagData.cpp:427-441 | the 4-byte buffer `"TIT2"` is accepted as a frame whose header runs past the buffer |
| FrameParse.AsWrittenKeepsTruncatedBody | Mp3TagData.cpp:424-442 | a 10-byte version-3 header declaring a 5-byte body is accepted as written, the walk then stopping at 15, while `NextFrame` rejects it and the checked walk is empty |
| FrameParse.AsWrittenOffsetWraps | Mp3TagData.cpp:440 | a version-3 frame declaring 0xFFFFFFF6 bytes sends the 32-bit offset back to 0 |
| FrameParse.IndexPositions | Mp3TagData.cpp:457-463 | the index list is strictly increasing and holds exactly the positions of frames of its kind |
| FrameParse.IndexPositionsStep | Mp3TagData.cpp:457-463 | one more loop step appends the position iff its frame is of the kind |
| TagLayout.IndexValidIsIndexable | Mp3TagData.h:206-207 | a valid index list names frames inside the list that have headers |
| TagLayout.ParsedStateValid | Mp3TagData.cpp:448-456 | parsed frames are originals that fit in the buffer |
| TagLayout.ParsedIndexValid | Mp3TagData.cpp:457-463 | the parsed index lists are valid: increasing, in range, live, of their kind |
| TagLayout.ReplaceKeepsIndex | Mp3TagData.cpp:244-257 | replacing a live frame by one of the same kind keeps an index list valid |
| TagLayout.AppendKeepsIndex | Mp3TagData.cpp:242-247 | appending a live frame, and its position when of the kind, keeps an index list valid |
| TagLayout.Find | Mp3TagData.cpp:597-600 | the first position in the list holding p, or the length when p is absent |
| TagLayout.EraseFound | Mp3TagData.cpp:597-600 | `vector::erase`: later entries move down one place |
| Mp3Tag.EraseValue | Mp3TagData.cpp:597-600 | `std::ranges::find` then `erase`: returns the list with the first entry equal to p removed, the list itself when p is absent |
| TagLayout.FindInIncreasing | Mp3TagData.cpp:597-600 | in an increasing list, `find` of an entry gives its index |
| TagLayout.EraseFoundKeepsIncreasing | Mp3TagData.cpp:597-600 | erasing keeps the list increasing and removes exactly p |
| TagLayout.EraseAtKeepsIncreasing | Mp3TagData.cpp:617-620 | erasing at an index keeps the list increasing |
| TagLayout.EraseAtMembers | Mp3TagData.cpp:617-620 | erasing at an index removes exactly that entry |
| TagLayout.TombstoneKeepsIndex | Mp3TagData.cpp:596-600 | flagging a frame and erasing its position keeps an index list valid |
| TagLayout.TombstoneFits | Mp3TagData.cpp:596-600 | a flagged frame still fits |
| TagLayout.TombstoneKeepsMembers | Mp3TagData.cpp:596-600 | a list without p stays valid after p's frame is flagged |
| TagLayout.FindIf | Mp3TagData.cpp:555-560 | `find_if` gives the first listed frame with the type's ID, or the end |
| TagLayout.TextFrameReferencePos | Mp3TagData.cpp:551-562 | a found position is listed and has the ID; none iff no listed frame has it |
| TagLayout.CommentFrameReferencePos | Mp3TagData.cpp:577-583 | the i-th comment position, or none iff i is out of range |
| TagLayout.FirstMatch | Mp3TagData.cpp:551-562 | the found position is the smallest listed position with the ID; none iff there is none |
| TagLayout.SameMatchesSameRef | Mp3TagData.cpp:551-562 | lists with the same matching positions find the same position |
| TagLayout.FoundIsFirst | Mp3TagData.cpp:555-560 | no smaller listed position has the ID |
| TagLayout.FirstIsFound | Mp3TagData.cpp:555-560 | the smallest listed match is the one found |
| TagLayout.NoneFoundNoMatch | Mp3TagData.cpp:561 | none found means no listed frame has the ID |
| TagLayout.FindIfAfterReplace | Mp3TagData.cpp:244-257 | after replacing the found frame by one with the same ID, the same position is found |
| TagLayout.FindIfFirst | Mp3TagData.cpp:555-560 | the first listed match is at the index `find_if` returns |
| TagLayout.FindIfAfterAppend | Mp3TagData.cpp:242-247 | after appending a frame with the ID and its position, `find_if` finds it |
| TagLayout.AppendIndexable | Mp3TagData.cpp:242-247 | appending a frame and its position keeps the list pointing at frames with headers |
| TagLayout.GetTextBytes | Mp3TagData.cpp:514-534 | the text's byte count is the frame's end minus the text's offset |
| TagLayout.TextFramePayload | Mp3TagData.cpp:123-129 | an ANSI text frame's payload is everything from after the encoding byte to the frame's end |
| TagLayout.TextFrameText | Mp3TagData.cpp:123-146 | an ANSI text frame's text is a prefix of its payload, only NULs follow it up to the frame's end, and it does not end in NUL |
| TagLayout.NulFrom | Mp3TagData.cpp:165-175 | the first NUL at or after j and before the end, or none |
| TagLayout.CommentFramePayload | Mp3TagData.cpp:184-195 | an ANSI comment's payload follows the language and the NUL-terminated description |
| TagLayout.CommentFrameText | Mp3TagData.cpp:184-221 | an ANSI comment's text is its payload's longest prefix that does not end in NUL |
| TagLayout.TextPayloadRoundTrip | ID3v2Frames.h:197-212 | the payload of a built text frame is the text as given |
| TagLayout.TextFrameRoundTrip | ID3v2Frames.h:197-212 | reading a built text frame gives its text back without its trailing NULs |
| TagLayout.CommentPayloadRoundTrip | ID3v2Frames.h:235-253 | the payload of a built comment frame is the comment as given |
| TagLayout.CommentFrameRoundTrip | ID3v2Frames.h:235-253 | reading a built comment frame gives its text back without its trailing NULs |
| TagLayout.FrameWriteData | Mp3TagData.cpp:361-365 | an original writes its bytes from the buffer, a replacement its new bytes, a tombstone nothing, always `GetWriteBytes` many |
| TagLayout.SectionImage | Mp3TagData.cpp:320-365 | the frames written one after the other; the length is the sum of `GetWriteBytes` |
| TagLayout.SectionStep | Mp3TagData.cpp:320-365 | one more frame adds its write size and its bytes |
| TagLayout.SectionImageAppend | Mp3TagData.cpp:361-365 | the bytes of two runs of frames are the bytes of each, concatenated |
| TagLayout.SectionImageSkipsTombstone | Mp3TagData.cpp:361-365 | a tombstone contributes nothing to the written bytes |
| TagLayout.PadBytes | Mp3TagData.cpp:337-338 | pad to the old section size when the frames fit in it, else 2048 bytes |
| TagLayout.RewrittenImage | Mp3TagData.cpp:341-378 | the written file's length: header, frames, padding, then the rest of the old file |
| TagLayout.Assemble | Mp3TagData.cpp:341-378 | the header, the section, pad zeros and the rest appear in that order |
| TagLayout.NewHeader | Mp3TagData.cpp:339-341 | the new header keeps the major version |
| TagLayout.RewrittenImageIs | Mp3TagData.cpp:337-378 | the written file is the header declaring frames plus padding, the frames, the zeros and the audio |
| TagLayout.RewrittenHeader | Mp3TagData.cpp:339-341 | the written file's header is the old one with the new section size |
| TagLayout.RewrittenHeaderValid | Mp3TagData.cpp:337-341 | the header declares frames plus padding, stays valid and puts the audio after them |
| TagLayout.RewriteInPlace | Mp3TagData.cpp:337-378 | when the frames fit in the old section, the file keeps its length and the audio its offset |
| TagLayout.RewriteGrows | Mp3TagData.cpp:337-378 | when they do not, 2048 zeros follow the frames and the audio moves |
| TagModel.InitialState | Mp3TagData.h:199-208 | a new object is clean, has no frames and is consistent |
| TagModel.LoadedBuffer | Mp3TagData.cpp:80-91 | the section read is the file's bytes after the header, cut short only at the end of the file |
| TagModel.ParsedState | Mp3TagData.cpp:448-463 | parsing keeps the header and the buffer and leaves the state clean |
| TagModel.Loaded | Mp3TagData.cpp:52-97 | clean, with the file's header when it has 10 bytes; on failure no buffer, frames or lists and the old audio offset; on success the audio offset 10 + size, the section read, and the frames its walk finds |
| TagModel.LoadedValid | Mp3TagData.cpp:52-97 | loading leaves a consistent state whose frames are all originals |
| TagModel.ListsIndexable | Mp3TagData.h:206-207 | both index lists point at frames with headers |
| TagModel.TextPos | Mp3TagData.cpp:551-562 | a found text position is listed and inside the frame list |
| TagModel.DataAt | Mp3TagData.h:116-124 | a listed frame's current data holds at least a header |
| TagModel.TextOf | Mp3TagData.cpp:103-113 | `GetText` of an absent type is the empty string |
| TagModel.CommentOf | Mp3TagData.cpp:165-175 | `GetComment(i)` is empty when i is at least the count |
| TagModel.CommentCount | Mp3TagData.cpp:155-158 | in a consistent state the comment count never exceeds the frame count |
| TagModel.SameMatchesSamePos | Mp3TagData.cpp:551-562 | states with the same matching listed frames find the same position |
| TagModel.BuiltFrameIds | ID3v2Frames.h:104-116 | built frames start with the ID they were built with |
| TagModel.ReplaceValid | Mp3TagData.cpp:244-260 | replacing a listed frame by one of the same kinds keeps the state consistent and dirty |
| TagModel.AppendValid | Mp3TagData.cpp:242-260 | appending a frame and listing it by kind keeps the state consistent and dirty |
| TagModel.TombstoneValid | Mp3TagData.cpp:591-602 | flagging a listed frame and erasing it from both lists keeps the state consistent and dirty |
| TagModel.EraseAbsent | Mp3TagData.cpp:597-600 | erasing a position the list lacks leaves the list unchanged |
| TagModel.ListedText | Mp3TagData.cpp:457-463 | a listed text position holds a live text frame and is not a comment position |
| TagModel.ListedComment | Mp3TagData.cpp:457-463 | a listed comment position holds a live comment frame and is not a text position |
| TagModel.TextReplacement | Mp3TagData.cpp:249-257 | a built text frame fits, is a text frame of the type and not a comment |
| TagModel.CommentReplacement | Mp3TagData.cpp:286-294 | a built comment frame fits and is a comment frame, not a text frame |
| TagModel.TextDeleted | Mp3TagData.cpp:591-602 | no listed frame of the type: nothing changes; otherwise that frame becomes a tombstone, its position leaves the text list, the state is dirty; comments, header and buffer stay |
| TagModel.TextSet | Mp3TagData.cpp:231-261 | empty text: the delete; otherwise dirty, the found frame or one appended (and listed) holds the built text frame; comments, header and buffer stay |
| TagModel.CommentDeleted | Mp3TagData.cpp:610-622 | i out of range: nothing changes; otherwise the i-th comment's frame becomes a tombstone, the count drops by one, the state is dirty; texts stay |
| TagModel.CommentSet | Mp3TagData.cpp:268-298 | empty text: the delete; otherwise dirty, comment i holds the built comment frame, the count grows by one iff i was the count; texts stay |
| TagModel.TextDeletedValid | Mp3TagData.cpp:591-602 | `DeleteTextFrame` keeps the state consistent |
| TagModel.TextSetValid | Mp3TagData.cpp:231-261 | `SetText` keeps the state consistent |
| TagModel.ReplacedTextValid | Mp3TagData.cpp:244-260 | `SetText` over a found frame keeps the state consistent |
| TagModel.AppendedTextValid | Mp3TagData.cpp:241-260 | `SetText` of an absent type keeps the state consistent |
| TagModel.CommentDeletedValid | Mp3TagData.cpp:610-622 | `DeleteCommentFrame` keeps the state consistent |
| TagModel.CommentSetValid | Mp3TagData.cpp:268-298 | `SetComment` keeps the state consistent |
| TagModel.MatchesOneType | Mp3BaseTagData.h:60-84 | a frame matches at most one type |
| TagModel.TextSetReadsBack | Mp3TagData.cpp:231-261 | after a non-empty `SetText(t, s)`, `GetText(t)` is s with its trailing NULs removed, so s itself when s does not end in NUL |
| TagModel.ReplacedTextReadsBack | Mp3TagData.cpp:240-257 | over a found frame, the same position is found and holds the new frame |
| TagModel.AppendedTextReadsBack | Mp3TagData.cpp:240-257 | for an absent type, the appended frame is found and holds the new frame |
| TagModel.TextOfFromMatches | Mp3TagData.cpp:103-113 | `GetText(u)` depends only on the listed frames with u's ID |
| TagModel.TextSetKeepsOthers | Mp3TagData.cpp:231-261 | `SetText(t, s)` leaves `GetText(u)` unchanged for every other type u |
| TagModel.DeletedKeepsOthers | Mp3TagData.cpp:591-602 | deleting t's frame leaves other types' texts unchanged |
| TagModel.ReplacedKeepsOthers | Mp3TagData.cpp:244-257 | replacing t's frame leaves other types' texts unchanged |
| TagModel.ReplacedMatches | Mp3TagData.cpp:244-257 | replacing a frame of type t by one of type t changes no other type's matches |
| TagModel.AppendedKeepsOthers | Mp3TagData.cpp:241-257 | appending t's frame leaves other types' texts unchanged |
| TagModel.AppendedMatches | Mp3TagData.cpp:241-247 | appending a frame of type t changes no other type's matches |
| TagModel.CommentsFromPositions | Mp3TagData.cpp:155-175 | the same comment positions holding the same frames give the same count and comments |
| TagModel.TextSetKeepsComments | Mp3TagData.cpp:231-261 | `SetText` and `DeleteTextFrame` leave the comment count and every comment unchanged |
| TagModel.DeletedKeepsComments | Mp3TagData.cpp:591-602 | deleting a text frame leaves the comments unchanged |
| TagModel.ReplacedKeepsComments | Mp3TagData.cpp:244-257 | replacing a text frame leaves the comments unchanged |
| TagModel.TombstoneKeepsComments | Mp3TagData.cpp:596-600 | changing a frame no comment position names leaves the comment list and its frames unchanged |
| TagModel.AppendedKeepsComments | Mp3TagData.cpp:241-247 | appending a text frame leaves the comments unchanged |
| TagModel.TextDeletedClears | Mp3TagData.cpp:591-602 | deleting an absent type is a complete no-op, dirty flag included; otherwise `GetText` is empty afterwards when the type was not duplicated |
| TagModel.DeletedHasNoMatch | Mp3TagData.cpp:591-602 | after deleting a type's only frame, no listed frame has its ID |
| TagModel.ErasedHasNoMatch | Mp3TagData.cpp:597-600 | erasing the single match from the list leaves no match |
| TagModel.TextsFromPositions | Mp3TagData.cpp:103-113 | the same text positions holding the same frames give the same texts |
| TagModel.CommentFrameOnly | Mp3TagData.cpp:616-620 | changing a frame no text position names leaves the text list and its frames unchanged |
| TagModel.CommentSetReadsBack | Mp3TagData.cpp:268-298 | after a non-empty `SetComment(i, s)`, `GetComment(i)` is s with its trailing NULs removed, so s itself when s does not end in NUL; the count grows by one iff i was the count |
| TagModel.CommentSetHoldsFrame | Mp3TagData.cpp:268-298 | after a non-empty `SetComment(i, s)`, comment i is read from the frame built for s, and the count grows by one iff i was the count |
| TagModel.CommentSetKeepsOthers | Mp3TagData.cpp:268-298 | `SetComment(i, s)` leaves every other comment and every text unchanged |
| TagModel.AppendedCommentKeepsOthers | Mp3TagData.cpp:278-297 | appending a comment leaves the others and the texts unchanged |
| TagModel.ReplacedCommentKeepsOthers | Mp3TagData.cpp:281-297 | replacing a comment leaves the others and the texts unchanged |
| TagModel.CommentDeletedShifts | Mp3TagData.cpp:610-622 | out of range: no-op; otherwise the count drops by one, earlier comments stay, later ones move down, texts stay |
| TagModel.DeletedCommentShifts | Mp3TagData.cpp:610-622 | deleting comment i moves the later comments down one place |
| TagModel.DeletedCommentKeepsTexts | Mp3TagData.cpp:610-622 | deleting a comment leaves every text unchanged |
| TagModel.WrittenImage | Mp3TagData.cpp:320-378 | the file `Write` produces holds at least a header |
| TagModel.Written | Mp3TagData.cpp:314-383 | `Write` of a clean tag returns false and changes neither the object nor the file; either way the tag ends consistent and clean |
| TagModel.WriteStep | Mp3TagData.cpp:320-382 | a dirty `Write` returns the reload's result over the rewritten file |
| TagModel.LoadedIgnoresHeader | Mp3TagData.cpp:54-59 | loading does not depend on the header held before |
| TagModel.LoadedFitsFile | Mp3TagData.cpp:72-91 | a loaded state fits its file and has a valid header |
| TagModel.WrittenHeaderValid | Mp3TagData.cpp:337-341 | the written header is valid and declares frames plus padding |
| TagModel.WriteKeepsAudio | Mp3TagData.cpp:314-383 | a dirty `Write` succeeds; the reload's audio offset points at the old audio; the section is the frames then zeros; when the frames fit the file keeps its length |
| TagModel.RewriteReloads | Mp3TagData.cpp:337-378 | reloading the rewritten file reads a valid header, the frames then zeros, and the old audio at the audio offset |
| Mp3Tag.Mp3TagData.constructor | Mp3TagData.h:199-208 | a new object is in the initial state |
| Mp3Tag.Mp3TagData.LoadTagData | Mp3TagData.cpp:52-97 | returns whether the header is valid, and ends in the loaded state |
| Mp3Tag.Mp3TagData.ParseFrame | Mp3TagData.cpp:424-442 | appends the frame at the offset and advances past it iff a frame starts there; nothing else changes |
| Mp3Tag.Mp3TagData.ParseFrames | Mp3TagData.cpp:448-475 | the frames are the walk from offset 0; the index lists are the positions of text and comment frames |
| Mp3Tag.Mp3TagData.WalkFrames | Mp3TagData.cpp:450-456 | the loop appends exactly the walk's frames |
| Mp3Tag.Mp3TagData.DeleteTextFrame | Mp3TagData.cpp:591-602 | ends in `TextDeleted` of the old state, consistent |
| Mp3Tag.Mp3TagData.DeleteCommentFrame | Mp3TagData.cpp:610-622 | ends in `CommentDeleted` of the old state, consistent |
| Mp3Tag.Mp3TagData.SetText | Mp3TagData.cpp:231-261 | ends in `TextSet` of the old state, consistent |
| Mp3Tag.Mp3TagData.AppendTextFrame | Mp3TagData.cpp:241-260 | when no frame of the type is listed: ends in `TextSet` of the old state (a new frame appended to the frames and to the text list), consistent |
| Mp3Tag.Mp3TagData.ReplaceTextFrame | Mp3TagData.cpp:248-260 | when the type's frame is listed at p: ends in `TextSet` of the old state (the frame at p reallocated and refilled), consistent |
| Mp3Tag.Mp3TagData.BuildTextFrame | Mp3TagData.cpp:249-257 | the allocated frame filled in an array holds the text-frame image |
| Mp3Tag.Mp3TagData.SetComment | Mp3TagData.cpp:268-298 | ends in `CommentSet` of the old state, consistent |
| Mp3Tag.Mp3TagData.BuildCommentFrame | Mp3TagData.cpp:286-294 | the allocated frame filled in an array holds the comment-frame image |
| Mp3Tag.Mp3TagData.WriteFrameSize | Mp3TagData.cpp:482-487 | 4 bytes that read back as the size in the version's form, modulo 2^28 when sync-safe |
| Mp3Tag.Mp3TagData.Write | Mp3TagData.cpp:314-383 | returns and ends in what `Written` gives over the old state and the file |
| Mp3Tag.RewriteFile | Mp3TagData.cpp:320-378 | the header with the new section size, and the rewritten file |
| Mp3Tag.LayOutFile | Mp3TagData.cpp:337-378 | the padding, the header and the bytes written in order |
| Mp3Tag.WriteFrames | Mp3TagData.cpp:320-365 | the fold of `GetWriteBytes` and the frames' bytes in list order |
| Mp3Tag.IndexFrames | Mp3TagData.cpp:457-463 | the positions of the text frames and the comment frames, in order |
| APEv2Frames.ReadLE32 | APEv2Frames.h:55-60 | a little-endian field reads below 2^32 |
| APEv2Frames.WriteLE32 | APEv2Frames.h:55-60 | a 32-bit field is stored as 4 bytes that read back as the value |
| APEv2Frames.LE32WriteRead | APEv2Frames.h:55-60 | reading and then writing 4 bytes gives them back |
| APEv2Frames.FlagWord | APEv2Frames.h:29-33 | the flag word fits in 32 bits |
| APEv2Frames.FlagWordReadsBack | APEv2Frames.h:29-33 | each flag test of a flag word gives back its own bit (read-only 0, binary 1, header 29, footer 30, has-header 31) |
| APEv2Frames.FlagBitsInBytes | APEv2Frames.h:29-33 | stored little-endian, bits 0 and 1 lie in the first byte and bits 29, 30 and 31 in the last |
| APEv2Frames.ReadTagHeader | APEv2Frames.h:46-90 | 32 bytes read as ID, version, size, count, flags and 8 reserved bytes |
| APEv2Frames.WriteTagHeader | APEv2Frames.h:46-60 | a header is stored as 32 bytes |
| APEv2Frames.TagHeaderRoundTrip | APEv2Frames.h:46-90 | reading and writing the header are inverse, both ways |
| APEv2Frames.DefaultTagHeader | APEv2Frames.h:55-65 | the default header has version 2, size and count 0, and no flag set |
| APEv2Frames.ContainsHeader | APEv2Frames.h:92-95 | set iff the top bit of the last stored flags byte is set |
| APEv2Frames.ContainsFooter | APEv2Frames.h:97-100 | set iff bit 6 of the last stored flags byte is set |
| APEv2Frames.IsHeader | APEv2Frames.h:102-105 | set iff bit 5 of the last stored flags byte is set |
| APEv2Frames.HeaderIsReadOnly | APEv2Frames.h:107-110 | set iff the low bit of the first stored flags byte is set |
| APEv2Frames.HeaderFlagsReadBack | APEv2Frames.h:92-110 | `ContainsHeader`, `ContainsFooter`, `IsHeader` and `IsReadOnly` each read back their own bit from a stored header |
| APEv2Frames.ValueSize | APEv2Frames.h:141-144 | the value size is the little-endian field at offset 0 |
| APEv2Frames.ItemFlags | APEv2Frames.h:125-127 | the item flags are the little-endian field at offset 4 |
| APEv2Frames.ItemFlagsBytes | APEv2Frames.h:125-127 | the item flags stored back are the item's bytes 4 to 7 |
| APEv2Frames.IsText | APEv2Frames.h:151-154 | text iff bit 1 of the item's fifth byte is clear |
| APEv2Frames.IsBinary | APEv2Frames.h:156-159 | binary iff bit 1 of the item's fifth byte is set |
| APEv2Frames.ItemIsReadOnly | APEv2Frames.h:161-164 | read-only iff bit 0 of the item's fifth byte is set |
| APEv2Frames.KeyLengthFrom | APEv2Frames.h:166-183 | the loop's count: it stops at a NUL or at 255, with no NUL before |
| APEv2Frames.KeyOf | APEv2Frames.h:166-183 | the key is the bytes from offset 8 up to the first NUL, at most 255, with no NUL in it |
| APEv2Frames.KeyEndsAtFirstNul | APEv2Frames.h:166-183 | with a NUL at 8 + m and none before it, the key has length m |
| APEv2Frames.GetKey | APEv2Frames.h:166-183 | the push-back loop builds exactly the key |
| APEv2Frames.GetData | APEv2Frames.h:185-192 | the value is `valueSize` bytes starting right after the key's NUL |
| APEv2Frames.GetText | APEv2Frames.h:194-199 | the text is the value's bytes as they are |
| APEv2Frames.GetTagSize | APEv2Frames.h:146-149 | the item size fits in 32 bits |
| APEv2Frames.TagSizeIsDataEnd | APEv2Frames.h:146-149 | the item size is where the value ends: 8 + key + 1 + value |
| APEv2Frames.EncodeItem | APEv2Frames.h:120-128 | a stored item's length is 8 + key + 1 + value |
| APEv2Frames.ItemRoundTrip | APEv2Frames.h:141-199 | an encoded item reads back its key, flags, value size, value and text, and its size |
| APEv2Frames.ItemFlagsReadBack | APEv2Frames.h:151-164 | `IsBinary`, `IsText` (its negation) and `IsReadOnly` read back the flags an item was stored with |
| APEv2Frames.LongKeyIsCut | APEv2Frames.h:172-177 | with no NUL in the first 255 key bytes, the key is those 255 bytes and the value follows them |

## Left out

- File access: opening with retries, reading, seeking, writing, closing and the asynchronous close (`Mp3TagData.cpp:61-95`, `326-382`) are not modelled. The file is a byte sequence that `LoadTagData` is given and `Write` returns.
- Failed writes are not modelled: the header write's failure return (`Mp3TagData.cpp:342-343`) and the results that `verify()` discards. In the model every write succeeds.
- Logging, including the duplicate-frame warning loop (`Mp3TagData.cpp:466-474`). It changes no state; duplicates are tolerated and the first match wins, as `TextPos` states.
- Decoding of existing text and comment payloads: the text and comment frames' own `GetText` are not part of this model. `TextOf` and `CommentOf` follow the ANSI branch of the decoder in `Mp3TagData.cpp:116-148` and `177-223`, trailing-NUL trim included. Nothing is claimed about UTF-16 text.
- The wide `ID3v2String::SetText` (`ID3v2Frames.h:167-174`), because it depends on the size of `wchar_t` and no write path uses it.
- The genre table and `GetGenre`, whose table is not part of this model; `operator<<`, which is stream output.
- The APEv2 locator and item walker, which are not part of this model. Only the header and item layouts are modelled.
- The `reinterpret_cast` overlays are replaced by explicit byte offsets. The header size field's name differs between the header (`synchSafeSize`) and the implementation file; here it is simply the 4-byte size field.
- The APEv2 header's reserved `uint64_t` is kept as 8 bytes. `GetHeaderID`, `GetVersion`, `GetTagSize` and `GetItemCount` of the header are the fields of `TagHeader`.
- The debug `assert` that the frame section is under 1 MiB (`Mp3TagData.cpp:76`), and the debug `assert` in `GetKey` at 255 characters, are not modelled. At 255 the loop stops, as release builds do.
- Mp3Tag.Mp3TagData.LoadTagData: requires `CanLoad` (a well-formed header and a consistent state). The constructor and every method establish it, so every object the model can build meets it.
- Mp3Tag.Mp3TagData.SetText: requires the frame size to fit in 32 bits (`TextFixedSizeFits`), which a `std::string` longer than 4 GiB would break.
- Mp3Tag.Mp3TagData.SetComment: requires the same 32-bit bound, and that a non-empty comment's index is at most the count, which the source only asserts (`Mp3TagData.cpp:276`); past the count it would index outside `commentFrames_`.
- TagModel.TextSetReadsBack: stated only when the built frame's size fits the version's size form. A sync-safe size of 2^28 or more does not read back.
- TagModel.TextDeletedClears: states that `GetText` is empty afterwards only when the type is not duplicated. With a duplicate, the next frame of the type is found.
- Mp3Tag.Mp3TagData.Write: the bytes are built as one sequence rather than written in place over the old file, so partial writes are not modelled. The reload at the end is modelled.

## Findings

| source | as written | input that shows it | evidently intended | confidence | as-written member | corrected member |
|---|---|---|---|---|---|---|
| Mp3TagData.cpp:424-442 | `ParseFrame` checks only `offset < frameBuffer_.size()` before reading a 10-byte header and advancing by the declared size | (1) a frame section holding only the 4 bytes `"TIT2"`: the header is read 6 bytes past the buffer and the frame is accepted; (2) a 10-byte section holding a version-3 header `"TIT2"` that declares a 5-byte body, as a file cut short after the header leaves it (`Mp3TagData.cpp:90-91`): the frame is accepted and indexed although its body runs 5 bytes past the buffer, so `GetText` reads past it, while the checked walk records no frame (`FrameParse.AsWrittenKeepsTruncatedBody`) | accept a frame only when its header and its declared body lie inside the buffer | not executed | FrameParse.AsWrittenReadsPastBuffer | FrameParse.NextFrame |
| Mp3TagData.cpp:440 | the next offset is computed in `uint32_t` | a version-3 frame `"TIT2"` declaring size 0xFFFFFFF6: 10 + 0xFFFFFFF6 wraps to 0, so the walk returns to the same frame forever | the walk advances strictly and stops | not executed | FrameParse.AsWrittenOffsetWraps | FrameParse.FrameListWalk |
