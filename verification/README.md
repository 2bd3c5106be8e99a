# AS/2 index decoder, modelled in Dafny

An AS/2 working-paper package is a ZIP archive. Its `index.sav` entry is a
binary index file, and `As2IndexTools` decodes that file into an `As2Index`.
This project models the pure decoding core of that class:

- **Header** (`GetHeader`). Thirty reads, one after another from offset 0,
  consume 604 bytes. Ten of them read the plain fields:
  - five text fields in fixed-width UTF-16LE, with trailing NULs trimmed;
  - two little-endian int32 fields;
  - three legacy dates.

  Ten more read the int16 password keys at byte 544 + 2i. The last ten read
  the password slots: each read takes the four bytes at 564 + 4i, but only
  their low two bytes are used, as an int16.

  The password is then decrypted. Each slot in use (nonzero) yields one
  character: the C# truncating quotient of slot and key, cut to its low 16
  bits. A zero key on a slot in use is a division by zero.
- **Records** (`GetFileList`). The outline is a linked list of 632-byte
  segments:
  - segment k starts at byte 648 + (k - 1) * 632;
  - each record's reads consume its first 586 bytes;
  - the header's FirstItemIndex names the first entry, and each entry's
    NextItemIndex names the next;
  - a link that is not positive ends the list;
  - an entry's `Index` is the segment number it was read from, not a stored
    field.
- **Tree levels** (`ProcessHierarchy`). A running indent level starts at 0.
  For each entry in list order:
  - it rises by one when the entry's parent is the entry just before it
    (and that parent is positive);
  - it stays when the entry has the same parent as the entry before it;
  - it falls by one otherwise.

  The level moves by at most one per entry. So an entry that closes two
  levels at once lands one level too deep (`Hierarchy.RootAfterGrandchild`).
  A first entry whose parent is not 0 lands at -1. On a depth-first listing
  of a tree, where every entry is a root or a child of an entry on the open
  path above it (`Hierarchy.Preorder`), a level is never below the entry's
  true depth (`Hierarchy.Depth`), so it is never negative.
- **Friendly name** (`ExtractAs2IndexInfo`). The friendly name is the
  archive comment after its last `;`, or the whole comment when it has no
  `;`.

Modules, in dependency order:

- `Wrappers`: the `Result` type and the error kinds. `BufferTooShort` is a
  read past the end. `InvalidDivision` is a zero password key.
  `CyclicList` is a link back to a segment already read.
- `Binary`: little-endian integers, fixed-width text, raw dates, and a
  sequential `Reader` in the role of `BinaryReader`.
- `Password`: truncating division, the `(char)` cast, and decryption.
- `Header`: the header layout, `DecodeHeader`, and the writer's encoding
  `EncodeHeader` that it inverts.
- `Record`: the segment layout and `DecodeRecord`.
- `FileList`: the list walk `GetFileList`, and the loop as written without
  a cycle guard (`FollowLinks`).
- `Hierarchy`: `ProcessHierarchy` and the step rules it follows.
- `IndexTools`: `FriendlyName` and `ExtractIndexInfo`, which chains
  everything together.

The list walk is specified by `FileList.Ends`. A walk starts at
FirstItemIndex, each segment number in it is the link stored in the segment
before it, and it repeats no segment. `Ends` then says how the walk stops:

- `Completed`: the next link is not positive;
- `RanOff`: the next link points past the buffer;
- `Cycled`: the next link points back into the walk.

`GetFileList` returns the walk together with the records of its segments,
in walk order. `FileList.WalkDeterministic` shows that only one walk and
one outcome can satisfy `Ends`. Together they pin the result down
completely.

## Model

| member | source | states |
|---|---|---|
| `Binary.Int16RoundTrip` | Deloitte.Common.AS2Utilities/IndexTools.cs:145 | reading back the two little-endian bytes stored for any int16 gives that int16 (two's complement) |
| `Binary.Int16Injective` | Deloitte.Common.AS2Utilities/IndexTools.cs:145 | every two-byte string is the encoding of the value ToInt16 reads from it, so no two byte strings decode alike |
| `Binary.Int32RoundTrip` | Deloitte.Common.AS2Utilities/IndexTools.cs:133 | reading back the four little-endian bytes stored for any int32 gives that int32 |
| `Binary.Int32Injective` | Deloitte.Common.AS2Utilities/IndexTools.cs:133 | every four-byte string is the encoding of the value ToInt32 reads from it |
| `Binary.UnitAt` | Deloitte.Common.AS2Utilities/IndexTools.cs:132 | UTF-16LE: code unit i of a field is byte 2i plus 256 times byte 2i + 1 |
| `Binary.DecodeText` | Deloitte.Common.AS2Utilities/IndexTools.cs:132 | a decoded text field has at most width/2 code units and never ends in NUL (the TrimEnd('\0')) |
| `Binary.DecodeTextTrims` | Deloitte.Common.AS2Utilities/IndexTools.cs:132 | the decoded text is a prefix of the field's code units, and every unit cut off after it is NUL: only trailing NULs are removed |
| `Binary.TextRoundTrip` | Deloitte.Common.AS2Utilities/IndexTools.cs:132 | a text that fits its field and has no trailing NUL comes back unchanged after being written NUL-padded to the field width and read |
| `Binary.ReadBytes` | Deloitte.Common.AS2Utilities/IndexTools.cs:225 | a read succeeds exactly when the bytes are there, returns exactly the next n bytes and advances the position by n |
| `Binary.ReadInt32` | Deloitte.Common.AS2Utilities/IndexTools.cs:133 | a sequential int32 read yields the int32 at the reader's position and advances by four |
| `Binary.ReadText` | Deloitte.Common.AS2Utilities/IndexTools.cs:132 | a sequential text read yields the text field at the reader's position and advances by the field width |
| `Binary.ReadDate` | Deloitte.Common.AS2Utilities/IndexTools.cs:136-138 | a date read keeps the eight raw bytes at the reader's position and advances by eight |
| `Binary.ReadInt16s` | Deloitte.Common.AS2Utilities/IndexTools.cs:143-146 | consecutive int16 reads (the ten password keys): value i is the int16 two i bytes past the position, and the reader advances by two bytes per value |
| `Binary.ReadNarrowedInt32s` | Deloitte.Common.AS2Utilities/IndexTools.cs:148-151 | consecutive password-slot reads: each consumes four bytes but yields only the int16 in its first two, and the reader advances by four bytes per value |
| `Binary.ReadInitials` | Deloitte.Common.AS2Utilities/IndexTools.cs:213-221 | consecutive 22-byte initials fields, read as one block, are the text fields at 22-byte steps from the position, and the reader advances past all of them |
| `Binary.ReadDates` | Deloitte.Common.AS2Utilities/IndexTools.cs:228-236 | consecutive eight-byte dates, read as one block, are the raw bytes at eight-byte steps from the position, and the reader advances past all of them |
| `Password.TruncDivRemainder` | Deloitte.Common.AS2Utilities/IndexTools.cs:162 | C# division truncates toward zero: the remainder is smaller than the divisor in size and never has the opposite sign to the dividend |
| `Password.CharOf` | Deloitte.Common.AS2Utilities/IndexTools.cs:162 | the `(char)` cast keeps the low 16 bits: the code unit differs from the int by a multiple of 65536 |
| `Password.NonzeroSlots` | Deloitte.Common.AS2Utilities/IndexTools.cs:158-160 | the slots in use, in ascending order, are exactly the nonzero slots |
| `Password.Decrypt` | Deloitte.Common.AS2Utilities/IndexTools.cs:157-165 | decryption fails, with a division error, exactly when a slot in use has a zero key; otherwise it yields one character per slot in use, in slot order, each the low 16 bits of the truncated quotient |
| `Header.ReadHeaderFields` | Deloitte.Common.AS2Utilities/IndexTools.cs:131-151 | the field reads succeed exactly when 604 bytes are there, and every field comes from its fixed offset (version 0, revision 12, folder title 16, first item 180, dates 184/192/200, long pack name 208, pack dir 370, pack version 532, keys 544 + 2i, password slots 564 + 4i) |
| `Header.DecryptFields` | Deloitte.Common.AS2Utilities/IndexTools.cs:157-165 | decrypting touches only the decrypted-password field and fails exactly when some slot in use has a zero key |
| `Header.DecodeHeader` | Deloitte.Common.AS2Utilities/IndexTools.cs:124-167 | a short buffer is the only cause of BufferTooShort and a zero key on a slot in use the only cause of InvalidDivision; on success the fields follow the layout and the decrypted password is that of the slots and keys read |
| `Header.GetHeader` | Deloitte.Common.AS2Utilities/IndexTools.cs:124-167 | GetHeader fails only for a buffer too short for the 604 bytes read or for a zero key in a slot whose password is in use; otherwise the header is the one laid out in the buffer, its password decrypts under its key, and the friendly name is still empty |
| `Header.DecodeHeaderReadsOnlyItsFields` | Deloitte.Common.AS2Utilities/IndexTools.cs:131-151 | the header depends on bytes 0..603 only, and not on the upper two bytes of any password slot |
| `Header.PaddedInt16sAt` | Deloitte.Common.AS2Utilities/IndexTools.cs:143-151 | in the written key and password-slot areas, value i occupies the first two bytes of field i, which is where the slot reads take it from |
| `Header.EncodedHeaderLaidOut` | Deloitte.Common.AS2Utilities/IndexTools.cs:131-151 | the bytes a writer stores for a header put every field where the reads take it from, so the layout reads the header back field for field |
| `Header.DecodeLaidOut` | Deloitte.Common.AS2Utilities/IndexTools.cs:124-167 | a buffer in which a header is laid out, with a nonzero key on every slot in use, decodes to exactly that header, with the decrypted password of its slots and keys and an empty friendly name |
| `Header.HeaderRoundTrip` | Deloitte.Common.AS2Utilities/IndexTools.cs:124-167 | decoding the bytes written for a header gives every field back, whenever its texts fit their widths, its dates have eight bytes, it has ten keys and ten slots, and every slot in use has a nonzero key; the decrypted password is then the one its slots and keys give |
| `Record.ReadRecordHead` | Deloitte.Common.AS2Utilities/IndexTools.cs:202-211 | the first nine reads of a segment take title, segment, parent, next item, UID, item type, document type, reference and master flag from offsets 0, 164, 168, 172, 176, 252, 256, 274 and 296 |
| `Record.ReadSignOffs` | Deloitte.Common.AS2Utilities/IndexTools.cs:213-236 | the sign-off reads take the initials from offsets 300 and 388, the offset bytes from 476, and the dates from 480 and 512 of the segment |
| `Record.ReadFlags` | Deloitte.Common.AS2Utilities/IndexTools.cs:238-243 | the trailing reads take the five counters from offsets 544 to 560 and the default reference from 564 |
| `Record.DecodeRecord` | Deloitte.Common.AS2Utilities/IndexTools.cs:197-243 | one iteration's reads succeed exactly when segment k's 586 bytes, at 648 + (k - 1) * 632, lie in the buffer; the entry is that segment's record with Index k and tree level 0 |
| `Record.SegmentsDisjoint` | Deloitte.Common.AS2Utilities/IndexTools.cs:197 | the header's 604 bytes end before segment 1, and each segment's 586 read bytes end before the next segment starts |
| `Record.RecordReadsOnlyItsSegment` | Deloitte.Common.AS2Utilities/IndexTools.cs:197-243 | two buffers that agree on segment k's 586 read bytes give the same entry for k |
| `Record.RecordUnchangedByOtherBytes` | Deloitte.Common.AS2Utilities/IndexTools.cs:197-243 | overwriting any byte outside segment k's read bytes, in the header or in another segment, leaves k's entry unchanged |
| `FileList.GetFileList` | Deloitte.Common.AS2Utilities/IndexTools.cs:193-247 | on success the entries are the records of the walk from FirstItemIndex, in walk order, each with the segment number it was read from as its Index, ending at a link that is not positive; a failure is a walk that runs off the buffer (BufferTooShort) or comes back to a segment already read (CyclicList) |
| `FileList.WalksAgree` | Deloitte.Common.AS2Utilities/IndexTools.cs:195-246 | two walks from the same first index agree on their common length |
| `FileList.WalkDeterministic` | Deloitte.Common.AS2Utilities/IndexTools.cs:195-246 | the walk from a first index and the way it ends are unique, so the three outcomes exclude one another |
| `FileList.FollowLinksOnEndedWalk` | Deloitte.Common.AS2Utilities/IndexTools.cs:195-246 | on a list that completes or runs off the buffer, the loop as written reads exactly the walk's segments and stops the same way |
| `FileList.CycleNeverFinishes` | Deloitte.Common.AS2Utilities/IndexTools.cs:195-246 | on a list whose links come back to a segment already read, the loop as written is still running after any number of iterations |
| `FileList.SelfLinkedSegment` | Deloitte.Common.AS2Utilities/IndexTools.cs:195-246 | FirstItemIndex 1 with segment 1 linking to itself is a cycle, and the loop as written never stops on it |
| `Hierarchy.ProcessHierarchy` | Deloitte.Common.AS2Utilities/IndexTools.cs:76-98 | the entries keep their order and every field except the tree level; the tree levels follow the step rules |
| `Hierarchy.LevelsMoveByOne` | Deloitte.Common.AS2Utilities/IndexTools.cs:85-92 | under the step rules each level differs from the one before it (0 before the first entry) by at most one |
| `Hierarchy.RulesDetermineLevels` | Deloitte.Common.AS2Utilities/IndexTools.cs:80-97 | the step rules admit exactly one level assignment for a list of entries |
| `Hierarchy.RootWithTwoChildren` | Deloitte.Common.AS2Utilities/IndexTools.cs:76-98 | a root followed by two of its children gets levels 0, 1, 1 |
| `Hierarchy.LoneRoot` | Deloitte.Common.AS2Utilities/IndexTools.cs:76-98 | a single root entry gets level 0 |
| `Hierarchy.OrphanFirstEntry` | Deloitte.Common.AS2Utilities/IndexTools.cs:76-98 | a first entry whose parent is 5 gets level -1 |
| `Hierarchy.RootAfterGrandchild` | Deloitte.Common.AS2Utilities/IndexTools.cs:76-98 | root, child, grandchild, then a new root get levels 0, 1, 2, 1 |
| `Hierarchy.LevelsNeverBelowDepth` | Deloitte.Common.AS2Utilities/IndexTools.cs:76-98 | on a depth-first listing of a tree, the level the step rules give each entry is at least its true depth, so no level is negative |
| `Hierarchy.DepthStep` | Deloitte.Common.AS2Utilities/IndexTools.cs:84-92 | on a depth-first listing, the true depth rises by one for a child of the entry before, stays for its sibling, and falls by at least one otherwise: the three branches of the step rules |
| `Hierarchy.RootAfterGrandchildDepths` | Deloitte.Common.AS2Utilities/IndexTools.cs:76-98 | in root, child, grandchild, new root, the grandchild has depth 2 and the new root depth 0, one below its level of 1 |
| `Hierarchy.RootAfterGrandchildIsPreorder` | Deloitte.Common.AS2Utilities/IndexTools.cs:76-98 | root, child, grandchild, new root is a depth-first listing |
| `IndexTools.LastIndexOf` | Deloitte.Common.AS2Utilities/IndexTools.cs:67 | the result is the position of the last occurrence of the code unit, with none after it, or -1 when there is none |
| `IndexTools.FriendlyName` | Deloitte.Common.AS2Utilities/IndexTools.cs:67 | the friendly name is a suffix of the comment with no `;`, and it is either the whole comment or preceded by a `;` |
| `IndexTools.FriendlyNameOfJoin` | Deloitte.Common.AS2Utilities/IndexTools.cs:67 | any comment made of a prefix, a `;` and a name without `;` has that name as its friendly name |
| `IndexTools.FriendlyNameWithoutSemicolon` | Deloitte.Common.AS2Utilities/IndexTools.cs:67 | a comment without `;` is its own friendly name |
| `IndexTools.FriendlyNameIdempotent` | Deloitte.Common.AS2Utilities/IndexTools.cs:67 | taking the friendly name of a friendly name changes nothing |
| `IndexTools.ExtractIndexInfo` | Deloitte.Common.AS2Utilities/IndexTools.cs:28-70 | a header error is reported before the list is read; on success the header is the decoded header with the friendly name of the comment, and the entries are the list walk's records with levels by the step rules; a list error is a walk that runs off the buffer or cycles |

## Left out

- ZIP handling is not modelled. This covers opening the archive, finding `index.sav`, reading the archive comment, and copying the entry into two memory streams (IndexTools.cs lines 30-62). The decoder receives the entry's bytes and the comment as values.
- The two memory streams share one buffer, and the model passes that buffer once.
- `ConvertVB6DateToDateTime` is not modelled, because it is floating-point work (DateTime.FromOADate over an IEEE double). Dates keep their eight raw bytes, and FromOADate's range errors are therefore not modelled.
- Short reads are simplified: any read past the end of the buffer fails with `BufferTooShort`. In the source, a short ReadBytes returns fewer bytes. A text field then decodes short, while an integer conversion throws. So the source accepts a header of 602 or 603 bytes, because the last password slot still has its two low bytes. It also accepts a final segment truncated inside its last text field. The model requires all 604 (header) and 586 (record) bytes.
- `Record.DecodeRecord`: int32 overflow of `(nextItemIndex - 1) * 632` is not modelled. Segment offsets are exact integers, so indices above about 3.4 million do not wrap to a negative or wrong offset as they do in the source.
- `Hierarchy.ProcessHierarchy`: the indent level is an unbounded integer, not a 32-bit int. It can only wrap after more than two billion entries.
- Text is a sequence of UTF-16 code units. Surrogate pairs, and what Encoding.Unicode does with unpaired surrogates or odd byte counts, are not modelled.
- `IndexTools.FriendlyName` uses an ordinal search for `;`. The source's String.LastIndexOf(string) is culture-sensitive, which is not modelled. A null comment is not modelled either.
- The cycle guard is an addition. The source loop has no guard against a link that points back, so on such a list it never finishes normally (see Findings). The model reports `CyclicList` instead.
- The record reads are grouped into three stretches: bytes 0-299, 300-543 and 544-585 of the segment. Each stretch starts reading at its absolute offset. The stretches are contiguous, so this is the same as the source's back-to-back reads after one Seek.
- `As2Index` is modelled as `IndexTools.IndexInfo`. That is a header plus a sequence of entries, in place of the LinkedList.
- Exceptions thrown by `Close` and by the stream Seek are not modelled.

## Findings

| source | as written | input that shows it | evidently intended | confidence | as-written member | corrected member |
|---|---|---|---|---|---|---|
| Deloitte.Common.AS2Utilities/IndexTools.cs:195-247 | the list loop follows NextItemIndex with no check for a segment already read, so after a link back into the list it re-reads segments and appends their records on every pass; it never finishes normally and ends only when memory runs out | FirstItemIndex 1, with segment 1's NextItemIndex equal to 1 | reading an index file terminates, and a corrupt list is reported as an error | not executed; medium | `FileList.CycleNeverFinishes` (over `FileList.FollowLinks`) | `FileList.GetFileList` (ends with CyclicList; `FileList.WalkDeterministic`) |
