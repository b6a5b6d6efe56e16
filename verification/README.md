# EXIF tag value resolution and maker-note parsing, in Dafny

This project models the core of a Go EXIF reader: how one tag of a TIFF
image file directory (IFD) finds its value bytes, how the typed accessors
decode those bytes, and how the Canon and Nikon (type 3) maker-note parsers
find, decode and rebase the vendor directory stored in the MakerNote tag.

- `results.dfy` (`Results`): `Option` and `Result`, used in place of Go's
  `(value, error)` returns and its panic/recover error signalling.
- `byteorders.dfy` (`ByteOrders`): bytes and fixed-width integers, the
  big- and little-endian decoders `Uint16`/`Uint32` with their encoders, and
  Go's truncation to uint32 and int64.
- `tagtypes.dfy` (`TagTypes`): the value types and their unit sizes from
  section 2 of TIFF 6.0 (BYTE, ASCII and ASCII without NUL 1, SHORT 2,
  LONG 4, RATIONAL and SRATIONAL 8); the unset type is invalid.
- `tags.dfy` (`Tags`): the `Tag` record, `Set`, and `ReadRawEncoded`, which
  takes the value from the 4 inline bytes of the IFD entry when its encoded
  length is at most 4 and reads it from the file at the value offset
  otherwise. The encoded length is a uint32 product and wraps modulo 2^32.
- `accessors.dfy` (`Accessors`): `GetString` (BYTE branch), `GetInt`,
  `GetRational`, `GetRationals` and `GetUint16`. `GetInt`, `GetRational`, `GetRationals`
  and `GetUint16` each check the type, resolve the bytes, check their length,
  then switch on the type; `GetString` switches right after resolving and
  checks the length only in its BYTE branch.
- `makernotes.dfy` (`MakerNotes`): the Canon parser (zero-padded view so
  that offsets inside the note resolve against the container), the Nikon
  type 3 parser (signature, 10-byte header, preview-offset rebase) and
  `LoadSubDir`.

The file is an immutable byte sequence; a read past its end fails, as
`bytes.Reader.ReadAt` does. The TIFF directory decoder (`tiff.DecodeDir`,
`tiff.Decode`) and `Exif.LoadTags` are collaborators passed in as functions.
The maker-note properties hold whatever those functions return.

Behaviour of the code worth noting:

- An overflowing `unitSize * unitCount` is not rejected: the product is
  wrapped to 32 bits. The later `NotEnoughData` check then fires exactly
  when the product wrapped (`Tags.ShortSpanIffWrapped`, `Accessors.CheckedSpan`).
- BYTE text is trimmed of NUL bytes at both ends (`bytes.Trim`).
- A unit count of zero passes every length check.
- Canon loads its camera-settings sub-directory with the Nikon preview field
  map (mknote/mknote.go:49). The model passes that map through unchanged.

## Model

| member | source | states |
|---|---|---|
| Tags.NewTag | exiftool/exif/tag.go:40-46 | a new tag carries the given name and type and an empty value context: empty IFD path, tag ID 0, count 0, offset 0 and no inline bytes |
| Tags.Set | exiftool/exif/tag.go:48-55 | Set records the five context fields exactly and keeps the name and type |
| Tags.SetOverrides | exiftool/exif/tag.go:48-55 | a second Set replaces the whole context of the first |
| TagTypes.TagType.Size | exiftool/exif/tag.go:83 | per-unit sizes of the valid (non-unset) types, as in section 2 of TIFF 6.0: 1 exactly for BYTE and both ASCII types, 2 for SHORT, 4 for LONG, 8 exactly for both rationals |
| Tags.FullLength | exiftool/exif/tag.go:145 | the length the accessors check against is unitSize*unitCount in unbounded arithmetic |
| Tags.ByteLength | exiftool/exif/tag.go:83 | the uint32 encoded length is unitSize*unitCount modulo 2^32: congruent to the product, equal to it iff it is below 2^32, and never larger |
| Tags.ReadAt | exiftool/exif/tag.go:90-93 | a read succeeds iff the span lies in the file, and then returns exactly the file bytes at the offset; otherwise it returns an error carrying offset and length |
| Tags.ReadRawEncoded | exiftool/exif/tag.go:73-95 | length at most 4 (inclusive): the first bytes of the inline value, or a slice error when there are too few; longer: exactly the file bytes at valueOffset, or a read error; on success the span is as long as the uint32 length |
| Tags.InlineIgnoresFile | exiftool/exif/tag.go:85-88 | a value of at most 4 bytes resolves identically against every file |
| Tags.OffsetReadsOnlyItsSpan | exiftool/exif/tag.go:90-94 | a value longer than 4 bytes depends only on its file span and not on the inline bytes |
| Tags.InlineThreshold | exiftool/exif/tag.go:86-94 | 4 BYTE units come from the inline bytes; 5 BYTE units resolve iff the file holds bytes [valueOffset, valueOffset+5), and are then exactly those file bytes |
| Tags.ShortSpanIffWrapped | exiftool/exif/tag.go:83-88 | after a successful resolution the span is shorter than unitSize*unitCount iff the product is at least 2^32 |
| Accessors.CheckedSpan | exiftool/exif/tag.go:137-147 | EmptyTag iff the type is invalid; resolution errors pass through; NotEnoughData after a successful resolution iff the length wrapped; a valid type whose resolution succeeds without wrapping gets its resolved bytes back; success gives a span of exactly unitSize*unitCount bytes |
| Accessors.TrimNul | exiftool/exif/tag.go:122 | the result neither starts nor ends with NUL and sits in the input with only NUL bytes around it |
| Accessors.TrimNulOfPadded | exiftool/exif/tag.go:122 | trimming undoes any NUL padding on either side of a text with no NUL at its ends |
| Accessors.TrimNulIdempotent | exiftool/exif/tag.go:122 | trimming a trimmed value changes nothing |
| Accessors.GetString | exiftool/exif/tag.go:99-127 | EmptyTag for an invalid type; a resolution error is returned unchanged; after resolution ASCII and ASCII-without-NUL hand the bytes and unitCount to their parsers and return their result, SHORT, LONG and both rationals give UnparseableValue; BYTE succeeds iff its unitCount bytes resolve, and then yields those bytes with NULs trimmed from both ends |
| Accessors.GetInt | exiftool/exif/tag.go:131-160 | EmptyTag first; the resolution or NotEnoughData error is returned unchanged; success iff the type is SHORT, LONG or BYTE and the checked span exists; SHORT decodes bytes [0,2), LONG [0,4), BYTE byte 0; other types give UnparseableValue; every value is in [0, 2^32) |
| Accessors.GetIntShortInlineRoundTrip | exiftool/exif/tag.go:150-151 | a SHORT encoded inline in the session byte order reads back as itself |
| Accessors.GetIntLongInlineRoundTrip | exiftool/exif/tag.go:152-153 | a LONG encoded inline in the session byte order reads back as itself |
| Accessors.GetRational | exiftool/exif/tag.go:164-194 | EmptyTag first; the resolution or NotEnoughData error is returned unchanged; success iff the type is RATIONAL or SRATIONAL and the checked span exists; numerator is the uint32 at [0,4) and denominator the one at [4,8); other types give UnparseableValue |
| Accessors.SignedRationalDecodesAsRational | exiftool/exif/tag.go:183-189 | an SRATIONAL tag decodes to the same pair as the same tag typed RATIONAL |
| Accessors.GetRationalRoundTrip | exiftool/exif/tag.go:184-186 | a pair written to the file at the tag's offset in the session byte order reads back unchanged |
| Accessors.PairRoundTrip | exiftool/exif/tag.go:185-186 | the eight bytes of an encoded numerator and denominator decode to the same pair |
| Accessors.DecodeRationals | exiftool/exif/tag.go:218-224 | exactly count pairs; pair i is the uint32 at [8i,8i+4) over the uint32 at [8i+4,8i+8) |
| Accessors.GetRationals | exiftool/exif/tag.go:198-229 | EmptyTag first; the resolution or NotEnoughData error is returned unchanged; success iff the type is RATIONAL and the checked span exists; exactly unitCount pairs with the index formula; other types give UnparseableValue |
| Accessors.GetRationalsOfFileSlice | exiftool/exif/tag.go:207-224 | a non-empty RATIONAL array decodes exactly the file bytes it spans |
| Accessors.DecodeRationalsOfSlice | exiftool/exif/tag.go:221-224 | pair i of a span cut from the file at off is read at off+8i and off+8i+4 |
| Accessors.DecodeRationalsOfFile | exiftool/exif/tag.go:218-224 | every pair decoded from the file span at off is the two file uint32s at off+8i and off+8i+4; with GetRationalsOfFileSlice this gives pair i of a RATIONAL array from valueOffset+8i |
| Accessors.DecodeRationalsExample | exiftool/exif/tag.go:221-224 | the bytes 0,0,0,2, 0,0,0,3, 0,0,0,10, 0,0,0,1 decode big-endian to 2/3 and 10/1 |
| Accessors.GetRationalsExample | exiftool/exif/tag.go:198-229 | the same example through a RATIONAL tag of count 2 at offset 0 |
| Accessors.DecodeShorts | exiftool/exif/tag.go:254-257 | exactly count values; value i is the uint16 at [2i,2i+2) |
| Accessors.GetUint16 | exiftool/exif/tag.go:233-262 | EmptyTag first; the resolution or NotEnoughData error is returned unchanged; success iff the type is SHORT and the checked span exists; exactly unitCount values with the index formula; other types give UnparseableValue |
| Accessors.GetUint16InlineRoundTrip | exiftool/exif/tag.go:242-257 | up to two SHORTs encoded inline in the session byte order read back as themselves, in order |
| Accessors.GetUint16FileRoundTrip | exiftool/exif/tag.go:242-257 | any number of SHORTs above two, written to the file at valueOffset in the session byte order, read back as themselves, in order |
| Accessors.EncodeShortsAt | exiftool/exif/tag.go:254-257 | value i of a SHORT array sits at bytes [2i,2i+2) of its encoding, the span the decoding loop reads |
| Accessors.DecodeShortsOfEncoded | exiftool/exif/tag.go:254-257 | decoding count encoded SHORTs gives back the count values, in order, whatever bytes follow |
| Accessors.InlineSpanIsChecked | exiftool/exif/tag.go:83-88 | inline bytes of exactly the encoded length, at most 4, are what the length-checked resolution returns |
| Accessors.WrittenSpanIsChecked | exiftool/exif/tag.go:83-94 | bytes of the encoded length, more than 4 and below 2^32, written at valueOffset are what the length-checked resolution returns |
| Accessors.EmptyTagComesFirst | exiftool/exif/tag.go:137-139 | every accessor reports EmptyTag for an unset type, whatever the bytes and even where the data is too short |
| ByteOrders.Uint16RoundTrip | exiftool/exif/tag.go:151 | decoding an encoded uint16 in the same byte order gives it back |
| ByteOrders.Uint16Canonical | exiftool/exif/tag.go:256 | re-encoding a decoded uint16 gives back its two bytes |
| ByteOrders.Uint32RoundTrip | exiftool/exif/tag.go:153 | decoding an encoded uint32 in the same byte order gives it back |
| ByteOrders.Uint32Canonical | exiftool/exif/tag.go:185-186 | re-encoding a decoded uint32 gives back its four bytes |
| ByteOrders.Be32Digits | exiftool/exif/tag.go:153 | the four base-256 digits of a big-endian value are its bytes |
| ByteOrders.Uint16FlipIffPalindrome | exiftool/exif/tag.go:151 | decoding with the other byte order returns the value iff its two bytes are equal |
| ByteOrders.Uint32FlipIffPalindrome | exiftool/exif/tag.go:153 | decoding with the other byte order returns the value iff its four bytes read the same both ways |
| ByteOrders.WrapUint32 | exiftool/exif/tag.go:83 | uint32 truncation keeps the value modulo 2^32: the identity below 2^32, and a strictly smaller congruent value above |
| ByteOrders.WrapInt64 | mknote/mknote.go:84 | int64 truncation is the identity on the int64 range and, on overflow, gives the int64 congruent to the sum modulo 2^64 |
| MakerNotes.Get | mknote/mknote.go:25-28 | a lookup finds a tag iff its name is in the tag set |
| MakerNotes.Update | mknote/mknote.go:85 | the named entry is replaced and every other entry is kept |
| MakerNotes.StringVal | mknote/mknote.go:35 | text is returned iff the tag holds text |
| MakerNotes.Int64 | mknote/mknote.go:99-102 | the i-th integer is returned iff the tag holds integers and has an i-th one |
| MakerNotes.SetInt | mknote/mknote.go:84 | the i-th integer becomes v when it exists; every other index and the raw fields are unchanged; a tag without an i-th integer is returned as it was |
| MakerNotes.CanonView | mknote/mknote.go:41-42 | the view is valOffset zeros and then the payload: its length is valOffset+len(Val), and position valOffset+i holds Val[i] |
| MakerNotes.CanonViewRebases | mknote/mknote.go:39-42 | a container offset p inside the note addresses payload byte p-valOffset |
| MakerNotes.LoadSubDir | mknote/mknote.go:93-114 | a missing or non-integer pointer adds nothing and returns nil; a negative pointer is a seek error; a decode failure is an error; errors leave the tag set unchanged; otherwise the decoded directory is loaded |
| MakerNotes.LoadSubDirReadsOnlyThePointer | mknote/mknote.go:99-111 | replacing the pointer tag by one with the same first integer leaves the outcome (nil or which error) unchanged |
| MakerNotes.CanonParse | mknote/mknote.go:24-52 | a no-op returning nil without MakerNote, without Make, or when Make is not "Canon"; otherwise it decodes the padded view at valOffset and returns a decode error unchanged, or loads the directory and the camera-settings sub-directory and returns nil |
| MakerNotes.CanonSwallowsSubDirErrors | mknote/mknote.go:44-51 | once the note decodes, Canon returns nil, and a failed sub-directory leaves only the note's own tags loaded |
| MakerNotes.NikonBase | mknote/mknote.go:76 | the rebase amount is valOffset + 10 as a uint32: the sum itself, or the sum minus 2^32 for offsets of 2^32-10 and above |
| MakerNotes.RebasePreview | mknote/mknote.go:81-86 | without the preview tag nothing changes; with it, the tag keeps its ID, raw bytes and offset, integer 0 becomes old + base as an int64, every other index and every other tag is unchanged, and a tag whose integer 0 cannot be read is left as it was |
| MakerNotes.NikonDecode | mknote/mknote.go:71-86 | the payload after the 10-byte header is decoded as a stream of its own; a decode error is returned with the tags unchanged; otherwise the first directory is loaded and the preview offset rebased |
| MakerNotes.NikonParse | mknote/mknote.go:57-91 | a no-op returning nil without MakerNote, for a payload shorter than 6 bytes, or when it does not start with "Nikon\0"; a signed payload shorter than 10 bytes panics; otherwise it decodes as NikonDecode does |
| MakerNotes.NikonParseChecked | mknote/mknote.go:62-75 | as NikonParse, but a signed payload shorter than its header is a TruncatedMakerNote error and the parser never panics on a short payload |
| MakerNotes.NikonSignatureOnlyPanics | mknote/mknote.go:65-71 | a maker note that is just "Nikon\0" reaches the out-of-range slice |
| MakerNotes.NikonCheckedAgreesElsewhere | mknote/mknote.go:57-75 | the corrected parser equals the source on every input except signed payloads of 6 to 9 bytes |
| MakerNotes.NikonRebaseExample | mknote/mknote.go:76-85 | a preview start of 200 in a note at offset 1000 becomes 1210 |

## Left out

- exiftool/ifd_item.go (`MappedIfd`, `NewIfdMapping`): it holds only a struct and an empty-root constructor. There is no insertion or lookup logic to model.
- The ASCII and ASCII-without-NUL branches of `GetString`: the parser package is not part of this model. Its two functions are parameters, and the model only states that they receive the resolved bytes and the unit count.
- `tiff.Decode`, `tiff.DecodeDir` and `Exif.LoadTags` are not part of this model. They are collaborator functions. `Get` and `Update` are modelled as a plain map lookup and a plain map assignment.
- MakerNotes.SetInt: the tiff tag's `SetInt` is not part of this model. It is assumed to overwrite the i-th integer when the tag has one and to leave any other tag as it was.
- MakerNotes.Int64: the tiff tag's `Int64` is not part of this model. It is assumed to return an error, not to panic, both for a tag that does not hold integers and for an index past its last integer. So `LoadSubDir` treats a pointer tag with no integers as absent, and `RebasePreview` treats its integer as 0. If the real method panics on an index out of range, as the upstream goexif `Tag.Int64` documents, those two cases would panic instead.
- MakerNotes.StringVal: the tiff tag's `StringVal` is not part of this model. It is assumed to return the text of an ASCII tag and an error for any other tag, so a non-ASCII Make tag selects no parser.
- The spelling of the vendor field names (`CanonCameraSettings`, `NikonPreviewImageStart`) and the contents of the vendor field maps are defined in packages this model does not cover. The names are placeholders; the maps are parameters.
- Accessors.GetInt: requires `unitCount >= 1`. With a count of 0 the source re-slices `rawValue[:2]` past its length into the slice's capacity; that capacity quirk is not modelled.
- Accessors.GetRational: requires `unitCount >= 1`, for the same slice-capacity reason as GetInt.
- The other TIFF field types (UNDEFINED, named at exiftool/exif/tag.go:60 in commented-out code, and SBYTE, SSHORT, SLONG, FLOAT, DOUBLE) are not modelled. The source's `TagType`, its `IsValid` and its `Size` table are defined outside exiftool/exif/tag.go; the model's type set and sizes follow section 2 of TIFF 6.0 for the types the accessors handle.
- The capacity of the inline byte slice is taken to equal its length. `rawValueOffset[:byteLength]` therefore fails exactly when fewer than byteLength inline bytes exist.
- I/O: the random-access reader is an in-memory byte sequence. A read either returns all the requested bytes or fails; other I/O faults are not distinguished.
- SRATIONAL numerators are returned as unsigned 32-bit bit patterns, as the source does. No two's-complement reinterpretation is modelled.
- Panics that the source does not recover (the Nikon header slice and `Dirs[0]` on an empty directory list) are modelled as the error values `SliceBoundsPanic` and `IndexPanic`.
- Debug printing (mknote/mknote.go:87-88, 98), the commented-out `effectiveValueType` logic, the global parser values `Canon`, `NikonV3` and `All`, and the commented-out `loadSubList` are not modelled.

## Findings

| source | as written | input that shows it | evidently intended | confidence | as-written member | corrected member |
|---|---|---|---|---|---|---|
| mknote/mknote.go:62-71 | only `len(m.Val) >= 6` is checked before `m.Val[10:]`, and the parser has no `recover` | a MakerNote whose payload is exactly the 6 bytes "Nikon\0" | a signed note shorter than its 10-byte header is reported as a decode error | not executed; high, by Go's slice-bounds rule | MakerNotes.NikonParse, MakerNotes.NikonSignatureOnlyPanics | MakerNotes.NikonParseChecked, MakerNotes.NikonCheckedAgreesElsewhere |
