/** An EXIF tag occurrence and the resolution of its encoded bytes
    (exiftool/exif/tag.go). The value of a tag is stored in the 4-byte
    value-offset field of its IFD entry when it fits there, and otherwise at
    the offset that field holds (section 2 of TIFF 6.0, "Value Offset"). */
module Tags {
  import opened Results
  import opened ByteOrders
  import opened TagTypes

  type TagID = uint16

  /** One tag: its display name and type, and the value context copied from
      its IFD entry by `Set`. */
  datatype Tag = Tag(
    name: string,
    tagType: TagType,
    ifdPath: string,
    tagID: TagID,
    unitCount: uint32,
    valueOffset: uint32,
    rawValueOffset: seq<byte>)

  /** The errors a resolution or an accessor can report. In the source every
      one but `EmptyTag` travels by panic and is turned back into an error by
      the deferred `recover`. */
  datatype TagError =
    | EmptyTag                                 // ErrEmptyTag: the tag type is unset
    | NotEnoughData                            // ErrNotEnoughData
    | UnparseableValue                         // ErrUnparseableValue: wrong type for the accessor
    | SliceOutOfRange                          // runtime panic of rawValueOffset[:byteLength]
    | ReadFailed(offset: uint32, length: nat)  // the reader's ReadAt failed
    | ParseFailed(reason: string)              // an error from the ASCII parsers

  /** A tag with a name and a type and an empty value context. */
  function NewTag(name: string, tagType: TagType): (tag: Tag)
    ensures tag.name == name && tag.tagType == tagType
    ensures tag.ifdPath == "" && tag.tagID == 0
    ensures tag.unitCount == 0 && tag.valueOffset == 0 && tag.rawValueOffset == []
  {
    Tag(name, tagType, "", 0, 0, 0, [])
  }

  /** Records the value context of an IFD entry; the name and type are kept. */
  function Set(tag: Tag, ifdPath: string, tagID: TagID, unitCount: uint32,
               valueOffset: uint32, rawValueOffset: seq<byte>): (r: Tag)
    ensures r.name == tag.name && r.tagType == tag.tagType
    ensures r.ifdPath == ifdPath && r.tagID == tagID && r.unitCount == unitCount
    ensures r.valueOffset == valueOffset && r.rawValueOffset == rawValueOffset
  {
    tag.(ifdPath := ifdPath, tagID := tagID, unitCount := unitCount,
         valueOffset := valueOffset, rawValueOffset := rawValueOffset)
  }

  /** A second `Set` overrides the whole value context of the first one. */
  lemma SetOverrides(tag: Tag, p1: string, id1: TagID, n1: uint32, o1: uint32, b1: seq<byte>,
                     p2: string, id2: TagID, n2: uint32, o2: uint32, b2: seq<byte>)
    ensures Set(Set(tag, p1, id1, n1, o1, b1), p2, id2, n2, o2, b2) == Set(tag, p2, id2, n2, o2, b2)
  {
  }

  /** The true encoded length, `unitSize * unitCount`, without truncation. */
  function FullLength(tag: Tag): (n: nat)
    requires tag.tagType.IsValid()
    ensures n == tag.tagType.Size() * tag.unitCount
  {
    match tag.tagType.Size()
    case 1 => tag.unitCount
    case 2 => 2 * tag.unitCount
    case 4 => 4 * tag.unitCount
    case 8 => 8 * tag.unitCount
  }

  /** The encoded length as the source computes it: a uint32 product, which
      wraps around modulo 2^32. */
  function ByteLength(tag: Tag): (n: uint32)
    requires tag.tagType.IsValid()
    ensures n <= FullLength(tag)
    ensures n == FullLength(tag) <==> FullLength(tag) < TwoTo32
    ensures (FullLength(tag) - n) % TwoTo32 == 0
  {
    WrapUint32(FullLength(tag))
  }

  /** `io.ReaderAt.ReadAt` over a file held in memory: a read of `length`
      bytes at `offset` either fills the whole buffer or fails. */
  function ReadAt(file: seq<byte>, offset: uint32, length: nat): (r: Result<seq<byte>, TagError>)
    ensures r.Ok? <==> offset + length <= |file|
    ensures r.Ok? ==> |r.value| == length
    ensures r.Ok? ==> forall i :: 0 <= i < length ==> r.value[i] == file[offset + i]
    ensures r.Err? ==> r.error == ReadFailed(offset, length)
  {
    if offset + length <= |file| then Ok(file[offset..offset + length])
    else Err(ReadFailed(offset, length))
  }

  /** The encoded bytes of the tag's value: the inline bytes when the
      (truncated) length is at most 4, the file bytes at `valueOffset`
      otherwise. */
  function ReadRawEncoded(tag: Tag, file: seq<byte>): (r: Result<seq<byte>, TagError>)
    requires tag.tagType.IsValid()
    ensures r.Ok? ==> |r.value| == ByteLength(tag)
    // inline path, inclusive at 4; the file is never consulted
    ensures ByteLength(tag) <= 4 ==>
      && (r.Ok? <==> ByteLength(tag) <= |tag.rawValueOffset|)
      && (r.Ok? ==> r.value == tag.rawValueOffset[..ByteLength(tag)])
      && (r.Err? ==> r.error == SliceOutOfRange)
    // offset path: the exact span of the file, or a read error
    ensures ByteLength(tag) > 4 ==>
      && (r.Ok? <==> tag.valueOffset + ByteLength(tag) <= |file|)
      && (r.Ok? ==> forall i :: 0 <= i < ByteLength(tag) ==> r.value[i] == file[tag.valueOffset + i])
      && (r.Err? ==> r.error == ReadFailed(tag.valueOffset, ByteLength(tag)))
  {
    var byteLength := ByteLength(tag);
    if byteLength <= 4 then
      if byteLength <= |tag.rawValueOffset| then Ok(tag.rawValueOffset[..byteLength])
      else Err(SliceOutOfRange)
    else
      ReadAt(file, tag.valueOffset, byteLength)
  }

  /** A value that fits in four bytes resolves the same against every file. */
  lemma InlineIgnoresFile(tag: Tag, f1: seq<byte>, f2: seq<byte>)
    requires tag.tagType.IsValid() && ByteLength(tag) <= 4
    ensures ReadRawEncoded(tag, f1) == ReadRawEncoded(tag, f2)
  {
  }

  /** A value longer than four bytes depends only on the bytes it spans in
      the file, and never on the inline bytes. */
  lemma OffsetReadsOnlyItsSpan(tag: Tag, f1: seq<byte>, f2: seq<byte>, inline: seq<byte>)
    requires tag.tagType.IsValid() && ByteLength(tag) > 4
    requires tag.valueOffset + ByteLength(tag) <= |f1| && tag.valueOffset + ByteLength(tag) <= |f2|
    requires f1[tag.valueOffset..tag.valueOffset + ByteLength(tag)] == f2[tag.valueOffset..tag.valueOffset + ByteLength(tag)]
    ensures ReadRawEncoded(tag, f1) == ReadRawEncoded(tag.(rawValueOffset := inline), f2)
  {
    var n := ByteLength(tag);
    var r1 := ReadRawEncoded(tag, f1).value;
    var r2 := ReadRawEncoded(tag.(rawValueOffset := inline), f2).value;
    forall i | 0 <= i < n
      ensures r1[i] == r2[i]
    {
      assert f1[tag.valueOffset..tag.valueOffset + n][i] == f2[tag.valueOffset..tag.valueOffset + n][i];
    }
  }

  /** The threshold in numbers: five bytes is the shortest value read
      from the file, four the longest kept inline. */
  lemma InlineThreshold(tag: Tag, file: seq<byte>)
    requires tag.tagType == TypeByte && 4 <= |tag.rawValueOffset|
    ensures tag.unitCount == 4 ==> ReadRawEncoded(tag, file) == Ok(tag.rawValueOffset[..4])
    ensures tag.unitCount == 5 ==> ReadRawEncoded(tag, file).Ok? == (tag.valueOffset + 5 <= |file|)
    ensures tag.unitCount == 5 && tag.valueOffset + 5 <= |file| ==>
              ReadRawEncoded(tag, file) == Ok(file[tag.valueOffset..tag.valueOffset + 5])
  {
  }

  /** After a successful resolution the resolved span is shorter than
      `unitSize * unitCount` exactly when the uint32 product wrapped. So the
      accessors' NotEnoughData check fires only for counts whose encoded
      length does not fit in 32 bits. */
  lemma ShortSpanIffWrapped(tag: Tag, file: seq<byte>)
    requires tag.tagType.IsValid() && ReadRawEncoded(tag, file).Ok?
    ensures |ReadRawEncoded(tag, file).value| < FullLength(tag) <==> FullLength(tag) >= TwoTo32
  {
  }
}
