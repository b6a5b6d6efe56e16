/** The Canon and Nikon (type 3) maker-note parsers (mknote/mknote.go).
    A maker note is the value of the EXIF MakerNote tag: a vendor-private
    IFD. The TIFF directory decoder and the loading of decoded tags into the
    tag set are collaborators outside this model; they are passed in as
    functions, and every property below holds whatever they do. */
module MakerNotes {
  import opened Results
  import opened ByteOrders
  import Tags
  type FieldName = string

  /** A field map names the tag IDs of one directory. */
  type FieldMap = map<Tags.TagID, FieldName>

  /** The decoded values of a TIFF tag, as the tiff package keeps them. */
  datatype TagValues = IntVals(ints: seq<int64>) | StrVal(str: string) | OtherVals

  /** A tag decoded by the tiff package: its raw value bytes and the
      container offset those bytes were read from. */
  datatype TiffTag = TiffTag(id: Tags.TagID, val: seq<byte>, valOffset: uint32, values: TagValues)

  /** One decoded IFD. */
  datatype Dir = Dir(tags: seq<TiffTag>)

  /** The named tags decoded so far. */
  type TagSet = map<FieldName, TiffTag>

  /** The decode state a parser reads and extends: the tag set and the byte
      order of the container. */
  datatype Exif = Exif(tags: TagSet, order: ByteOrder)

  datatype TiffError = TiffError(reason: string)

  /** The collaborators of the parsers:
      - `decodeDir(buf, pos, order)` decodes one IFD of `buf` starting at `pos`;
      - `decode(buf)` decodes a whole TIFF stream (header and IFD chain) held in `buf`;
      - `loadTags(tags, dir, fields)` adds the tags of `dir` to `tags` under the names `fields` gives them. */
  datatype Collaborators = Collaborators(
    decodeDir: (seq<byte>, nat, ByteOrder) -> Result<Dir, TiffError>,
    decode: seq<byte> -> Result<seq<Dir>, TiffError>,
    loadTags: (TagSet, Dir, FieldMap) -> TagSet)

  /** The static field maps the parsers load maker-note directories with. */
  datatype FieldMaps = FieldMaps(canon: FieldMap, nikon3: FieldMap, nikon3Preview: FieldMap)

  datatype NoteError =
    | DecodeFailed(cause: TiffError)                 // the maker-note directory did not decode
    | SeekFailed(ptr: FieldName, offset: int)        // a sub-directory pointer is negative
    | SubDirFailed(ptr: FieldName, cause: TiffError) // a sub-directory did not decode
    | SliceBoundsPanic                               // the source panics: slice bounds out of range
    | IndexPanic                                     // the source panics: index out of range
    | TruncatedMakerNote                             // a signed Nikon note too short for its header

  /** What a parser leaves behind: the (possibly extended) state and the
      error it returns, `None` for Go's nil. */
  datatype Parsed = Parsed(exif: Exif, err: Option<NoteError>)

  // The field names the parsers look up. Only their distinctness matters
  // here; the vendor names' spelling is defined outside this model.
  const MakerNote: FieldName := "MakerNote"
  const Make: FieldName := "Make"
  const CanonCameraSettings: FieldName := "Canon.CameraSettings"
  const NikonPreviewImageStart: FieldName := "Nikon.PreviewImageStart"

  /** "Nikon" followed by NUL: the first six bytes of a Nikon type 3 note. */
  const NikonSignature: seq<byte> := [0x4E, 0x69, 0x6B, 0x6F, 0x6E, 0x00]

  /** The Nikon note's IFD starts this many bytes into the payload. */
  const NikonHeaderLength: nat := 10

  // ---------------------------------------------------------------------
  // The tag-set operations the parsers use

  function Get(x: Exif, name: FieldName): (r: Option<TiffTag>)
    ensures r.Some? <==> name in x.tags
    ensures r.Some? ==> r.value == x.tags[name]
  {
    if name in x.tags then Some(x.tags[name]) else None
  }

  function Update(x: Exif, name: FieldName, tag: TiffTag): (r: Exif)
    ensures r.order == x.order
    ensures r.tags.Keys == x.tags.Keys + {name}
    ensures r.tags[name] == tag
    ensures forall k :: k in x.tags && k != name ==> r.tags[k] == x.tags[k]
  {
    x.(tags := x.tags[name := tag])
  }

  datatype ValueError = WrongFormat | IndexOutOfRange

  /** The text of an ASCII tag. */
  function StringVal(t: TiffTag): (r: Result<string, ValueError>)
    ensures r.Ok? <==> t.values.StrVal?
    ensures r.Ok? ==> r.value == t.values.str
  {
    match t.values
    case StrVal(s) => Ok(s)
    case _ => Err(WrongFormat)
  }

  /** The i-th integer of an integer tag. */
  function Int64(t: TiffTag, i: nat): (r: Result<int64, ValueError>)
    ensures r.Ok? <==> t.values.IntVals? && i < |t.values.ints|
    ensures r.Ok? ==> r.value == t.values.ints[i]
  {
    match t.values
    case IntVals(ints) => if i < |ints| then Ok(ints[i]) else Err(IndexOutOfRange)
    case _ => Err(WrongFormat)
  }

  /** Overwrites the i-th integer of an integer tag; any other tag is kept. */
  function SetInt(t: TiffTag, i: nat, v: int64): (r: TiffTag)
    ensures r.id == t.id && r.val == t.val && r.valOffset == t.valOffset
    ensures Int64(t, i).Ok? ==> Int64(r, i) == Ok(v)
    ensures forall j :: j != i ==> Int64(r, j) == Int64(t, j)
    ensures Int64(t, i).Err? ==> r == t
  {
    match t.values
    case IntVals(ints) => if i < |ints| then t.(values := IntVals(ints[i := v])) else t
    case _ => t
  }

  // ---------------------------------------------------------------------
  // Canon

  /** Canon applies when there is a maker note and the Make tag's text is
      exactly "Canon". */
  predicate CanonApplies(x: Exif) {
    && MakerNote in x.tags
    && Make in x.tags
    && StringVal(x.tags[Make]) == Ok("Canon")
  }

  /** The buffer the Canon directory is decoded from: `valOffset` zero bytes
      and then the payload, so that a container offset `p` inside the note
      is position `p` of the buffer. */
  function CanonView(m: TiffTag): (buf: seq<byte>)
    ensures |buf| == m.valOffset + |m.val|
    ensures forall i :: 0 <= i < m.valOffset ==> buf[i] == 0
    ensures forall i :: 0 <= i < |m.val| ==> buf[m.valOffset + i] == m.val[i]
  {
    seq(m.valOffset, _ => 0) + m.val
  }

  /** Loads the sub-directory a pointer tag names, decoding `buf` at the
      pointer's value. A missing pointer or one that is not an integer adds
      nothing and is no error. */
  function LoadSubDir(x: Exif, buf: seq<byte>, ptr: FieldName, fields: FieldMap, c: Collaborators): (p: Parsed)
    ensures p.exif.order == x.order
    ensures p.err.Some? ==> p.exif == x
    ensures ptr !in x.tags || Int64(x.tags[ptr], 0).Err? ==> p == Parsed(x, None)
    ensures ptr in x.tags && Int64(x.tags[ptr], 0).Ok? ==>
      var offset := Int64(x.tags[ptr], 0).value;
      && (offset < 0 ==> p.err == Some(SeekFailed(ptr, offset)))
      && (offset >= 0 ==>
            match c.decodeDir(buf, offset, x.order)
            case Err(e) => p.err == Some(SubDirFailed(ptr, e))
            case Ok(d) => p == Parsed(x.(tags := c.loadTags(x.tags, d, fields)), None))
  {
    match Get(x, ptr)
    case None => Parsed(x, None)
    case Some(tag) =>
      match Int64(tag, 0)
      case Err(_) => Parsed(x, None)
      case Ok(offset) =>
        if offset < 0 then Parsed(x, Some(SeekFailed(ptr, offset)))
        else
          match c.decodeDir(buf, offset, x.order)
          case Err(e) => Parsed(x, Some(SubDirFailed(ptr, e)))
          case Ok(d) => Parsed(x.(tags := c.loadTags(x.tags, d, fields)), None)
  }

  /** A pointer tag matters to `LoadSubDir` only through its first
      integer: two states that differ only in the pointer tag, whose
      first integers agree (or are both unreadable), end in the same
      error or the same success. */
  lemma LoadSubDirReadsOnlyThePointer(x: Exif, buf: seq<byte>, ptr: FieldName, fields: FieldMap, c: Collaborators, t: TiffTag)
    requires ptr in x.tags && Int64(t, 0) == Int64(x.tags[ptr], 0)
    ensures LoadSubDir(Update(x, ptr, t), buf, ptr, fields, c).err == LoadSubDir(x, buf, ptr, fields, c).err
  {
  }

  /** The Canon parser: decode the note as one directory of the zero-padded
      view at the note's own offset, load it, then try the camera-settings
      sub-directory, whose failure is not reported. */
  function CanonParse(x: Exif, c: Collaborators, fm: FieldMaps): (p: Parsed)
    ensures p.exif.order == x.order
    ensures !CanonApplies(x) ==> p == Parsed(x, None)
    ensures CanonApplies(x) ==>
      var m := x.tags[MakerNote];
      match c.decodeDir(CanonView(m), m.valOffset, x.order)
      case Err(e) => p == Parsed(x, Some(DecodeFailed(e)))
      case Ok(d) =>
        var loaded := x.(tags := c.loadTags(x.tags, d, fm.canon));
        && p.err == None
        && p.exif == LoadSubDir(loaded, CanonView(m), CanonCameraSettings, fm.nikon3Preview, c).exif
  {
    match Get(x, MakerNote)
    case None => Parsed(x, None)
    case Some(m) =>
      match Get(x, Make)
      case None => Parsed(x, None)
      case Some(mk) =>
        if StringVal(mk) != Ok("Canon") then Parsed(x, None)
        else
          var view := CanonView(m);
          match c.decodeDir(view, m.valOffset, x.order)
          case Err(e) => Parsed(x, Some(DecodeFailed(e)))
          case Ok(d) =>
            var loaded := x.(tags := c.loadTags(x.tags, d, fm.canon));
            var sub := LoadSubDir(loaded, view, CanonCameraSettings, fm.nikon3Preview, c);
            Parsed(sub.exif, None)
  }

  /** Canon never reports a sub-directory failure: once the note itself
      decodes, the parser succeeds, and a failed sub-directory adds nothing. */
  lemma CanonSwallowsSubDirErrors(x: Exif, c: Collaborators, fm: FieldMaps)
    requires CanonApplies(x)
    requires c.decodeDir(CanonView(x.tags[MakerNote]), x.tags[MakerNote].valOffset, x.order).Ok?
    ensures CanonParse(x, c, fm).err == None
    ensures var m := x.tags[MakerNote];
      var d := c.decodeDir(CanonView(m), m.valOffset, x.order).value;
      var loaded := x.(tags := c.loadTags(x.tags, d, fm.canon));
      LoadSubDir(loaded, CanonView(m), CanonCameraSettings, fm.nikon3Preview, c).err.Some? ==>
        CanonParse(x, c, fm).exif == loaded
  {
  }

  /** An offset stored in a Canon note addresses the container: position p
      of the view at or after the note's offset is byte p - valOffset of
      the payload. */
  lemma CanonViewRebases(m: TiffTag, p: nat)
    requires m.valOffset <= p < m.valOffset + |m.val|
    ensures CanonView(m)[p] == m.val[p - m.valOffset]
  {
    var i := p - m.valOffset;
    assert CanonView(m)[m.valOffset + i] == m.val[i];
  }

  // ---------------------------------------------------------------------
  // Nikon type 3

  /** Nikon applies when the maker note's payload starts with the signature. */
  predicate NikonApplies(x: Exif) {
    && MakerNote in x.tags
    && |x.tags[MakerNote].val| >= |NikonSignature|
    && x.tags[MakerNote].val[..|NikonSignature|] == NikonSignature
  }

  /** The amount the preview offset is shifted by: the note's container
      offset plus the header, a uint32 sum in the source. */
  function NikonBase(m: TiffTag): (b: uint32)
    ensures m.valOffset + NikonHeaderLength < TwoTo32 ==> b == m.valOffset + NikonHeaderLength
    ensures m.valOffset + NikonHeaderLength >= TwoTo32 ==> b == m.valOffset + NikonHeaderLength - TwoTo32
  {
    WrapUint32(m.valOffset + NikonHeaderLength)
  }

  /** Adds `base` to the first integer of the preview-start tag, an int64
      sum in the source; a tag whose integer cannot be read counts as 0.
      Without the tag nothing changes. */
  function RebasePreview(x: Exif, base: uint32): (r: Exif)
    ensures r.order == x.order
    ensures NikonPreviewImageStart !in x.tags ==> r == x
    ensures r.tags.Keys == x.tags.Keys
    ensures forall k :: k in x.tags && k != NikonPreviewImageStart ==> r.tags[k] == x.tags[k]
    ensures NikonPreviewImageStart in x.tags ==>
      var t := x.tags[NikonPreviewImageStart];
      var old0 := if Int64(t, 0).Ok? then Int64(t, 0).value else 0;
      var u := r.tags[NikonPreviewImageStart];
      && u.id == t.id && u.val == t.val && u.valOffset == t.valOffset
      && (Int64(t, 0).Ok? ==> Int64(u, 0) == Ok(WrapInt64(old0 + base)))
      && (Int64(t, 0).Err? ==> u == t)
      && forall j :: j != 0 ==> Int64(r.tags[NikonPreviewImageStart], j) == Int64(t, j)
  {
    match Get(x, NikonPreviewImageStart)
    case None => x
    case Some(t) =>
      var old0 := match Int64(t, 0) case Ok(v) => v case Err(_) => 0;
      Update(x, NikonPreviewImageStart, SetInt(t, 0, WrapInt64(old0 + base)))
  }

  /** The shared tail of both Nikon variants: decode the IFD chain after the
      10-byte header as a self-contained TIFF stream, load its first
      directory and rebase the preview offset. */
  function NikonDecode(x: Exif, m: TiffTag, c: Collaborators, fm: FieldMaps): (p: Parsed)
    requires |m.val| >= NikonHeaderLength
    ensures p.exif.order == x.order
    ensures p.err.Some? ==> p.exif == x
    ensures match c.decode(m.val[NikonHeaderLength..])
      case Err(e) => p.err == Some(DecodeFailed(e))
      case Ok(dirs) =>
        if |dirs| == 0 then p.err == Some(IndexPanic)
        else p == Parsed(RebasePreview(x.(tags := c.loadTags(x.tags, dirs[0], fm.nikon3)), NikonBase(m)), None)
  {
    match c.decode(m.val[NikonHeaderLength..])
    case Err(e) => Parsed(x, Some(DecodeFailed(e)))
    case Ok(dirs) =>
      if |dirs| == 0 then Parsed(x, Some(IndexPanic))
      else
        var loaded := x.(tags := c.loadTags(x.tags, dirs[0], fm.nikon3));
        Parsed(RebasePreview(loaded, NikonBase(m)), None)
  }

  /** The Nikon parser as written: a signed payload of 6 to 9 bytes reaches
      `m.Val[10:]` and panics. */
  function NikonParse(x: Exif, c: Collaborators, fm: FieldMaps): (p: Parsed)
    ensures p.exif.order == x.order
    ensures p.err.Some? ==> p.exif == x
    ensures !NikonApplies(x) ==> p == Parsed(x, None)
    ensures NikonApplies(x) && |x.tags[MakerNote].val| < NikonHeaderLength ==>
              p == Parsed(x, Some(SliceBoundsPanic))
    ensures NikonApplies(x) && |x.tags[MakerNote].val| >= NikonHeaderLength ==>
              p == NikonDecode(x, x.tags[MakerNote], c, fm)
  {
    match Get(x, MakerNote)
    case None => Parsed(x, None)
    case Some(m) =>
      if |m.val| < 6 then Parsed(x, None)
      else if m.val[..6] != NikonSignature then Parsed(x, None)
      else if |m.val| < NikonHeaderLength then Parsed(x, Some(SliceBoundsPanic))
      else NikonDecode(x, m, c, fm)
  }

  /** The Nikon parser with the header length checked: a signed payload too
      short for its header is reported as an error instead of a panic. */
  function NikonParseChecked(x: Exif, c: Collaborators, fm: FieldMaps): (p: Parsed)
    ensures p.exif.order == x.order
    ensures p.err.Some? ==> p.exif == x
    ensures p.err != Some(SliceBoundsPanic)
    ensures !NikonApplies(x) ==> p == Parsed(x, None)
    ensures NikonApplies(x) && |x.tags[MakerNote].val| < NikonHeaderLength ==>
              p == Parsed(x, Some(TruncatedMakerNote))
    ensures NikonApplies(x) && |x.tags[MakerNote].val| >= NikonHeaderLength ==>
              p == NikonDecode(x, x.tags[MakerNote], c, fm)
  {
    match Get(x, MakerNote)
    case None => Parsed(x, None)
    case Some(m) =>
      if |m.val| < 6 then Parsed(x, None)
      else if m.val[..6] != NikonSignature then Parsed(x, None)
      else if |m.val| < NikonHeaderLength then Parsed(x, Some(TruncatedMakerNote))
      else NikonDecode(x, m, c, fm)
  }

  /** The input that shows the panic: a maker note that is just the signature. */
  lemma NikonSignatureOnlyPanics(c: Collaborators, fm: FieldMaps)
    ensures var m := TiffTag(0x927C, NikonSignature, 1000, OtherVals);
      var x := Exif(map[MakerNote := m], BigEndian);
      NikonParse(x, c, fm) == Parsed(x, Some(SliceBoundsPanic))
  {
    var m := TiffTag(0x927C, NikonSignature, 1000, OtherVals);
    var x := Exif(map[MakerNote := m], BigEndian);
    assert NikonApplies(x);
  }

  /** The checked parser differs from the source only on signed payloads of
      6 to 9 bytes. */
  lemma NikonCheckedAgreesElsewhere(x: Exif, c: Collaborators, fm: FieldMaps)
    requires !NikonApplies(x) || |x.tags[MakerNote].val| >= NikonHeaderLength
    ensures NikonParseChecked(x, c, fm) == NikonParse(x, c, fm)
  {
  }

  /** An example: a preview start of 200 inside a note at container
      offset 1000 is exposed as 1210. */
  lemma NikonRebaseExample(x: Exif, m: TiffTag)
    requires m.valOffset == 1000
    requires Get(x, NikonPreviewImageStart).Some?
    requires Int64(x.tags[NikonPreviewImageStart], 0) == Ok(200)
    ensures Int64(RebasePreview(x, NikonBase(m)).tags[NikonPreviewImageStart], 0) == Ok(1210)
  {
  }
}
