/** The typed accessors of an EXIF tag (exiftool/exif/tag.go): each checks the
    type, resolves the encoded bytes, checks their length and decodes them
    in the session's byte order. */
module Accessors {
  import opened Results
  import opened ByteOrders
  import opened TagTypes
  import opened Tags

  /** The random-access source of one decode session and its byte order. */
  datatype ExifReader = ExifReader(file: seq<byte>, order: ByteOrder)

  datatype Rational = Rational(numerator: uint32, denominator: uint32)

  /** The ASCII decoders of the parser package, which is not part of this
      model; `GetString` hands the resolved bytes and the unit count to them. */
  datatype AsciiParsers = AsciiParsers(
    parseASCII: (seq<byte>, uint32) -> Result<seq<byte>, TagError>,
    parseASCIINoNul: (seq<byte>, uint32) -> Result<seq<byte>, TagError>)

  // ---------------------------------------------------------------------
  // Trimming NUL padding (bytes.Trim with the cutset "\x00")

  predicate AllNul(s: seq<byte>) {
    forall k :: 0 <= k < |s| ==> s[k] == 0
  }

  /** `r` occurs in `s` at `i`, and everything around it is NUL. */
  predicate NulPaddedAt(s: seq<byte>, r: seq<byte>, i: int) {
    0 <= i && i + |r| <= |s| && s[i..i + |r|] == r && AllNul(s[..i]) && AllNul(s[i + |r|..])
  }

  function Nuls(n: nat): (z: seq<byte>)
    ensures |z| == n && AllNul(z)
  {
    seq(n, _ => 0)
  }

  /** The number of NUL bytes `s` starts with. */
  function LeadingNuls(s: seq<byte>): (k: nat)
    ensures k <= |s|
    ensures forall i :: 0 <= i < k ==> s[i] == 0
    ensures k < |s| ==> s[k] != 0
  {
    if |s| > 0 && s[0] == 0 then 1 + LeadingNuls(s[1..]) else 0
  }

  /** The number of NUL bytes `s` ends with. */
  function TrailingNuls(s: seq<byte>): (k: nat)
    ensures k <= |s|
    ensures forall i :: |s| - k <= i < |s| ==> s[i] == 0
    ensures k < |s| ==> s[|s| - 1 - k] != 0
  {
    if |s| > 0 && s[|s| - 1] == 0 then 1 + TrailingNuls(s[..|s| - 1]) else 0
  }

  /** `s` without its leading and trailing NUL bytes: a contiguous part of
      `s` that neither starts nor ends with NUL, with only NULs around it. */
  function TrimNul(s: seq<byte>): (r: seq<byte>)
    ensures |r| == 0 || (r[0] != 0 && r[|r| - 1] != 0)
    ensures exists i :: NulPaddedAt(s, r, i)
  {
    var lead := LeadingNuls(s);
    var t := s[lead..];
    var r := t[..|t| - TrailingNuls(t)];
    assert s[lead..lead + |r|] == r;
    assert NulPaddedAt(s, r, lead);
    r
  }

  /** Trimming undoes NUL padding: any text that neither starts nor ends
      with NUL comes back from any amount of padding on either side. */
  lemma {:induction false} TrimNulOfPadded(a: nat, t: seq<byte>, b: nat)
    requires |t| == 0 || (t[0] != 0 && t[|t| - 1] != 0)
    ensures TrimNul(Nuls(a) + t + Nuls(b)) == t
  {
    var s := Nuls(a) + t + Nuls(b);
    var lead := LeadingNuls(s);
    if |t| == 0 {
      assert AllNul(s);
      assert lead == |s|;
    } else {
      assert s[a] == t[0];
      assert lead == a;
      var u := s[lead..];
      assert u == t + Nuls(b);
      var trail := TrailingNuls(u);
      assert u[|t| - 1] == t[|t| - 1];
      assert trail == b;
      assert u[..|u| - trail] == t;
    }
  }

  /** Trimming twice trims no more than trimming once. */
  lemma TrimNulIdempotent(s: seq<byte>)
    ensures TrimNul(TrimNul(s)) == TrimNul(s)
  {
    var r := TrimNul(s);
    TrimNulOfPadded(0, r, 0);
    assert Nuls(0) + r + Nuls(0) == r;
  }

  // ---------------------------------------------------------------------
  // The checks shared by GetInt, GetRational, GetRationals and GetUint16

  /** The resolved bytes of a tag after the accessors' common checks:
      a valid type first, then resolution, then `len >= unitSize * unitCount`
      (computed without truncation). */
  function CheckedSpan(tag: Tag, file: seq<byte>): (r: Result<seq<byte>, TagError>)
    ensures !tag.tagType.IsValid() <==> r == Err(EmptyTag)
    ensures r.Ok? ==> tag.tagType.IsValid() && |r.value| == FullLength(tag) < TwoTo32
    ensures r.Ok? ==> r == ReadRawEncoded(tag, file)
    ensures tag.tagType.IsValid() && ReadRawEncoded(tag, file).Err? ==> r == ReadRawEncoded(tag, file)
    ensures tag.tagType.IsValid() && ReadRawEncoded(tag, file).Ok? ==>
              (r == Err(NotEnoughData) <==> FullLength(tag) >= TwoTo32)
    ensures tag.tagType.IsValid() && ReadRawEncoded(tag, file).Ok? && FullLength(tag) < TwoTo32 ==>
              r == ReadRawEncoded(tag, file)
  {
    if !tag.tagType.IsValid() then Err(EmptyTag)
    else
      var raw :- ReadRawEncoded(tag, file);
      ShortSpanIffWrapped(tag, file);
      if |raw| < FullLength(tag) then Err(NotEnoughData)
      else Ok(raw)
  }

  // ---------------------------------------------------------------------
  // GetString

  /** The text of a tag. The BYTE branch is modelled: the first `unitCount`
      bytes with NUL padding trimmed from both ends; ASCII types are handed
      to the parsers. */
  function GetString(tag: Tag, rd: ExifReader, parsers: AsciiParsers): (r: Result<seq<byte>, TagError>)
    ensures !tag.tagType.IsValid() ==> r == Err(EmptyTag)
    ensures r == Err(EmptyTag) ==> !tag.tagType.IsValid() || tag.tagType.TypeASCII? || tag.tagType.TypeASCIINoNul?
    ensures tag.tagType.IsValid() && ReadRawEncoded(tag, rd.file).Err? ==> r == ReadRawEncoded(tag, rd.file)
    ensures tag.tagType == TypeASCII && ReadRawEncoded(tag, rd.file).Ok? ==>
              r == parsers.parseASCII(ReadRawEncoded(tag, rd.file).value, tag.unitCount)
    ensures tag.tagType == TypeASCIINoNul && ReadRawEncoded(tag, rd.file).Ok? ==>
              r == parsers.parseASCIINoNul(ReadRawEncoded(tag, rd.file).value, tag.unitCount)
    ensures (tag.tagType.TypeShort? || tag.tagType.TypeLong? || tag.tagType.TypeRational?
             || tag.tagType.TypeSignedRational?) && ReadRawEncoded(tag, rd.file).Ok? ==>
              r == Err(UnparseableValue)
    ensures tag.tagType == TypeByte ==>
      (r.Ok? <==> if tag.unitCount <= 4 then tag.unitCount <= |tag.rawValueOffset|
                  else tag.valueOffset + tag.unitCount <= |rd.file|)
    ensures tag.tagType == TypeByte && r.Ok? ==>
      && |r.value| <= tag.unitCount
      && (|r.value| == 0 || (r.value[0] != 0 && r.value[|r.value| - 1] != 0))
      && exists i :: NulPaddedAt(ReadRawEncoded(tag, rd.file).value, r.value, i)
  {
    if !tag.tagType.IsValid() then Err(EmptyTag)
    else
      var raw :- ReadRawEncoded(tag, rd.file);
      match tag.tagType
      case TypeASCII => parsers.parseASCII(raw, tag.unitCount)
      case TypeASCIINoNul => parsers.parseASCIINoNul(raw, tag.unitCount)
      case TypeByte =>
        if |raw| < tag.unitCount then Err(NotEnoughData)
        else
          assert raw[..tag.unitCount] == raw;
          Ok(TrimNul(raw[..tag.unitCount]))
      case _ => Err(UnparseableValue)
  }

  // ---------------------------------------------------------------------
  // GetInt

  predicate IsIntType(t: TagType) {
    t.TypeShort? || t.TypeLong? || t.TypeByte?
  }

  /** One unsigned scalar from the first unit: SHORT decodes bytes [0,2),
      LONG bytes [0,4), BYTE is byte 0; other types are unparseable. */
  function GetInt(tag: Tag, rd: ExifReader): (r: Result<int, TagError>)
    requires tag.unitCount >= 1
    ensures CheckedSpan(tag, rd.file).Err? ==> r == Err(CheckedSpan(tag, rd.file).error)
    ensures !tag.tagType.IsValid() ==> r == Err(EmptyTag)
    ensures r.Ok? ==> 0 <= r.value < TwoTo32
    ensures r.Ok? <==> IsIntType(tag.tagType) && CheckedSpan(tag, rd.file).Ok?
    ensures tag.tagType.IsValid() && !IsIntType(tag.tagType) && CheckedSpan(tag, rd.file).Ok? ==>
              r == Err(UnparseableValue)
    ensures r.Ok? && tag.tagType == TypeShort ==> r.value == Uint16(rd.order, CheckedSpan(tag, rd.file).value[0..2])
    ensures r.Ok? && tag.tagType == TypeLong ==> r.value == Uint32(rd.order, CheckedSpan(tag, rd.file).value[0..4])
    ensures r.Ok? && tag.tagType == TypeByte ==> r.value == CheckedSpan(tag, rd.file).value[0]
  {
    var raw :- CheckedSpan(tag, rd.file);
    match tag.tagType
    case TypeShort => Ok(Uint16(rd.order, raw[..2]))
    case TypeLong => Ok(Uint32(rd.order, raw[..4]))
    case TypeByte => Ok(raw[..1][0])
    case _ => Err(UnparseableValue)
  }

  // ---------------------------------------------------------------------
  // GetRational

  predicate IsRationalType(t: TagType) {
    t.TypeRational? || t.TypeSignedRational?
  }

  /** One numerator/denominator pair from the first unit, both read as
      unsigned 32-bit values; RATIONAL and SRATIONAL decode alike. */
  function GetRational(tag: Tag, rd: ExifReader): (r: Result<Rational, TagError>)
    requires tag.unitCount >= 1
    ensures CheckedSpan(tag, rd.file).Err? ==> r == Err(CheckedSpan(tag, rd.file).error)
    ensures !tag.tagType.IsValid() ==> r == Err(EmptyTag)
    ensures r.Ok? <==> IsRationalType(tag.tagType) && CheckedSpan(tag, rd.file).Ok?
    ensures tag.tagType.IsValid() && !IsRationalType(tag.tagType) && CheckedSpan(tag, rd.file).Ok? ==>
              r == Err(UnparseableValue)
    ensures r.Ok? ==> var span := CheckedSpan(tag, rd.file).value;
      && r.value.numerator == Uint32(rd.order, span[0..4])
      && r.value.denominator == Uint32(rd.order, span[4..8])
  {
    var raw :- CheckedSpan(tag, rd.file);
    match tag.tagType
    case TypeRational => Ok(Rational(Uint32(rd.order, raw[0..4]), Uint32(rd.order, raw[4..8])))
    case TypeSignedRational => Ok(Rational(Uint32(rd.order, raw[0..4]), Uint32(rd.order, raw[4..8])))
    case _ => Err(UnparseableValue)
  }

  /** SRATIONAL tags decode to exactly the bits a RATIONAL tag would. */
  lemma SignedRationalDecodesAsRational(tag: Tag, rd: ExifReader)
    requires tag.unitCount >= 1 && tag.tagType == TypeSignedRational
    ensures GetRational(tag, rd) == GetRational(tag.(tagType := TypeRational), rd)
  {
  }

  // ---------------------------------------------------------------------
  // GetRationals

  /** The first `count` 8-byte pairs of `raw`. */
  function DecodeRationals(order: ByteOrder, raw: seq<byte>, count: nat): (r: seq<Rational>)
    requires 8 * count <= |raw|
    ensures |r| == count
    ensures forall i :: 0 <= i < count ==>
      r[i] == Rational(Uint32(order, raw[8 * i..8 * i + 4]), Uint32(order, raw[8 * i + 4..8 * i + 8]))
  {
    if count == 0 then []
    else
      var k := count - 1;
      DecodeRationals(order, raw, k) + [Rational(Uint32(order, raw[8 * k..8 * k + 4]), Uint32(order, raw[8 * k + 4..8 * k + 8]))]
  }

  /** All `unitCount` pairs of a RATIONAL tag, pair i from bytes [8i, 8i+8). */
  function GetRationals(tag: Tag, rd: ExifReader): (r: Result<seq<Rational>, TagError>)
    ensures CheckedSpan(tag, rd.file).Err? ==> r == Err(CheckedSpan(tag, rd.file).error)
    ensures !tag.tagType.IsValid() ==> r == Err(EmptyTag)
    ensures r.Ok? <==> tag.tagType == TypeRational && CheckedSpan(tag, rd.file).Ok?
    ensures tag.tagType.IsValid() && tag.tagType != TypeRational && CheckedSpan(tag, rd.file).Ok? ==>
              r == Err(UnparseableValue)
    ensures r.Ok? ==> var span := CheckedSpan(tag, rd.file).value;
      && |r.value| == tag.unitCount
      && forall i :: 0 <= i < |r.value| ==>
           && r.value[i].numerator == Uint32(rd.order, span[8 * i..8 * i + 4])
           && r.value[i].denominator == Uint32(rd.order, span[8 * i + 4..8 * i + 8])
  {
    var raw :- CheckedSpan(tag, rd.file);
    match tag.tagType
    case TypeRational => Ok(DecodeRationals(rd.order, raw, tag.unitCount))
    case _ => Err(UnparseableValue)
  }

  /** A slice of a slice is a slice of the original sequence. */
  lemma SubSlice(s: seq<byte>, off: nat, n: nat, j: nat, k: nat)
    requires off + n <= |s| && j + k <= n
    ensures s[off..off + n][j..j + k] == s[off + j..off + j + k]
  {
    var a := s[off..off + n][j..j + k];
    var b := s[off + j..off + j + k];
    assert forall t :: 0 <= t < k ==> a[t] == b[t];
  }

  /** Pair i decoded from a slice of the file is read at `off + 8i`. */
  lemma DecodeRationalsOfSlice(order: ByteOrder, file: seq<byte>, off: nat, count: nat, slice: seq<byte>, i: nat)
    requires off + 8 * count <= |file| && slice == file[off..off + 8 * count] && i < count
    ensures DecodeRationals(order, slice, count)[i] ==
      Rational(Uint32(order, file[off + 8 * i..off + 8 * i + 4]), Uint32(order, file[off + 8 * i + 4..off + 8 * i + 8]))
  {
    var d := DecodeRationals(order, slice, count);
    var num, den := slice[8 * i..8 * i + 4], slice[8 * i + 4..8 * i + 8];
    assert d[i] == Rational(Uint32(order, num), Uint32(order, den));
    SubSlice(file, off, 8 * count, 8 * i, 4);
    SubSlice(file, off, 8 * count, 8 * i + 4, 4);
    assert num == file[off + 8 * i..off + 8 * i + 4];
    assert den == file[off + 8 * i + 4..off + 8 * i + 8];
  }

  /** Every pair decoded from a slice of the file is read at `off + 8i`. */
  lemma DecodeRationalsOfFile(order: ByteOrder, file: seq<byte>, off: nat, count: nat)
    requires off + 8 * count <= |file|
    ensures forall i :: 0 <= i < count ==>
      DecodeRationals(order, file[off..off + 8 * count], count)[i] ==
        Rational(Uint32(order, file[off + 8 * i..off + 8 * i + 4]), Uint32(order, file[off + 8 * i + 4..off + 8 * i + 8]))
  {
    var slice := file[off..off + 8 * count];
    forall i | 0 <= i < count
      ensures DecodeRationals(order, slice, count)[i] ==
        Rational(Uint32(order, file[off + 8 * i..off + 8 * i + 4]), Uint32(order, file[off + 8 * i + 4..off + 8 * i + 8]))
    {
      DecodeRationalsOfSlice(order, file, off, count, slice, i);
    }
  }

  /** On the offset path the resolved bytes are the file slice itself. */
  lemma SpanIsFileSlice(tag: Tag, file: seq<byte>)
    requires tag.tagType.IsValid() && ByteLength(tag) > 4
    requires tag.valueOffset + ByteLength(tag) <= |file|
    ensures ReadRawEncoded(tag, file) == Ok(file[tag.valueOffset..tag.valueOffset + ByteLength(tag)])
  {
  }

  /** A non-empty RATIONAL array decodes the file bytes it spans. */
  lemma GetRationalsOfFileSlice(tag: Tag, rd: ExifReader)
    requires tag.tagType == TypeRational && tag.unitCount >= 1
    requires 8 * tag.unitCount < TwoTo32
    requires tag.valueOffset + 8 * tag.unitCount <= |rd.file|
    ensures GetRationals(tag, rd) ==
      Ok(DecodeRationals(rd.order, rd.file[tag.valueOffset..tag.valueOffset + 8 * tag.unitCount], tag.unitCount))
  {
    assert ByteLength(tag) == 8 * tag.unitCount;
    SpanIsFileSlice(tag, rd.file);
  }

  /** An example: sixteen big-endian bytes are the rationals 2/3
      and 10/1. */
  lemma DecodeRationalsExample(f: seq<byte>)
    requires f == [0, 0, 0, 2, 0, 0, 0, 3, 0, 0, 0, 10, 0, 0, 0, 1]
    ensures DecodeRationals(BigEndian, f, 2) == [Rational(2, 3), Rational(10, 1)]
  {
    var r := DecodeRationals(BigEndian, f, 2);
    var a, b, c, d := f[0..4], f[4..8], f[8..12], f[12..16];
    assert a == [0, 0, 0, 2] && Uint32(BigEndian, a) == 2;
    assert b == [0, 0, 0, 3] && Uint32(BigEndian, b) == 3;
    assert c == [0, 0, 0, 10] && Uint32(BigEndian, c) == 10;
    assert d == [0, 0, 0, 1] && Uint32(BigEndian, d) == 1;
    assert r[0] == Rational(Uint32(BigEndian, a), Uint32(BigEndian, b));
    assert r[1] == Rational(Uint32(BigEndian, c), Uint32(BigEndian, d));
  }

  /** The same example through a RATIONAL tag of count 2 at offset 0. */
  lemma GetRationalsExample(tag: Tag, rd: ExifReader)
    requires tag.tagType == TypeRational && tag.unitCount == 2 && tag.valueOffset == 0
    requires rd == ExifReader([0, 0, 0, 2, 0, 0, 0, 3, 0, 0, 0, 10, 0, 0, 0, 1], BigEndian)
    ensures GetRationals(tag, rd) == Ok([Rational(2, 3), Rational(10, 1)])
  {
    assert FullLength(tag) == 16 && ByteLength(tag) == 16;
    SpanIsFileSlice(tag, rd.file);
    assert rd.file[0..16] == rd.file;
    assert GetRationals(tag, rd) == Ok(DecodeRationals(BigEndian, rd.file, 2));
    DecodeRationalsExample(rd.file);
  }

  // ---------------------------------------------------------------------
  // GetUint16

  /** The first `count` 2-byte values of `raw`. */
  function DecodeShorts(order: ByteOrder, raw: seq<byte>, count: nat): (r: seq<uint16>)
    requires 2 * count <= |raw|
    ensures |r| == count
    ensures forall i :: 0 <= i < count ==> r[i] == Uint16(order, raw[2 * i..2 * i + 2])
  {
    if count == 0 then []
    else
      var k := count - 1;
      DecodeShorts(order, raw, k) + [Uint16(order, raw[2 * k..2 * k + 2])]
  }

  /** All `unitCount` values of a SHORT tag, value i from bytes [2i, 2i+2). */
  function GetUint16(tag: Tag, rd: ExifReader): (r: Result<seq<uint16>, TagError>)
    ensures CheckedSpan(tag, rd.file).Err? ==> r == Err(CheckedSpan(tag, rd.file).error)
    ensures !tag.tagType.IsValid() ==> r == Err(EmptyTag)
    ensures r.Ok? <==> tag.tagType == TypeShort && CheckedSpan(tag, rd.file).Ok?
    ensures tag.tagType.IsValid() && tag.tagType != TypeShort && CheckedSpan(tag, rd.file).Ok? ==>
              r == Err(UnparseableValue)
    ensures r.Ok? ==> var span := CheckedSpan(tag, rd.file).value;
      && |r.value| == tag.unitCount
      && forall i :: 0 <= i < |r.value| ==> r.value[i] == Uint16(rd.order, span[2 * i..2 * i + 2])
  {
    var raw :- CheckedSpan(tag, rd.file);
    match tag.tagType
    case TypeShort => Ok(DecodeShorts(rd.order, raw, tag.unitCount))
    case _ => Err(UnparseableValue)
  }

  // ---------------------------------------------------------------------
  // Encode-then-decode through a tag

  /** A SHORT stored inline with the session byte order reads back as itself. */
  lemma GetIntShortInlineRoundTrip(tag: Tag, rd: ExifReader, v: uint16, rest: seq<byte>)
    requires tag.tagType == TypeShort && tag.unitCount == 1
    requires tag.rawValueOffset == PutUint16(rd.order, v) + rest
    ensures GetInt(tag, rd) == Ok(v)
  {
    Uint16RoundTrip(rd.order, v);
    assert ReadRawEncoded(tag, rd.file).value == PutUint16(rd.order, v);
  }

  /** The encoder partner of `DecodeShorts`: the values' two-byte encodings
      one after another. */
  function EncodeShorts(order: ByteOrder, vs: seq<uint16>): (r: seq<byte>)
    ensures |r| == 2 * |vs|
  {
    if |vs| == 0 then [] else EncodeShorts(order, vs[..|vs| - 1]) + PutUint16(order, vs[|vs| - 1])
  }

  /** Value i sits at bytes [2i, 2i+2) of the encoding, whatever follows. */
  lemma {:induction false} EncodeShortsAt(order: ByteOrder, vs: seq<uint16>, rest: seq<byte>, i: nat)
    requires i < |vs|
    ensures (EncodeShorts(order, vs) + rest)[2 * i..2 * i + 2] == PutUint16(order, vs[i])
  {
    var k := |vs| - 1;
    var front := EncodeShorts(order, vs[..k]);
    var last := PutUint16(order, vs[k]);
    assert EncodeShorts(order, vs) + rest == front + (last + rest);
    if i < k {
      EncodeShortsAt(order, vs[..k], last + rest, i);
    }
  }

  /** Decoding the encodings of any number of values gives them back, in
      order, whatever bytes follow. */
  lemma DecodeShortsOfEncoded(order: ByteOrder, vs: seq<uint16>, rest: seq<byte>)
    ensures DecodeShorts(order, EncodeShorts(order, vs) + rest, |vs|) == vs
  {
    var d := DecodeShorts(order, EncodeShorts(order, vs) + rest, |vs|);
    forall i | 0 <= i < |vs|
      ensures d[i] == vs[i]
    {
      EncodeShortsAt(order, vs, rest, i);
      Uint16RoundTrip(order, vs[i]);
    }
  }

  /** Inline bytes whose length is the tag's encoded length are its
      checked span. */
  lemma InlineSpanIsChecked(tag: Tag, file: seq<byte>, raw: seq<byte>, rest: seq<byte>)
    requires tag.tagType.IsValid() && FullLength(tag) == |raw| <= 4
    requires tag.rawValueOffset == raw + rest
    ensures CheckedSpan(tag, file) == Ok(raw)
  {
    assert tag.rawValueOffset[..|raw|] == raw;
  }

  /** Up to two SHORTs stored inline with the session byte order read back
      as themselves, in order. */
  lemma GetUint16InlineRoundTrip(tag: Tag, rd: ExifReader, vs: seq<uint16>, rest: seq<byte>)
    requires tag.tagType == TypeShort && tag.unitCount == |vs| <= 2
    requires tag.rawValueOffset == EncodeShorts(rd.order, vs) + rest
    ensures GetUint16(tag, rd) == Ok(vs)
  {
    var raw := EncodeShorts(rd.order, vs);
    InlineSpanIsChecked(tag, rd.file, raw, rest);
    DecodeShortsOfEncoded(rd.order, vs, []);
    assert raw + [] == raw;
  }

  /** Bytes written at the tag's offset are the checked span of a tag
      whose encoded length is theirs. */
  lemma WrittenSpanIsChecked(tag: Tag, file: seq<byte>, before: seq<byte>, raw: seq<byte>, after: seq<byte>)
    requires tag.tagType.IsValid() && FullLength(tag) == |raw| && 4 < |raw| < TwoTo32
    requires tag.valueOffset == |before| && file == before + raw + after
    ensures CheckedSpan(tag, file) == Ok(raw)
  {
    SpanIsFileSlice(tag, file);
    assert file[|before|..|before| + |raw|] == raw;
  }

  /** Three or more SHORTs written to the file at the tag's offset with the
      session byte order read back as themselves, in order. */
  lemma GetUint16FileRoundTrip(tag: Tag, rd: ExifReader, vs: seq<uint16>, before: seq<byte>, after: seq<byte>)
    requires tag.tagType == TypeShort && tag.unitCount == |vs| > 2 && 2 * |vs| < TwoTo32
    requires tag.valueOffset == |before|
    requires rd.file == before + EncodeShorts(rd.order, vs) + after
    ensures GetUint16(tag, rd) == Ok(vs)
  {
    var raw := EncodeShorts(rd.order, vs);
    WrittenSpanIsChecked(tag, rd.file, before, raw, after);
    DecodeShortsOfEncoded(rd.order, vs, []);
    assert raw + [] == raw;
  }

  /** A LONG stored inline with the session byte order reads back as itself. */
  lemma GetIntLongInlineRoundTrip(tag: Tag, rd: ExifReader, v: uint32)
    requires tag.tagType == TypeLong && tag.unitCount == 1
    requires tag.rawValueOffset == PutUint32(rd.order, v)
    ensures GetInt(tag, rd) == Ok(v)
  {
    Uint32RoundTrip(rd.order, v);
    assert ReadRawEncoded(tag, rd.file).value == PutUint32(rd.order, v);
  }

  /** A rational written to the file at the tag's offset with the session
      byte order reads back as the same pair. */
  lemma GetRationalRoundTrip(tag: Tag, rd: ExifReader, q: Rational, before: seq<byte>, after: seq<byte>)
    requires IsRationalType(tag.tagType) && tag.unitCount == 1
    requires tag.valueOffset == |before|
    requires rd.file == before + PutUint32(rd.order, q.numerator) + PutUint32(rd.order, q.denominator) + after
    ensures GetRational(tag, rd) == Ok(q)
  {
    var span := PutUint32(rd.order, q.numerator) + PutUint32(rd.order, q.denominator);
    assert rd.file == before + span + after;
    WrittenSpanIsChecked(tag, rd.file, before, span, after);
    PairRoundTrip(rd.order, q, span);
  }

  /** The eight bytes of an encoded pair decode to the pair. */
  lemma PairRoundTrip(order: ByteOrder, q: Rational, span: seq<byte>)
    requires span == PutUint32(order, q.numerator) + PutUint32(order, q.denominator)
    ensures Rational(Uint32(order, span[0..4]), Uint32(order, span[4..8])) == q
  {
    Uint32RoundTrip(order, q.numerator);
    Uint32RoundTrip(order, q.denominator);
    assert span[0..4] == PutUint32(order, q.numerator);
    assert span[4..8] == PutUint32(order, q.denominator);
  }

  /** Whatever the bytes, an accessor on a tag of unset type reports
      `EmptyTag`, even where the data would be too short. */
  lemma EmptyTagComesFirst(tag: Tag, rd: ExifReader, parsers: AsciiParsers)
    requires tag.tagType == TypeUnset
    ensures GetString(tag, rd, parsers) == Err(EmptyTag)
    ensures tag.unitCount >= 1 ==> GetInt(tag, rd) == Err(EmptyTag) && GetRational(tag, rd) == Err(EmptyTag)
    ensures GetRationals(tag, rd) == Err(EmptyTag)
    ensures GetUint16(tag, rd) == Err(EmptyTag)
  {
  }
}
