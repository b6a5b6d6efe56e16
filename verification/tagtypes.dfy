/** The value-type registry: the TIFF 6.0 field types this reader decodes
    (section 2 of TIFF 6.0, "Image File Directory") and their per-unit sizes. */
module TagTypes {

  datatype TagType =
    | TypeUnset           // the zero value: a tag whose type was never set
    | TypeByte            // 8-bit unsigned integer
    | TypeASCII           // 7-bit ASCII, NUL-terminated
    | TypeASCIINoNul      // ASCII without the terminating NUL
    | TypeShort           // 16-bit unsigned integer
    | TypeLong            // 32-bit unsigned integer
    | TypeRational        // two LONGs: numerator, denominator
    | TypeSignedRational  // two SLONGs: numerator, denominator
  {
    /** Whether the type is a real one that can be decoded. */
    predicate IsValid() {
      !TypeUnset?
    }

    /** Bytes per unit of the type. */
    function Size(): (n: nat)
      requires IsValid()
      ensures n in {1, 2, 4, 8}
      ensures n == 1 <==> TypeByte? || TypeASCII? || TypeASCIINoNul?
      ensures n == 8 <==> TypeRational? || TypeSignedRational?
      ensures TypeShort? ==> n == 2
      ensures TypeLong? ==> n == 4
    {
      match this
      case TypeByte => 1
      case TypeASCII => 1
      case TypeASCIINoNul => 1
      case TypeShort => 2
      case TypeLong => 4
      case TypeRational => 8
      case TypeSignedRational => 8
    }
  }
}
