/** The scalar types the conversion engine accepts and the host facts it
    depends on. A value is modelled by its object representation: the
    `sizeof(T)` bytes it occupies in memory, in the host's order. */
module Scalars {
  import opened Bytes

  /** Integer byte order of the host (`OSVR_IS_BIG_ENDIAN` /
      `OSVR_IS_LITTLE_ENDIAN`). */
  datatype ByteOrder = BigEndian | LittleEndian

  /** The fixed-width integer types `int8_t` ... `uint64_t`. */
  datatype IntKind = Int8 | UInt8 | Int16 | UInt16 | Int32 | UInt32 | Int64 | UInt64
  {
    /** `sizeof(T)` in bytes. */
    function Size(): nat
    {
      match this
      case Int8 | UInt8 => 1
      case Int16 | UInt16 => 2
      case Int32 | UInt32 => 4
      case Int64 | UInt64 => 8
    }

    /** `boost::is_signed<T>::value`. */
    predicate IsSigned()
    {
      Int8? || Int16? || Int32? || Int64?
    }

    /** The integer of the same width and the other signedness:
        `uint_t<sizeof(T) * 8>::exact` for a signed `T`,
        `int_t<sizeof(T) * 8>::exact` for an unsigned one. */
    function OppositeSign(): (o: IntKind)
      ensures o.Size() == Size() && o.IsSigned() != IsSigned()
    {
      match this
      case Int8 => UInt8
      case UInt8 => Int8
      case Int16 => UInt16
      case UInt16 => Int16
      case Int32 => UInt32
      case UInt32 => Int32
      case Int64 => UInt64
      case UInt64 => Int64
    }
  }

  /** The types that have a `NetworkByteOrderTraits` specialization:
      every fixed-width integer, and `double`. */
  datatype ScalarType = Integral(kind: IntKind) | Double
  {
    /** `sizeof(T)` in bytes; a `double` occupies 8. */
    function Size(): nat
    {
      match this
      case Integral(k) => k.Size()
      case Double => 8
    }
  }

  /** A value of type `ty`, given by its object representation. */
  datatype Scalar = Scalar(ty: ScalarType, image: seq<byte>)
  {
    /** The representation has exactly `sizeof(T)` bytes. */
    predicate Valid()
    {
      |image| == ty.Size()
    }
  }
}
