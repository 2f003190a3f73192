/** Register-map entries: data types, their declared ranges, and the addresses an entry occupies. */
module RegisterMap {
  import opened Bytes

  datatype DataType =
    | Byte | UShort | UInt | Short | Int | UInt64 | Flags16 | Flags8 | Flags32
    | Float32 | Float64 | Acc32 | Int64 | Ascii | Hex | String16 | String32 | String
    | Bits(n: nat)     // unsigned bit field
    | SBits(n: nat)    // two's-complement bit field
    | SmBits(n: nat)   // sign-and-magnitude bit field

  ghost predicate ValidType(t: DataType) {
    && (t.Bits? ==> 1 <= t.n <= 16)
    && (t.SBits? || t.SmBits? ==> 2 <= t.n <= 16)
  }

  /** The part of an entry that says where its words are and how to decode them. */
  datatype Field = Field(register: int, registerBit: int, registerByte: int, registerList: seq<int>,
                         dataType: DataType, dataTypeSize: int,
                         concatenate: bool, concatenateRegisters: seq<int>)

  /** An explicit address list starts with the entry's own register. */
  ghost predicate ValidField(f: Field) {
    && ValidType(f.dataType)
    && (f.registerList != [] ==> f.register == f.registerList[0])
  }

  /** The default raw value range of a type, least and greatest. */
  function DefaultRange(t: DataType): (int, int)
    requires ValidType(t) && !t.Float32? && !t.Float64?
  {
    match t
    case Byte => (0, 0xFF)
    case UShort => (0, 0xFFFF)
    case Short => (-0x8000, 0x7FFF)
    case UInt => (0, 0xFFFF_FFFF)
    case Acc32 => (0, 0xFFFF_FFFF)
    case Int => (-0x8000_0000, 0x7FFF_FFFF)
    case UInt64 => (0, 0xFFFF_FFFF_FFFF_FFFF)
    case Int64 => (-0x8000_0000_0000_0000, 0x7FFF_FFFF_FFFF_FFFF)
    case Bits(n) => (0, Pow2(n) - 1)
    case SBits(n) => (0 - Pow2(n - 1) as int, Pow2(n - 1) - 1)
    case SmBits(n) => (1 - Pow2(n - 1) as int, Pow2(n - 1) - 1)
    case _ => (0, 0xFFFF)
  }

  /** The number of 16-bit registers an entry occupies. */
  function EntryWordCount(f: Field): (n: nat)
    ensures n >= 1
  {
    if f.registerList != [] then |f.registerList|
    else if f.concatenate && f.concatenateRegisters != [] then |f.concatenateRegisters|
    else if (f.dataType.String? || f.dataType.Ascii?) && f.dataTypeSize > 0 then (f.dataTypeSize + 1) / 2
    else match f.dataType
      case UInt => 2
      case Int => 2
      case Float32 => 2
      case Acc32 => 2
      case Flags32 => 2
      case UInt64 => 4
      case Int64 => 4
      case Float64 => 4
      case String16 => 8
      case String32 => 16
      case _ => 1
  }

  /** The number of words the integer decoder assembles for an entry; 1 where it reads the
      entry's own register and nothing else. */
  function DecoderWords(f: Field): (n: nat)
    ensures n >= 1
  {
    match f.dataType
    case UInt => 2
    case Int => 2
    case Acc32 => 2
    case Float32 => 2
    case Flags32 => 2
    case UInt64 => 4
    case Int64 => 4
    case Float64 => 4
    case Ascii => if f.concatenate || f.dataTypeSize <= 0 then 1 else EntryWordCount(f)
    case String16 => EntryWordCount(f)
    case String32 => EntryWordCount(f)
    case String => EntryWordCount(f)
    case _ => 1
  }

  /** The address of the `i`-th word: from the explicit list while it lasts, else consecutive. */
  function AddressAt(f: Field, i: nat): int {
    if i < |f.registerList| then f.registerList[i] else f.register + i
  }
}
