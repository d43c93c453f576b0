/** The wire type table of the portable protocol: the type identifiers, the
    CLR types the client serialises, and the lookups between the two
    (GridClientPortableUilts.cs, the constants and PrimitiveTypeId,
    PrimitiveArrayTypeId and PrimitiveLength).

    A C# `int` is kept as its 32-bit two's-complement bit pattern (`bv32`),
    which is what the stream codecs see of it. */
module Wire {

  // Scalar type identifiers.
  const TypeBool: bv32 := 1
  const TypeByte: bv32 := 2
  const TypeShort: bv32 := 5
  const TypeInt: bv32 := 7
  const TypeLong: bv32 := 9
  const TypeChar: bv32 := 10
  const TypeFloat: bv32 := 11
  const TypeDouble: bv32 := 12
  const TypeString: bv32 := 13
  const TypeGuid: bv32 := 14

  // Array type identifiers.
  const TypeArrayBool: bv32 := 15
  const TypeArrayByte: bv32 := 16
  const TypeArrayShort: bv32 := 17
  const TypeArrayInt: bv32 := 18
  const TypeArrayLong: bv32 := 19
  const TypeArrayChar: bv32 := 20
  const TypeArrayFloat: bv32 := 21
  const TypeArrayDouble: bv32 := 22
  const TypeArrayString: bv32 := 23
  const TypeArrayGuid: bv32 := 24
  const TypeArray: bv32 := 25
  const TypeCollection: bv32 := 26
  const TypeMap: bv32 := 27

  // Message kinds owned by the layer above this codec.
  const TypeAuthReq: bv32 := 100
  const TypeTopReq: bv32 := 101
  const TypeTaskReq: bv32 := 102
  const TypeCacheReq: bv32 := 103
  const TypeLogReq: bv32 := 104
  const TypeResp: bv32 := 105
  const TypeNodeBean: bv32 := 106
  const TypeNodeMetricsBean: bv32 := 107
  const TypeTaskResBean: bv32 := 108

  // The null/present sentinel bytes.
  const ByteZero: bv8 := 0
  const ByteOne: bv8 := 1

  /** The identifiers PrimitiveLength accepts. */
  const ScalarIds: set<bv32> :=
    {TypeBool, TypeByte, TypeShort, TypeInt, TypeLong, TypeChar, TypeFloat, TypeDouble}

  /** The exceptions the codec raises, plus the errors of the corrected
      decoders: end of stream, a negative length, a sentinel other than 0 or 1. */
  datatype Error =
    | UnsupportedType(typeId: bv32)  // GridClientPortableException
    | InvalidCast                    // InvalidCastException from an unboxing or array cast
    | NullReference                  // NullReferenceException from unboxing or reading through null
    | Overflow                       // OverflowException from `new bool[negative]`
    | EndOfStream
    | MalformedLength
    | BadSentinel

  datatype Result<+T> = Ok(value: T) | Err(error: Error)

  /** The outcome of a writer that returns nothing but may throw. */
  datatype Outcome = Pass | Fail(error: Error)

  /** A reference that may be null. */
  datatype Option<+T> = None | Some(value: T)

  /** A `System.Guid`, as the 16 bytes `Guid.ToByteArray` returns. */
  type Guid = b: seq<bv8> | |b| == 16 witness [0, 0, 0, 0, 0, 0, 0, 0, 0, 0, 0, 0, 0, 0, 0, 0]

  /** A .NET array: its length is a non-negative `int`. */
  type CsArray<T> = s: seq<T> | |s| < 0x8000_0000

  /** The CLR scalar types the lookups distinguish. */
  datatype ScalarKind =
    | Boolean | SByte | Byte | Int16 | UInt16 | Int32 | UInt32 | Int64 | UInt64
    | Char | Single | Double

  /** A `System.Type`, reduced to what the lookups inspect: a scalar type, an
      array type with its element type, or anything else. */
  datatype ClrType = Scalar(kind: ScalarKind) | ArrayOf(elem: ClrType) | Other

  /** Every scalar kind is one of the twelve listed. */
  lemma KindCases(k: ScalarKind)
    ensures k in {Boolean, SByte, Byte, Int16, UInt16, Int32, UInt32, Int64, UInt64, Char, Single, Double}
  {
    match k
    case _ =>
  }

  /** The size in bytes of a value of each scalar kind. */
  function Width(k: ScalarKind): nat
  {
    match k
    case Boolean => 1
    case SByte => 1
    case Byte => 1
    case Int16 => 2
    case UInt16 => 2
    case Char => 2
    case Int32 => 4
    case UInt32 => 4
    case Single => 4
    case Int64 => 8
    case UInt64 => 8
    case Double => 8
  }

  /** The static SYSTEM_TYPES table: the identifier of every scalar type,
      each unsigned type sharing its signed twin's. */
  function SystemTypes(k: ScalarKind): bv32
  {
    match k
    case Boolean => TypeBool
    case SByte => TypeByte
    case Byte => TypeByte
    case Int16 => TypeShort
    case UInt16 => TypeShort
    case Int32 => TypeInt
    case UInt32 => TypeInt
    case Int64 => TypeLong
    case UInt64 => TypeLong
    case Char => TypeChar
    case Single => TypeFloat
    case Double => TypeDouble
  }

  /** The fixed payload length of a scalar identifier; any other identifier
      is refused. */
  function PrimitiveLength(typeId: bv32): (r: Result<nat>)
    ensures r.Ok? <==> typeId in ScalarIds
    ensures r.Err? ==> r.error == UnsupportedType(typeId)
    ensures r.Ok? ==> r.value in {1, 2, 4, 8}
  {
    if typeId == TypeBool || typeId == TypeByte then Ok(1)
    else if typeId == TypeShort || typeId == TypeChar then Ok(2)
    else if typeId == TypeInt || typeId == TypeFloat then Ok(4)
    else if typeId == TypeLong || typeId == TypeDouble then Ok(8)
    else Err(UnsupportedType(typeId))
  }

  /** The scalar identifier of a type, 0 when it is not a primitive. As
      written, the `Int32` and `Int64` tests are each made twice and `UInt32`
      and `UInt64` are never matched, so those two map to 0. */
  function PrimitiveTypeId(t: ClrType): (id: bv32)
    ensures id != 0 <==> t.Scalar? && t.kind != UInt32 && t.kind != UInt64
    ensures id != 0 ==> id in ScalarIds && PrimitiveLength(id) == Ok(Width(t.kind))
    ensures id != 0 ==> id == SystemTypes(t.kind)
  {
    if t == Scalar(Boolean) then TypeBool
    else if t == Scalar(Byte) || t == Scalar(SByte) then TypeByte
    else if t == Scalar(Int16) || t == Scalar(UInt16) then TypeShort
    else if t == Scalar(Int32) || t == Scalar(Int32) then TypeInt
    else if t == Scalar(Int64) || t == Scalar(Int64) then TypeLong
    else if t == Scalar(Char) then TypeChar
    else if t == Scalar(Single) then TypeFloat
    else if t == Scalar(Double) then TypeDouble
    else 0
  }

  /** PrimitiveTypeId with the unsigned 32- and 64-bit types sharing the
      identifier of their signed twins, as the static SYSTEM_TYPES table does. */
  function PrimitiveTypeIdFixed(t: ClrType): (id: bv32)
    ensures id != 0 <==> t.Scalar?
    ensures id != 0 ==> PrimitiveLength(id) == Ok(Width(t.kind))
    ensures t.Scalar? && PrimitiveTypeId(t) != 0 ==> id == PrimitiveTypeId(t)
    ensures t.Scalar? ==> id == SystemTypes(t.kind)
  {
    if t == Scalar(UInt32) then TypeInt
    else if t == Scalar(UInt64) then TypeLong
    else PrimitiveTypeId(t)
  }

  /** The element identifier belonging to an array identifier, 0 for
      identifiers that are not scalar arrays. */
  function ArrayElementTypeId(arrayId: bv32): bv32
  {
    if arrayId == TypeArrayBool then TypeBool
    else if arrayId == TypeArrayByte then TypeByte
    else if arrayId == TypeArrayShort then TypeShort
    else if arrayId == TypeArrayInt then TypeInt
    else if arrayId == TypeArrayLong then TypeLong
    else if arrayId == TypeArrayChar then TypeChar
    else if arrayId == TypeArrayFloat then TypeFloat
    else if arrayId == TypeArrayDouble then TypeDouble
    else 0
  }

  /** The array identifier of a type, 0 when it is not an array of
      primitives. As written, the second test of the byte, short, int and long
      branches compares the array type itself (never a scalar) instead of its
      element type, so arrays of SByte, UInt16, UInt32 and UInt64 map to 0. */
  function PrimitiveArrayTypeId(t: ClrType): (id: bv32)
    ensures id != 0 <==>
      t.ArrayOf? && t.elem.Scalar? &&
      t.elem.kind !in {SByte, UInt16, UInt32, UInt64}
    ensures id != 0 ==> ArrayElementTypeId(id) == PrimitiveTypeId(t.elem) != 0
  {
    if t.ArrayOf? then
      var elemType := t.elem;
      if elemType == Scalar(Boolean) then TypeArrayBool
      else if elemType == Scalar(Byte) || t == Scalar(SByte) then TypeArrayByte
      else if elemType == Scalar(Int16) || t == Scalar(UInt16) then TypeArrayShort
      else if elemType == Scalar(Int32) || t == Scalar(Int32) then TypeArrayInt
      else if elemType == Scalar(Int64) || t == Scalar(Int64) then TypeArrayLong
      else if elemType == Scalar(Char) then TypeArrayChar
      else if elemType == Scalar(Single) then TypeArrayFloat
      else if elemType == Scalar(Double) then TypeArrayDouble
      else
        if elemType.Scalar? then KindCases(elemType.kind); 0 else 0
    else 0
  }

  /** PrimitiveArrayTypeId with every test made on the element type. */
  function PrimitiveArrayTypeIdFixed(t: ClrType): (id: bv32)
    ensures id != 0 <==> t.ArrayOf? && t.elem.Scalar?
    ensures id != 0 ==> ArrayElementTypeId(id) == PrimitiveTypeIdFixed(t.elem)
  {
    if t.ArrayOf? then
      var elemType := t.elem;
      if elemType == Scalar(Boolean) then TypeArrayBool
      else if elemType == Scalar(Byte) || elemType == Scalar(SByte) then TypeArrayByte
      else if elemType == Scalar(Int16) || elemType == Scalar(UInt16) then TypeArrayShort
      else if elemType == Scalar(Int32) || elemType == Scalar(UInt32) then TypeArrayInt
      else if elemType == Scalar(Int64) || elemType == Scalar(UInt64) then TypeArrayLong
      else if elemType == Scalar(Char) then TypeArrayChar
      else if elemType == Scalar(Single) then TypeArrayFloat
      else if elemType == Scalar(Double) then TypeArrayDouble
      else
        if elemType.Scalar? then KindCases(elemType.kind); 0 else 0
    else 0
  }

  /** The unsigned-type lookups that fail as written and succeed once fixed. */
  lemma UnsignedTypeIdsMissed()
    ensures PrimitiveTypeId(Scalar(UInt32)) == 0 && PrimitiveTypeIdFixed(Scalar(UInt32)) == TypeInt
    ensures PrimitiveTypeId(Scalar(UInt64)) == 0 && PrimitiveTypeIdFixed(Scalar(UInt64)) == TypeLong
    ensures PrimitiveArrayTypeId(ArrayOf(Scalar(SByte))) == 0
    ensures PrimitiveArrayTypeIdFixed(ArrayOf(Scalar(SByte))) == TypeArrayByte
    ensures PrimitiveArrayTypeId(ArrayOf(Scalar(UInt16))) == 0
    ensures PrimitiveArrayTypeIdFixed(ArrayOf(Scalar(UInt16))) == TypeArrayShort
  {
  }
}
