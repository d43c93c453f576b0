/** The stream codec of GridClientPortableUilts: the Write* methods append
    to an OutputStream, the Read* methods consume an InputStream. Each method
    is proved against a function that gives the bytes it appends (or the
    value and position it reads), and the properties of the protocol are
    lemmas about those functions.

    Every method takes the host's byte order as `littleEndianHost`, the value
    of `BitConverter.IsLittleEndian` the source consults. */
module PortableUtils {
  import opened Wire
  import opened ByteOrder
  import opened Streams

  /** A boxed scalar, tagged with its CLR type: `(T)obj` unboxes it only
      when T is exactly that type. */
  datatype Value =
    | BoolValue(boolVal: bool)
    | SByteValue(sbyteVal: bv8)
    | ByteValue(byteVal: bv8)
    | Int16Value(int16Val: bv16)
    | UInt16Value(uint16Val: bv16)
    | Int32Value(int32Val: bv32)
    | UInt32Value(uint32Val: bv32)
    | Int64Value(int64Val: bv64)
    | UInt64Value(uint64Val: bv64)
    | CharValue(charVal: bv16)
    | SingleValue(singleBits: bv32)  // the IEEE 754 bit pattern
    | DoubleValue(doubleBits: bv64)  // the IEEE 754 bit pattern

  /** An `object` handed to WritePrimitiveArray: null, one of the arrays its
      casts accept, or anything else. The CLR's array cast lets an integer
      array pass as the array of the same-width integer of the other
      signedness, so `(byte[])obj` also accepts an sbyte[], `(short[])obj` a
      ushort[], `(int[])obj` a uint[] and `(long[])obj` a ulong[]. Floats and
      doubles are kept as their bit patterns. */
  datatype ArrayObj =
    | NullRef
    | BoolArray(bools: CsArray<bool>)
    | ByteArray(octets: CsArray<bv8>)
    | SByteArray(sbytes: CsArray<bv8>)
    | ShortArray(shorts: CsArray<bv16>)
    | UShortArray(ushorts: CsArray<bv16>)
    | IntArray(ints: CsArray<bv32>)
    | UIntArray(uints: CsArray<bv32>)
    | LongArray(longs: CsArray<bv64>)
    | ULongArray(ulongs: CsArray<bv64>)
    | CharArray(chars: CsArray<bv16>)
    | FloatArray(floats: CsArray<bv32>)
    | DoubleArray(doubles: CsArray<bv64>)
    | OtherObject

  function KindOf(v: Value): ScalarKind
  {
    match v
    case BoolValue(_) => Boolean
    case SByteValue(_) => SByte
    case ByteValue(_) => Byte
    case Int16Value(_) => Int16
    case UInt16Value(_) => UInt16
    case Int32Value(_) => Int32
    case UInt32Value(_) => UInt32
    case Int64Value(_) => Int64
    case UInt64Value(_) => UInt64
    case CharValue(_) => Char
    case SingleValue(_) => Single
    case DoubleValue(_) => Double
  }

  // ----- Byte layouts -----

  /** The byte WriteBoolean writes. */
  function BoolByte(b: bool): (r: bv8)
    ensures r == ByteOne <==> b
    ensures r == ByteZero <==> !b
  {
    if b then ByteOne else ByteZero
  }

  /** One 0/1 byte per boolean. */
  function BoolBytes(vs: seq<bool>): (r: seq<bv8>)
    ensures |r| == |vs|
  {
    seq(|vs|, i requires 0 <= i < |vs| => BoolByte(vs[i]))
  }

  /** The exception an unboxing `(T)obj` throws when `obj` is not a boxed T:
      a NullReferenceException for null, an InvalidCastException otherwise. */
  function UnboxError(obj: Option<Value>): (e: Error)
    ensures e == NullReference <==> obj.None?
    ensures e == InvalidCast <==> obj.Some?
  {
    if obj.None? then NullReference else InvalidCast
  }

  /** The type each branch of WritePrimitive's switch unboxes to, None for an
      identifier the switch does not list. TYPE_CHAR's branch unboxes a
      short, like TYPE_SHORT's. */
  function UnboxKind(typeId: bv32): (k: Option<ScalarKind>)
    ensures k.Some? <==> PrimitiveLength(typeId).Ok?
    ensures k.Some? ==> PrimitiveLength(typeId) == Ok(Width(k.value))
    ensures k.Some? ==> k.value !in {SByte, UInt16, UInt32, UInt64, Char}
  {
    if typeId == TypeBool then Some(Boolean)
    else if typeId == TypeByte then Some(Byte)
    else if typeId == TypeShort || typeId == TypeChar then Some(Int16)
    else if typeId == TypeInt then Some(Int32)
    else if typeId == TypeLong then Some(Int64)
    else if typeId == TypeFloat then Some(Single)
    else if typeId == TypeDouble then Some(Double)
    else None
  }

  /** The payload WritePrimitive writes after its header, or the exception
      its switch throws: UnsupportedType for an identifier outside the scalar
      set; inside it, NullReference for a null `obj` and InvalidCast when
      `obj` does not unbox to the type the branch names. The TYPE_CHAR branch
      unboxes `(short)obj`, so a boxed char is refused; TYPE_BYTE and
      TYPE_SHORT refuse SByte and UInt16 the same way. */
  function PrimitivePayload(typeId: bv32, obj: Option<Value>, littleEndianHost: bool): (r: Result<seq<bv8>>)
    ensures r == Err(UnsupportedType(typeId)) <==> PrimitiveLength(typeId).Err?
    ensures r == Err(NullReference) <==> PrimitiveLength(typeId).Ok? && obj.None?
    ensures r.Ok? ==>
      obj.Some? && PrimitiveLength(typeId) == Ok(|r.value|) && |r.value| == Width(KindOf(obj.value))
    ensures r.Err? ==> r.error in {UnsupportedType(typeId), InvalidCast, NullReference}
    ensures r.Ok? <==> obj.Some? && UnboxKind(typeId) == Some(KindOf(obj.value))
  {
    if typeId == TypeBool then
      if obj.Some? && obj.value.BoolValue? then Ok([BoolByte(obj.value.boolVal)]) else Err(UnboxError(obj))
    else if typeId == TypeByte then
      if obj.Some? && obj.value.ByteValue? then Ok([obj.value.byteVal]) else Err(UnboxError(obj))
    else if typeId == TypeShort || typeId == TypeChar then
      if obj.Some? && obj.value.Int16Value? then Ok(ShortBytes(obj.value.int16Val, littleEndianHost))
      else Err(UnboxError(obj))
    else if typeId == TypeInt then
      if obj.Some? && obj.value.Int32Value? then Ok(IntBytes(obj.value.int32Val, littleEndianHost))
      else Err(UnboxError(obj))
    else if typeId == TypeLong then
      if obj.Some? && obj.value.Int64Value? then Ok(LongBytes(obj.value.int64Val, littleEndianHost))
      else Err(UnboxError(obj))
    else if typeId == TypeFloat then
      if obj.Some? && obj.value.SingleValue? then Ok(IntBytes(obj.value.singleBits, littleEndianHost))
      else Err(UnboxError(obj))
    else if typeId == TypeDouble then
      if obj.Some? && obj.value.DoubleValue? then Ok(LongBytes(obj.value.doubleBits, littleEndianHost))
      else Err(UnboxError(obj))
    else Err(UnsupportedType(typeId))
  }

  /** A char cannot be written through its own type identifier: the lookup
      gives TYPE_CHAR and the TYPE_CHAR branch unboxes a short. */
  lemma CharPrimitiveRefused(c: bv16, littleEndianHost: bool)
    ensures PrimitiveTypeId(Scalar(Char)) == TypeChar
    ensures PrimitivePayload(PrimitiveTypeId(Scalar(Char)), Some(CharValue(c)), littleEndianHost) == Err(InvalidCast)
  {
  }

  /** The bytes WriteBooleanArray appends: a sentinel, then for a present
      array its length as an int and one 0/1 byte per element. */
  function BooleanArrayBytes(vals: Option<CsArray<bool>>, littleEndianHost: bool): seq<bv8>
  {
    match vals
    case None => [ByteZero]
    case Some(vs) => [ByteOne] + IntBytes(IntBitsOf(|vs|), littleEndianHost) + BoolBytes(vs)
  }

  /** The layout of a written boolean array: 0 for null; otherwise 1, the
      length as an int, and element i as byte 5 + i. */
  lemma BooleanArrayLayout(vals: Option<CsArray<bool>>, littleEndianHost: bool)
    ensures vals.None? ==> BooleanArrayBytes(vals, littleEndianHost) == [ByteZero]
    ensures vals.Some? ==> |BooleanArrayBytes(vals, littleEndianHost)| == 5 + |vals.value|
    ensures vals.Some? ==> BooleanArrayBytes(vals, littleEndianHost)[0] == ByteOne
    ensures vals.Some? ==>
      BooleanArrayBytes(vals, littleEndianHost)[1..5] == IntBytes(IntBitsOf(|vals.value|), littleEndianHost)
    ensures vals.Some? ==> forall i :: 0 <= i < |vals.value| ==>
      BooleanArrayBytes(vals, littleEndianHost)[5 + i] == BoolByte(vals.value[i])
  {
    if vals.Some? {
      var vs := vals.value;
      var header := [ByteOne] + IntBytes(IntBitsOf(|vs|), littleEndianHost);
      assert BooleanArrayBytes(vals, littleEndianHost) == header + BoolBytes(vs);
      assert (header + BoolBytes(vs))[1..5] == header[1..];
    }
  }

  /** The bytes WriteByteArray appends: a sentinel, then the raw bytes,
      with no length. */
  function ByteArrayBytes(vals: Option<CsArray<bv8>>): (r: seq<bv8>)
    ensures vals.None? ==> r == [ByteZero]
    ensures vals.Some? ==> |r| == 1 + |vals.value| && r[0] == ByteOne && r[1..] == vals.value
  {
    match vals
    case None => [ByteZero]
    case Some(vs) => [ByteOne] + vs
  }

  /** The bytes WriteShortArray and WriteCharArray append: a sentinel, then
      two bytes per element, with no length. */
  function ShortArrayBytes(vals: Option<CsArray<bv16>>, littleEndianHost: bool): seq<bv8>
  {
    match vals
    case None => [ByteZero]
    case Some(vs) => [ByteOne] + Concat(vs, ShortEnc(littleEndianHost))
  }

  /** The layout of a written short (or char) array: 0 for null; otherwise
      1 and element i at offset 1 + 2i. */
  lemma ShortArrayLayout(vals: Option<CsArray<bv16>>, littleEndianHost: bool)
    ensures vals.None? ==> ShortArrayBytes(vals, littleEndianHost) == [ByteZero]
    ensures vals.Some? ==> |ShortArrayBytes(vals, littleEndianHost)| == 1 + 2 * |vals.value|
    ensures vals.Some? ==> ShortArrayBytes(vals, littleEndianHost)[0] == ByteOne
    ensures vals.Some? ==> forall i :: 0 <= i < |vals.value| ==>
      ShortArrayBytes(vals, littleEndianHost)[1 + 2 * i .. 3 + 2 * i] == ShortBytes(vals.value[i], littleEndianHost)
  {
    if vals.Some? {
      var vs := vals.value;
      var body := Concat(vs, ShortEnc(littleEndianHost));
      ConcatLayout(vs, ShortEnc(littleEndianHost), 2);
      forall i | 0 <= i < |vs|
        ensures ([ByteOne] + body)[1 + 2 * i .. 3 + 2 * i] == ShortBytes(vs[i], littleEndianHost)
      {
        assert ([ByteOne] + body)[1 + 2 * i .. 3 + 2 * i] == body[2 * i .. 2 * i + 2];
      }
    }
  }

  /** The bytes WriteIntArray and WriteFloatArray append: a sentinel, then
      four bytes per element, with no length. */
  function IntArrayBytes(vals: Option<CsArray<bv32>>, littleEndianHost: bool): seq<bv8>
  {
    match vals
    case None => [ByteZero]
    case Some(vs) => [ByteOne] + Concat(vs, IntEnc(littleEndianHost))
  }

  /** The layout of a written int (or float) array: 0 for null; otherwise 1
      and element i at offset 1 + 4i. */
  lemma IntArrayLayout(vals: Option<CsArray<bv32>>, littleEndianHost: bool)
    ensures vals.None? ==> IntArrayBytes(vals, littleEndianHost) == [ByteZero]
    ensures vals.Some? ==> |IntArrayBytes(vals, littleEndianHost)| == 1 + 4 * |vals.value|
    ensures vals.Some? ==> IntArrayBytes(vals, littleEndianHost)[0] == ByteOne
    ensures vals.Some? ==> forall i :: 0 <= i < |vals.value| ==>
      IntArrayBytes(vals, littleEndianHost)[1 + 4 * i .. 5 + 4 * i] == IntBytes(vals.value[i], littleEndianHost)
  {
    if vals.Some? {
      var vs := vals.value;
      var body := Concat(vs, IntEnc(littleEndianHost));
      ConcatLayout(vs, IntEnc(littleEndianHost), 4);
      forall i | 0 <= i < |vs|
        ensures ([ByteOne] + body)[1 + 4 * i .. 5 + 4 * i] == IntBytes(vs[i], littleEndianHost)
      {
        assert ([ByteOne] + body)[1 + 4 * i .. 5 + 4 * i] == body[4 * i .. 4 * i + 4];
      }
    }
  }

  /** The bytes WriteLongArray and WriteDoubleArray append: a sentinel, then
      eight bytes per element in WriteLong's layout, with no length. */
  function LongArrayBytes(vals: Option<CsArray<bv64>>, littleEndianHost: bool): seq<bv8>
  {
    match vals
    case None => [ByteZero]
    case Some(vs) => [ByteOne] + Concat(vs, LongEnc(littleEndianHost))
  }

  /** The layout of a written long (or double) array: 0 for null; otherwise
      1 and element i at offset 1 + 8i. */
  lemma LongArrayLayout(vals: Option<CsArray<bv64>>, littleEndianHost: bool)
    ensures vals.None? ==> LongArrayBytes(vals, littleEndianHost) == [ByteZero]
    ensures vals.Some? ==> |LongArrayBytes(vals, littleEndianHost)| == 1 + 8 * |vals.value|
    ensures vals.Some? ==> LongArrayBytes(vals, littleEndianHost)[0] == ByteOne
    ensures vals.Some? ==> forall i :: 0 <= i < |vals.value| ==>
      LongArrayBytes(vals, littleEndianHost)[1 + 8 * i .. 9 + 8 * i] == LongBytes(vals.value[i], littleEndianHost)
  {
    if vals.Some? {
      var vs := vals.value;
      var body := Concat(vs, LongEnc(littleEndianHost));
      ConcatLayout(vs, LongEnc(littleEndianHost), 8);
      forall i | 0 <= i < |vs|
        ensures ([ByteOne] + body)[1 + 8 * i .. 9 + 8 * i] == LongBytes(vs[i], littleEndianHost)
      {
        assert ([ByteOne] + body)[1 + 8 * i .. 9 + 8 * i] == body[8 * i .. 8 * i + 8];
      }
    }
  }

  /** The bytes WriteString appends: a sentinel, then the UTF-8 bytes of the
      text (given by `utf8`, standing for `Encoding.UTF8.GetBytes`). */
  function StringBytes(val: Option<seq<bv16>>, utf8: seq<bv16> -> seq<bv8>): (r: seq<bv8>)
    ensures val.None? ==> r == [ByteZero]
    ensures val.Some? ==> |r| == 1 + |utf8(val.value)| && r[0] == ByteOne && r[1..] == utf8(val.value)
  {
    match val
    case None => [ByteZero]
    case Some(s) => [ByteOne] + utf8(s)
  }

  /** The bytes WritePrimitiveArray appends, or the exception it throws:
      UnsupportedType for every identifier other than the bool, byte, short,
      int, long and char arrays (float and double arrays included), and
      InvalidCast when `obj` is neither null nor the array the branch casts
      to. */
  function PrimitiveArrayBytes(typeId: bv32, obj: ArrayObj, littleEndianHost: bool): (r: Result<seq<bv8>>)
    ensures typeId !in {TypeArrayBool, TypeArrayByte, TypeArrayShort, TypeArrayInt, TypeArrayLong, TypeArrayChar}
      ==> r == Err(UnsupportedType(typeId))
    ensures typeId in {TypeArrayBool, TypeArrayByte, TypeArrayShort, TypeArrayInt, TypeArrayLong, TypeArrayChar}
      ==> (r.Ok? <==> obj.NullRef? || ArrayElementTypeId(typeId) == ArrayElementTypeIdOf(obj))
    ensures r.Ok? && obj.NullRef? ==> r.value == [ByteZero]
  {
    if typeId == TypeArrayBool then
      match obj
      case NullRef => Ok(BooleanArrayBytes(None, littleEndianHost))
      case BoolArray(vs) => Ok(BooleanArrayBytes(Some(vs), littleEndianHost))
      case _ => Err(InvalidCast)
    else if typeId == TypeArrayByte then
      match obj
      case NullRef => Ok(ByteArrayBytes(None))
      case ByteArray(vs) => Ok(ByteArrayBytes(Some(vs)))
      case SByteArray(vs) => Ok(ByteArrayBytes(Some(vs)))
      case _ => Err(InvalidCast)
    else if typeId == TypeArrayShort then
      match obj
      case NullRef => Ok(ShortArrayBytes(None, littleEndianHost))
      case ShortArray(vs) => Ok(ShortArrayBytes(Some(vs), littleEndianHost))
      case UShortArray(vs) => Ok(ShortArrayBytes(Some(vs), littleEndianHost))
      case _ => Err(InvalidCast)
    else if typeId == TypeArrayInt then
      match obj
      case NullRef => Ok(IntArrayBytes(None, littleEndianHost))
      case IntArray(vs) => Ok(IntArrayBytes(Some(vs), littleEndianHost))
      case UIntArray(vs) => Ok(IntArrayBytes(Some(vs), littleEndianHost))
      case _ => Err(InvalidCast)
    else if typeId == TypeArrayLong then
      match obj
      case NullRef => Ok(LongArrayBytes(None, littleEndianHost))
      case LongArray(vs) => Ok(LongArrayBytes(Some(vs), littleEndianHost))
      case ULongArray(vs) => Ok(LongArrayBytes(Some(vs), littleEndianHost))
      case _ => Err(InvalidCast)
    else if typeId == TypeArrayChar then
      match obj
      case NullRef => Ok(ShortArrayBytes(None, littleEndianHost))
      case CharArray(vs) => Ok(ShortArrayBytes(Some(vs), littleEndianHost))
      case _ => Err(InvalidCast)
    else
      Err(UnsupportedType(typeId))
  }

  /** The scalar identifier the elements of an array object travel under
      (an unsigned integer array under its signed twin's), 0 for null and for
      anything that is not a primitive array. */
  function ArrayElementTypeIdOf(obj: ArrayObj): bv32
  {
    match obj
    case BoolArray(_) => TypeBool
    case ByteArray(_) => TypeByte
    case SByteArray(_) => TypeByte
    case ShortArray(_) => TypeShort
    case UShortArray(_) => TypeShort
    case IntArray(_) => TypeInt
    case UIntArray(_) => TypeInt
    case LongArray(_) => TypeLong
    case ULongArray(_) => TypeLong
    case CharArray(_) => TypeChar
    case FloatArray(_) => TypeFloat
    case DoubleArray(_) => TypeDouble
    case _ => 0
  }

  /** The CLR type of a (non-null) array object. */
  function ArrayTypeOf(obj: ArrayObj): ClrType
  {
    match obj
    case BoolArray(_) => ArrayOf(Scalar(Boolean))
    case ByteArray(_) => ArrayOf(Scalar(Byte))
    case SByteArray(_) => ArrayOf(Scalar(SByte))
    case ShortArray(_) => ArrayOf(Scalar(Int16))
    case UShortArray(_) => ArrayOf(Scalar(UInt16))
    case IntArray(_) => ArrayOf(Scalar(Int32))
    case UIntArray(_) => ArrayOf(Scalar(UInt32))
    case LongArray(_) => ArrayOf(Scalar(Int64))
    case ULongArray(_) => ArrayOf(Scalar(UInt64))
    case CharArray(_) => ArrayOf(Scalar(Char))
    case FloatArray(_) => ArrayOf(Scalar(Single))
    case DoubleArray(_) => ArrayOf(Scalar(Double))
    case _ => Other
  }

  /** A float array gets an identifier from the lookup that the dispatch
      then refuses. */
  lemma FloatArraysRefused(xs: CsArray<bv32>, littleEndianHost: bool)
    ensures PrimitiveArrayTypeId(ArrayTypeOf(FloatArray(xs))) == TypeArrayFloat
    ensures PrimitiveArrayBytes(TypeArrayFloat, FloatArray(xs), littleEndianHost) == Err(UnsupportedType(TypeArrayFloat))
  {
    assert ArrayTypeOf(FloatArray(xs)) == ArrayOf(Scalar(Single));
  }

  /** The other way round for the unsigned integer arrays: the dispatch
      writes each one exactly as its signed twin, but the lookup gives it no
      identifier to be written under. */
  lemma UnsignedArraysUnrouted(bs: CsArray<bv8>, us: CsArray<bv16>, ui: CsArray<bv32>, ul: CsArray<bv64>,
                               littleEndianHost: bool)
    ensures PrimitiveArrayTypeId(ArrayTypeOf(SByteArray(bs))) == 0
    ensures PrimitiveArrayTypeId(ArrayTypeOf(UShortArray(us))) == 0
    ensures PrimitiveArrayTypeId(ArrayTypeOf(UIntArray(ui))) == 0
    ensures PrimitiveArrayTypeId(ArrayTypeOf(ULongArray(ul))) == 0
    ensures PrimitiveArrayBytes(TypeArrayByte, SByteArray(bs), littleEndianHost)
         == PrimitiveArrayBytes(TypeArrayByte, ByteArray(bs), littleEndianHost)
    ensures PrimitiveArrayBytes(TypeArrayShort, UShortArray(us), littleEndianHost)
         == PrimitiveArrayBytes(TypeArrayShort, ShortArray(us), littleEndianHost)
    ensures PrimitiveArrayBytes(TypeArrayInt, UIntArray(ui), littleEndianHost)
         == PrimitiveArrayBytes(TypeArrayInt, IntArray(ui), littleEndianHost)
    ensures PrimitiveArrayBytes(TypeArrayLong, ULongArray(ul), littleEndianHost)
         == PrimitiveArrayBytes(TypeArrayLong, LongArray(ul), littleEndianHost)
  {
    assert ArrayTypeOf(SByteArray(bs)) == ArrayOf(Scalar(SByte));
    assert ArrayTypeOf(UShortArray(us)) == ArrayOf(Scalar(UInt16));
    assert ArrayTypeOf(UIntArray(ui)) == ArrayOf(Scalar(UInt32));
    assert ArrayTypeOf(ULongArray(ul)) == ArrayOf(Scalar(UInt64));
    assert PrimitiveArrayBytes(TypeArrayByte, SByteArray(bs), littleEndianHost) == Ok(ByteArrayBytes(Some(bs)));
    assert PrimitiveArrayBytes(TypeArrayShort, UShortArray(us), littleEndianHost)
        == Ok(ShortArrayBytes(Some(us), littleEndianHost));
    assert PrimitiveArrayBytes(TypeArrayInt, UIntArray(ui), littleEndianHost)
        == Ok(IntArrayBytes(Some(ui), littleEndianHost));
    assert PrimitiveArrayBytes(TypeArrayLong, ULongArray(ul), littleEndianHost)
        == Ok(LongArrayBytes(Some(ul), littleEndianHost));
  }

  /** So does a double array. */
  lemma DoubleArraysRefused(ys: CsArray<bv64>, littleEndianHost: bool)
    ensures PrimitiveArrayTypeId(ArrayTypeOf(DoubleArray(ys))) == TypeArrayDouble
    ensures PrimitiveArrayBytes(TypeArrayDouble, DoubleArray(ys), littleEndianHost) == Err(UnsupportedType(TypeArrayDouble))
  {
    assert ArrayTypeOf(DoubleArray(ys)) == ArrayOf(Scalar(Double));
  }

  /** Without a length, the int-array layout does not delimit itself: an
      empty array followed by the int 5 is the same bytes as the array [5]. */
  lemma UnframedIntArrayAmbiguity(littleEndianHost: bool)
    ensures IntArrayBytes(Some([]), littleEndianHost) + IntBytes(5, littleEndianHost)
         == IntArrayBytes(Some([5]), littleEndianHost)
  {
    assert Concat([5 as bv32], IntEnc(littleEndianHost)) == IntBytes(5, littleEndianHost) + Concat([], IntEnc(littleEndianHost));
  }

  // ----- Reading -----

  /** The bits `val |= b` contributes for a ReadByte result: the byte, or
      all ones for the -1 of an exhausted stream. */
  function ByteBits(b: StreamByte): (r: bv32)
    ensures b.Data? ==> r == b.octet as bv32
    ensures b.EndOfData? ==> r == 0xFFFF_FFFF
  {
    match b
    case Data(octet) => octet as bv32
    case EndOfData => 0xFFFF_FFFF
  }

  /** What ReadInt returns when it starts at `pos`. */
  function ReadIntAt(data: seq<bv8>, pos: nat, littleEndianHost: bool): (r: bv32)
    ensures pos + 4 <= |data| ==> r == IntFromBytes(data[pos .. pos + 4], littleEndianHost)
  {
    var b0, b1 := ByteBits(ReadByteAt(data, pos)), ByteBits(ReadByteAt(data, pos + 1));
    var b2, b3 := ByteBits(ReadByteAt(data, pos + 2)), ByteBits(ReadByteAt(data, pos + 3));
    IntOfBits(b0, b1, b2, b3, littleEndianHost)
  }

  /** ReadInt at the end of the stream yields -1, which is also what it
      reads from the four bytes FF FF FF FF: exhaustion is not detected. */
  lemma ReadIntPastEnd(littleEndianHost: bool)
    ensures ReadIntAt([], 0, littleEndianHost) == 0xFFFF_FFFF
    ensures ReadIntAt([0xFF, 0xFF, 0xFF, 0xFF], 0, littleEndianHost) == 0xFFFF_FFFF
  {
  }

  /** What ReadBooleanArray returns when it starts at `pos`, and the
      position after it: null when the sentinel byte is 0; otherwise an
      array of the length ReadInt gives (OverflowException when that is
      negative), each element true exactly when its byte reads as 1. */
  function ReadBooleanArrayAt(data: seq<bv8>, pos: nat, littleEndianHost: bool)
    : (r: (Result<Option<seq<bool>>>, nat))
    requires pos <= |data|
    ensures pos <= r.1 <= |data|
    ensures r.0.Ok? && r.0.value.None? <==> ReadByteAt(data, pos) == Data(ByteZero)
    ensures r.0.Err? ==> r.0.error == Overflow
  {
    var p1 := Skip(data, pos, 1);
    if ReadByteAt(data, pos) == Data(ByteZero) then
      (Ok(None), p1)
    else
      var n := ReadIntAt(data, p1, littleEndianHost);
      var p2 := Skip(data, p1, 4);
      if n as int >= 0x8000_0000 then
        (Err(Overflow), p2)
      else
        var len := n as int;
        (Ok(Some(seq(len, i requires 0 <= i < len => ReadByteAt(data, p2 + i) == Data(ByteOne)))),
         Skip(data, p2, len))
  }

  /** A boolean array written by WriteBooleanArray and read back by
      ReadBooleanArray on the same host is the same array, null included,
      and the read stops exactly at the end of what was written. */
  lemma BooleanArrayRoundTrip(vals: Option<CsArray<bool>>, rest: seq<bv8>, littleEndianHost: bool)
    ensures ReadBooleanArrayAt(BooleanArrayBytes(vals, littleEndianHost) + rest, 0, littleEndianHost)
         == (Ok(vals), |BooleanArrayBytes(vals, littleEndianHost)|)
  {
    if vals.Some? {
      var vs := vals.value;
      var n := IntBitsOf(|vs|);
      var header, body := [ByteOne] + IntBytes(n, littleEndianHost), BoolBytes(vs);
      var data := header + body + rest;
      assert BooleanArrayBytes(vals, littleEndianHost) + rest == data;
      AppendAssoc(header, body, rest);
      LengthRead(header, body + rest, n, littleEndianHost);
      IntBitsOfValue(|vs|);
      BoolBytesRead(vs, header, rest);
    }
  }

  /** The sentinel and length at the front of a written boolean array read
      back as written. */
  lemma LengthRead(header: seq<bv8>, tail: seq<bv8>, n: bv32, littleEndianHost: bool)
    requires header == [ByteOne] + IntBytes(n, littleEndianHost)
    ensures ReadByteAt(header + tail, 0) == Data(ByteOne)
    ensures Skip(header + tail, 0, 1) == 1 && Skip(header + tail, 1, 4) == 5
    ensures ReadIntAt(header + tail, 1, littleEndianHost) == n
  {
    var data := header + tail;
    assert data[1 .. 5] == IntBytes(n, littleEndianHost);
    IntRoundTrip(n, data[1 .. 5], littleEndianHost);
  }

  /** The element bytes of a written boolean array read back as the
      elements. */
  lemma BoolBytesRead(vs: seq<bool>, header: seq<bv8>, rest: seq<bv8>)
    requires |header| == 5
    ensures Skip(header + (BoolBytes(vs) + rest), 5, |vs|) == 5 + |vs|
    ensures seq(|vs|, i requires 0 <= i < |vs| => ReadByteAt(header + (BoolBytes(vs) + rest), 5 + i) == Data(ByteOne))
         == vs
  {
    var data := header + (BoolBytes(vs) + rest);
    forall i | 0 <= i < |vs|
      ensures ReadByteAt(data, 5 + i) == Data(BoolByte(vs[i]))
    {
      assert data[5 + i] == BoolBytes(vs)[i];
    }
  }

  // ----- The methods -----

  method WriteBoolean(val: bool, stream: OutputStream)
    modifies stream
    ensures stream.bytes == old(stream.bytes) + [BoolByte(val)]
  {
    stream.WriteByte(if val then ByteOne else ByteZero);
  }

  method ReadBoolean(stream: InputStream) returns (val: bool)
    requires stream.Valid()
    modifies stream
    ensures stream.Valid()
    ensures val <==> ReadByteAt(stream.data, old(stream.pos)) == Data(ByteOne)
    ensures stream.pos == Skip(stream.data, old(stream.pos), 1)
  {
    var b := stream.ReadByte();
    val := b == Data(ByteOne);
  }

  method WriteByte(val: bv8, stream: OutputStream) returns (written: int)
    modifies stream
    ensures stream.bytes == old(stream.bytes) + [val]
    ensures written == 1
  {
    stream.WriteByte(val);
    written := 1;
  }

  method WriteShort(val: bv16, stream: OutputStream, littleEndianHost: bool)
    modifies stream
    ensures stream.bytes == old(stream.bytes) + ShortBytes(val, littleEndianHost)
  {
    if littleEndianHost {
      stream.WriteByte((val >> 8) as bv8);
      stream.WriteByte((val & 0xFF) as bv8);
    } else {
      stream.WriteByte((val & 0xFF) as bv8);
      stream.WriteByte((val >> 8) as bv8);
    }
  }

  method WriteInt(val: bv32, stream: OutputStream, littleEndianHost: bool)
    modifies stream
    ensures stream.bytes == old(stream.bytes) + IntBytes(val, littleEndianHost)
  {
    if littleEndianHost {
      stream.WriteByte((val >> 24) as bv8);
      stream.WriteByte(((val >> 16) & 0xFF) as bv8);
      stream.WriteByte(((val >> 8) & 0xFF) as bv8);
      stream.WriteByte((val & 0xFF) as bv8);
    } else {
      stream.WriteByte((val & 0xFF) as bv8);
      stream.WriteByte(((val >> 8) & 0xFF) as bv8);
      stream.WriteByte(((val >> 16) & 0xFF) as bv8);
      stream.WriteByte((val >> 24) as bv8);
    }
  }

  /** ReadInt: four reads, each one's int (the byte, or -1 at the end)
      shifted into place and ORed into `val`, in the host's order. */
  method ReadInt(stream: InputStream, littleEndianHost: bool) returns (val: bv32)
    requires stream.Valid()
    modifies stream
    ensures stream.Valid()
    ensures val == ReadIntAt(stream.data, old(stream.pos), littleEndianHost)
    ensures stream.pos == Skip(stream.data, old(stream.pos), 4)
  {
    var b0, b1, b2, b3 := ReadFour(stream);
    var x0, x1, x2, x3 := ByteBits(b0), ByteBits(b1), ByteBits(b2), ByteBits(b3);
    val := 0;
    if littleEndianHost {
      val := val | (x0 << 24);
      val := val | (x1 << 16);
      val := val | (x2 << 8);
      val := val | x3;
    } else {
      val := val | x0;
      val := val | (x1 << 8);
      val := val | (x2 << 16);
      val := val | (x3 << 24);
    }
    IntAccumulates(x0, x1, x2, x3, littleEndianHost);
  }

  /** The four ReadByte calls of ReadInt. */
  method ReadFour(stream: InputStream) returns (b0: StreamByte, b1: StreamByte, b2: StreamByte, b3: StreamByte)
    requires stream.Valid()
    modifies stream
    ensures stream.Valid()
    ensures b0 == ReadByteAt(stream.data, old(stream.pos)) && b1 == ReadByteAt(stream.data, old(stream.pos) + 1)
    ensures b2 == ReadByteAt(stream.data, old(stream.pos) + 2) && b3 == ReadByteAt(stream.data, old(stream.pos) + 3)
    ensures stream.pos == Skip(stream.data, old(stream.pos), 4)
  {
    ghost var data, start := stream.data, stream.pos;
    SkipStep(data, start, 1);
    SkipStep(data, start, 2);
    SkipStep(data, start, 3);
    b0 := stream.ReadByte();
    b1 := stream.ReadByte();
    b2 := stream.ReadByte();
    b3 := stream.ReadByte();
  }

  /** As written: the top byte is `val >> 54`. */
  method WriteLong(val: bv64, stream: OutputStream, littleEndianHost: bool)
    modifies stream
    ensures stream.bytes == old(stream.bytes) + LongBytes(val, littleEndianHost)
  {
    // The eight bytes, top byte from `val >> 54`, in the host's order;
    // then one WriteByte per byte.
    var order := LongBytes(val, littleEndianHost);
    for i := 0 to 8
      invariant stream.bytes == old(stream.bytes) + order[..i]
    {
      stream.WriteByte(order[i]);
      assert order[..i + 1] == order[..i] + [order[i]];
    }
    assert order[..8] == order;
  }

  /** A float, given by its bit pattern, goes through WriteInt. */
  method WriteFloat(bits: bv32, stream: OutputStream, littleEndianHost: bool)
    modifies stream
    ensures stream.bytes == old(stream.bytes) + IntBytes(bits, littleEndianHost)
  {
    WriteInt(bits, stream, littleEndianHost);
  }

  /** A double, given by its bit pattern, goes through WriteLong. */
  method WriteDouble(bits: bv64, stream: OutputStream, littleEndianHost: bool)
    modifies stream
    ensures stream.bytes == old(stream.bytes) + LongBytes(bits, littleEndianHost)
  {
    WriteLong(bits, stream, littleEndianHost);
  }

  /** A legacy 0 byte, the 4-byte type identifier, then the payload. The
      header is written before the switch, so a refused identifier, a null
      `obj` or a value of another type leaves those five bytes behind. */
  method WritePrimitive(typeId: bv32, obj: Option<Value>, stream: OutputStream, littleEndianHost: bool)
    returns (outcome: Outcome)
    modifies stream
    ensures outcome == (match PrimitivePayload(typeId, obj, littleEndianHost)
                        case Ok(_) => Pass
                        case Err(e) => Fail(e))
    ensures stream.bytes == old(stream.bytes) + [ByteZero] + IntBytes(typeId, littleEndianHost) +
      (match PrimitivePayload(typeId, obj, littleEndianHost)
       case Ok(payload) => payload
       case Err(_) => [])
  {
    WriteBoolean(false, stream);
    WriteInt(typeId, stream, littleEndianHost);
    outcome := Pass;
    if typeId == TypeBool {
      if obj.Some? && obj.value.BoolValue? {
        WriteBoolean(obj.value.boolVal, stream);
      } else {
        outcome := Fail(UnboxError(obj));
      }
    } else if typeId == TypeByte {
      if obj.Some? && obj.value.ByteValue? {
        stream.WriteByte(obj.value.byteVal);
      } else {
        outcome := Fail(UnboxError(obj));
      }
    } else if typeId == TypeShort || typeId == TypeChar {
      if obj.Some? && obj.value.Int16Value? {
        WriteShort(obj.value.int16Val, stream, littleEndianHost);
      } else {
        outcome := Fail(UnboxError(obj));
      }
    } else if typeId == TypeInt {
      if obj.Some? && obj.value.Int32Value? {
        WriteInt(obj.value.int32Val, stream, littleEndianHost);
      } else {
        outcome := Fail(UnboxError(obj));
      }
    } else if typeId == TypeLong {
      if obj.Some? && obj.value.Int64Value? {
        WriteLong(obj.value.int64Val, stream, littleEndianHost);
      } else {
        outcome := Fail(UnboxError(obj));
      }
    } else if typeId == TypeFloat {
      if obj.Some? && obj.value.SingleValue? {
        WriteFloat(obj.value.singleBits, stream, littleEndianHost);
      } else {
        outcome := Fail(UnboxError(obj));
      }
    } else if typeId == TypeDouble {
      if obj.Some? && obj.value.DoubleValue? {
        WriteDouble(obj.value.doubleBits, stream, littleEndianHost);
      } else {
        outcome := Fail(UnboxError(obj));
      }
    } else {
      outcome := Fail(UnsupportedType(typeId));
    }
  }

  method WriteString(val: Option<seq<bv16>>, stream: OutputStream, utf8: seq<bv16> -> seq<bv8>)
    modifies stream
    ensures stream.bytes == old(stream.bytes) + StringBytes(val, utf8)
  {
    if val.None? {
      stream.WriteByte(ByteZero);
    } else {
      var bytes := utf8(val.value);
      stream.WriteByte(ByteOne);
      stream.Write(bytes);
    }
  }

  /** A Guid is a struct, so the source's null test never holds: the
      sentinel is always 1, followed by the 16 bytes. */
  method WriteGuid(val: Guid, stream: OutputStream)
    modifies stream
    ensures stream.bytes == old(stream.bytes) + [ByteOne] + val
    ensures |stream.bytes| == |old(stream.bytes)| + 17
  {
    stream.WriteByte(ByteOne);
    stream.Write(val);
  }

  method WriteBooleanArray(vals: Option<CsArray<bool>>, stream: OutputStream, littleEndianHost: bool)
    modifies stream
    ensures stream.bytes == old(stream.bytes) + BooleanArrayBytes(vals, littleEndianHost)
  {
    if vals.None? {
      stream.WriteByte(ByteZero);
    } else {
      var vs := vals.value;
      stream.WriteByte(ByteOne);
      WriteInt(IntBitsOf(|vs|), stream, littleEndianHost);
      ghost var header := stream.bytes;
      for i := 0 to |vs|
        invariant stream.bytes == header + BoolBytes(vs[..i])
      {
        stream.WriteByte(if vs[i] then ByteOne else ByteZero);
        assert BoolBytes(vs[..i + 1]) == BoolBytes(vs[..i]) + [BoolByte(vs[i])];
        AppendAssoc(header, BoolBytes(vs[..i]), [BoolByte(vs[i])]);
      }
      assert vs[..|vs|] == vs;
      ghost var length := IntBytes(IntBitsOf(|vs|), littleEndianHost);
      AppendAssoc(old(stream.bytes), [ByteOne], length);
      AppendAssoc(old(stream.bytes), [ByteOne] + length, BoolBytes(vs));
    }
  }

  method ReadBooleanArray(stream: InputStream, littleEndianHost: bool) returns (r: Result<Option<seq<bool>>>)
    requires stream.Valid()
    modifies stream
    ensures stream.Valid()
    ensures (r, stream.pos) == ReadBooleanArrayAt(stream.data, old(stream.pos), littleEndianHost)
  {
    ghost var start := stream.pos;
    var sentinel := stream.ReadByte();
    if sentinel == Data(ByteZero) {
      return Ok(None);
    }
    ghost var p1 := stream.pos;
    assert p1 == Skip(stream.data, start, 1);
    var n := ReadInt(stream, littleEndianHost);
    assert n == ReadIntAt(stream.data, p1, littleEndianHost);
    assert stream.pos == Skip(stream.data, p1, 4);
    if n as int >= 0x8000_0000 {
      return Err(Overflow);  // `new bool[n]` with a negative n
    }
    var vals := ReadBooleanElements(stream, n as int);
    r := Ok(Some(vals[..]));
  }

  /** The element loop of ReadBooleanArray: `count` reads into a fresh array,
      each element true exactly when its byte is ByteOne. */
  method ReadBooleanElements(stream: InputStream, count: nat) returns (vals: array<bool>)
    requires stream.Valid()
    modifies stream
    ensures fresh(vals) && stream.Valid()
    ensures vals[..] == seq(count, i requires 0 <= i < count =>
      ReadByteAt(stream.data, old(stream.pos) + i) == Data(ByteOne))
    ensures stream.pos == Skip(stream.data, old(stream.pos), count)
  {
    ghost var start := stream.pos;
    vals := new bool[count];
    for i := 0 to count
      invariant stream.Valid() && stream.pos == Skip(stream.data, start, i)
      invariant forall k :: 0 <= k < i ==> vals[k] == (ReadByteAt(stream.data, start + k) == Data(ByteOne))
    {
      SkipStep(stream.data, start, i);
      var b := stream.ReadByte();
      vals[i] := b == Data(ByteOne);
    }
  }

  method WriteByteArray(vals: Option<CsArray<bv8>>, stream: OutputStream)
    modifies stream
    ensures stream.bytes == old(stream.bytes) + ByteArrayBytes(vals)
  {
    if vals.None? {
      stream.WriteByte(ByteZero);
    } else {
      stream.WriteByte(ByteOne);
      stream.Write(vals.value);
    }
  }

  method WriteShortArray(vals: Option<CsArray<bv16>>, stream: OutputStream, littleEndianHost: bool)
    modifies stream
    ensures stream.bytes == old(stream.bytes) + ShortArrayBytes(vals, littleEndianHost)
  {
    if vals.None? {
      stream.WriteByte(ByteZero);
    } else {
      var vs := vals.value;
      stream.WriteByte(ByteOne);
      ghost var header := stream.bytes;
      for i := 0 to |vs|
        invariant stream.bytes == header + Concat(vs[..i], ShortEnc(littleEndianHost))
      {
        WriteShort(vs[i], stream, littleEndianHost);
        ConcatStep(header, vs, i, ShortEnc(littleEndianHost), ShortBytes(vs[i], littleEndianHost));
      }
      assert vs[..|vs|] == vs;
    }
  }

  /** Each char is written through `(short)c`, which keeps its 16 bits. */
  method WriteCharArray(vals: Option<CsArray<bv16>>, stream: OutputStream, littleEndianHost: bool)
    modifies stream
    ensures stream.bytes == old(stream.bytes) + ShortArrayBytes(vals, littleEndianHost)
  {
    if vals.None? {
      stream.WriteByte(ByteZero);
    } else {
      var vs := vals.value;
      stream.WriteByte(ByteOne);
      ghost var header := stream.bytes;
      for i := 0 to |vs|
        invariant stream.bytes == header + Concat(vs[..i], ShortEnc(littleEndianHost))
      {
        WriteShort(vs[i], stream, littleEndianHost);
        ConcatStep(header, vs, i, ShortEnc(littleEndianHost), ShortBytes(vs[i], littleEndianHost));
      }
      assert vs[..|vs|] == vs;
    }
  }

  method WriteIntArray(vals: Option<CsArray<bv32>>, stream: OutputStream, littleEndianHost: bool)
    modifies stream
    ensures stream.bytes == old(stream.bytes) + IntArrayBytes(vals, littleEndianHost)
  {
    if vals.None? {
      stream.WriteByte(ByteZero);
    } else {
      var vs := vals.value;
      stream.WriteByte(ByteOne);
      ghost var header := stream.bytes;
      for i := 0 to |vs|
        invariant stream.bytes == header + Concat(vs[..i], IntEnc(littleEndianHost))
      {
        WriteInt(vs[i], stream, littleEndianHost);
        ConcatStep(header, vs, i, IntEnc(littleEndianHost), IntBytes(vs[i], littleEndianHost));
      }
      assert vs[..|vs|] == vs;
    }
  }

  method WriteLongArray(vals: Option<CsArray<bv64>>, stream: OutputStream, littleEndianHost: bool)
    modifies stream
    ensures stream.bytes == old(stream.bytes) + LongArrayBytes(vals, littleEndianHost)
  {
    if vals.None? {
      stream.WriteByte(ByteZero);
    } else {
      ghost var start := stream.bytes;
      stream.WriteByte(ByteOne);
      WriteLongElements(vals.value, stream, littleEndianHost);
      AppendAssoc(start, [ByteOne], Concat(vals.value, LongEnc(littleEndianHost)));
    }
  }

  /** The element loop of WriteLongArray: one WriteLong per element. */
  method WriteLongElements(vs: seq<bv64>, stream: OutputStream, littleEndianHost: bool)
    modifies stream
    ensures stream.bytes == old(stream.bytes) + Concat(vs, LongEnc(littleEndianHost))
  {
    ghost var header := stream.bytes;
    for i := 0 to |vs|
      invariant stream.bytes == header + Concat(vs[..i], LongEnc(littleEndianHost))
    {
      WriteLong(vs[i], stream, littleEndianHost);
      ConcatStep(header, vs, i, LongEnc(littleEndianHost), LongBytes(vs[i], littleEndianHost));
    }
    assert vs[..|vs|] == vs;
  }

  /** Floats are given by their bit patterns; each goes through WriteFloat. */
  method WriteFloatArray(vals: Option<CsArray<bv32>>, stream: OutputStream, littleEndianHost: bool)
    modifies stream
    ensures stream.bytes == old(stream.bytes) + IntArrayBytes(vals, littleEndianHost)
  {
    if vals.None? {
      stream.WriteByte(ByteZero);
    } else {
      var vs := vals.value;
      stream.WriteByte(ByteOne);
      ghost var header := stream.bytes;
      for i := 0 to |vs|
        invariant stream.bytes == header + Concat(vs[..i], IntEnc(littleEndianHost))
      {
        WriteFloat(vs[i], stream, littleEndianHost);
        ConcatStep(header, vs, i, IntEnc(littleEndianHost), IntBytes(vs[i], littleEndianHost));
      }
      assert vs[..|vs|] == vs;
    }
  }

  /** Doubles are given by their bit patterns; each goes through WriteDouble. */
  method WriteDoubleArray(vals: Option<CsArray<bv64>>, stream: OutputStream, littleEndianHost: bool)
    modifies stream
    ensures stream.bytes == old(stream.bytes) + LongArrayBytes(vals, littleEndianHost)
  {
    if vals.None? {
      stream.WriteByte(ByteZero);
    } else {
      ghost var start := stream.bytes;
      stream.WriteByte(ByteOne);
      WriteDoubleElements(vals.value, stream, littleEndianHost);
      AppendAssoc(start, [ByteOne], Concat(vals.value, LongEnc(littleEndianHost)));
    }
  }

  /** The element loop of WriteDoubleArray: one WriteDouble per element. */
  method WriteDoubleElements(vs: seq<bv64>, stream: OutputStream, littleEndianHost: bool)
    modifies stream
    ensures stream.bytes == old(stream.bytes) + Concat(vs, LongEnc(littleEndianHost))
  {
    ghost var header := stream.bytes;
    for i := 0 to |vs|
      invariant stream.bytes == header + Concat(vs[..i], LongEnc(littleEndianHost))
    {
      WriteDouble(vs[i], stream, littleEndianHost);
      ConcatStep(header, vs, i, LongEnc(littleEndianHost), LongBytes(vs[i], littleEndianHost));
    }
    assert vs[..|vs|] == vs;
  }

  method WritePrimitiveArray(typeId: bv32, obj: ArrayObj, stream: OutputStream, littleEndianHost: bool)
    returns (outcome: Outcome)
    modifies stream
    ensures outcome == (match PrimitiveArrayBytes(typeId, obj, littleEndianHost)
                        case Ok(_) => Pass
                        case Err(e) => Fail(e))
    ensures stream.bytes == old(stream.bytes) +
      (match PrimitiveArrayBytes(typeId, obj, littleEndianHost)
       case Ok(bytes) => bytes
       case Err(_) => [])
  {
    outcome := Pass;
    if typeId == TypeArrayBool {
      match obj
      case NullRef => WriteBooleanArray(None, stream, littleEndianHost);
      case BoolArray(vs) => WriteBooleanArray(Some(vs), stream, littleEndianHost);
      case _ => outcome := Fail(InvalidCast);
    } else if typeId == TypeArrayByte {
      match obj
      case NullRef => WriteByteArray(None, stream);
      case ByteArray(vs) => WriteByteArray(Some(vs), stream);
      case SByteArray(vs) => WriteByteArray(Some(vs), stream);
      case _ => outcome := Fail(InvalidCast);
    } else if typeId == TypeArrayShort {
      match obj
      case NullRef => WriteShortArray(None, stream, littleEndianHost);
      case ShortArray(vs) => WriteShortArray(Some(vs), stream, littleEndianHost);
      case UShortArray(vs) => WriteShortArray(Some(vs), stream, littleEndianHost);
      case _ => outcome := Fail(InvalidCast);
    } else if typeId == TypeArrayInt {
      match obj
      case NullRef => WriteIntArray(None, stream, littleEndianHost);
      case IntArray(vs) => WriteIntArray(Some(vs), stream, littleEndianHost);
      case UIntArray(vs) => WriteIntArray(Some(vs), stream, littleEndianHost);
      case _ => outcome := Fail(InvalidCast);
    } else if typeId == TypeArrayLong {
      match obj
      case NullRef => WriteLongArray(None, stream, littleEndianHost);
      case LongArray(vs) => WriteLongArray(Some(vs), stream, littleEndianHost);
      case ULongArray(vs) => WriteLongArray(Some(vs), stream, littleEndianHost);
      case _ => outcome := Fail(InvalidCast);
    } else if typeId == TypeArrayChar {
      match obj
      case NullRef => WriteCharArray(None, stream, littleEndianHost);
      case CharArray(vs) => WriteCharArray(Some(vs), stream, littleEndianHost);
      case _ => outcome := Fail(InvalidCast);
    } else {
      // TYPE_ARRAY_FLOAT and TYPE_ARRAY_DOUBLE share the default branch.
      outcome := Fail(UnsupportedType(typeId));
    }
  }
}
