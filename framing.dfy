/** The codec as its identifiers and its boolean array evidently intend it,
    stated as pure functions over the written bytes:

    - every primitive array is framed like the boolean array: a sentinel,
      the length as an int, then the elements, so that it can be read back;
    - byte order is the wire order (most significant byte first) on every
      host, and a long's top byte is `v >> 56`;
    - a value is accepted under the identifier its own type looks up to
      (a char under TYPE_CHAR, a uint under TYPE_INT, ...);
    - reading past the end is the error EndOfStream, not a byte of -1. */
module Framing {
  import opened Wire
  import opened ByteOrder
  import opened Streams
  import opened PortableUtils

  // ----- Reading ints -----

  /** The int at `pos` and the position after it, or EndOfStream when fewer
      than four bytes remain. */
  function DecodeInt(data: seq<bv8>, pos: nat): (r: Result<(bv32, nat)>)
    ensures r.Ok? <==> pos + 4 <= |data|
    ensures r.Err? ==> r.error == EndOfStream
    ensures r.Ok? ==> r.value.1 == pos + 4
  {
    if pos + 4 <= |data| then Ok((IntFromBytes(data[pos .. pos + 4], WireOrder), pos + 4))
    else Err(EndOfStream)
  }

  /** An int written in the wire order is read back from any position, and
      the read stops after its four bytes. */
  lemma DecodeIntRoundTrip(prefix: seq<bv8>, v: bv32, rest: seq<bv8>)
    ensures DecodeInt(prefix + IntBytes(v, WireOrder) + rest, |prefix|) == Ok((v, |prefix| + 4))
  {
    var data := prefix + IntBytes(v, WireOrder) + rest;
    assert data[|prefix| .. |prefix| + 4] == IntBytes(v, WireOrder);
    IntRoundTrip(v, IntBytes(v, WireOrder), WireOrder);
  }

  // ----- Element codecs in the wire order -----

  function BoolEnc(b: bool): seq<bv8>
  {
    [BoolByte(b)]
  }

  /** ReadBoolean's test: true exactly when the byte is 1. */
  function BoolDec(s: seq<bv8>): bool
  {
    |s| > 0 && s[0] == ByteOne
  }

  function ByteEnc(b: bv8): seq<bv8>
  {
    [b]
  }

  function ByteDec(s: seq<bv8>): bv8
  {
    if |s| > 0 then s[0] else 0
  }

  function ShortDec(s: seq<bv8>): bv16
  {
    if |s| == 2 then ShortFromBytes(s, WireOrder) else 0
  }

  function IntDec(s: seq<bv8>): bv32
  {
    if |s| == 4 then IntFromBytes(s, WireOrder) else 0
  }

  function LongDec(s: seq<bv8>): bv64
  {
    if |s| == 8 then LongFromBytes(s, WireOrder) else 0
  }

  /** An element codec of fixed width `w` whose decoder undoes its encoder. */
  ghost predicate Codec<T(!new)>(enc: T -> seq<bv8>, dec: seq<bv8> -> T, w: nat)
  {
    forall x :: |enc(x)| == w && dec(enc(x)) == x
  }

  /** The element codecs of the eight array kinds. */
  lemma ElementCodecs()
    ensures Codec(BoolEnc, BoolDec, 1)
    ensures Codec(ByteEnc, ByteDec, 1)
    ensures Codec(ShortEnc(WireOrder), ShortDec, 2)
    ensures Codec(IntEnc(WireOrder), IntDec, 4)
    ensures Codec(LongEncFixed(WireOrder), LongDec, 8)
  {
    forall x: bool ensures BoolDec(BoolEnc(x)) == x {
      assert BoolByte(x) == ByteOne <==> x;
    }
    forall x: bv16 ensures ShortDec(ShortEnc(WireOrder)(x)) == x {
      ShortRoundTrip(x, ShortBytes(x, WireOrder), WireOrder);
    }
    forall x: bv32 ensures IntDec(IntEnc(WireOrder)(x)) == x {
      IntRoundTrip(x, IntBytes(x, WireOrder), WireOrder);
    }
    forall x: bv64 ensures LongDec(LongEncFixed(WireOrder)(x)) == x {
      LongRoundTripFixed(x, LongBytesFixed(x, WireOrder), WireOrder);
    }
  }

  // ----- Framed arrays -----

  /** A framed array: 0 for null; otherwise 1, the length as an int in the
      wire order, then the elements back to back. */
  function FramedArrayBytes<T>(vals: Option<CsArray<T>>, enc: T -> seq<bv8>): seq<bv8>
  {
    match vals
    case None => [ByteZero]
    case Some(vs) => [ByteOne] + IntBytes(IntBitsOf(|vs|), WireOrder) + Concat(vs, enc)
  }

  /** The boolean array WriteBooleanArray writes, on a host with the wire
      order, is already the framed layout. */
  lemma BooleanArrayIsFramed(vals: Option<CsArray<bool>>)
    ensures BooleanArrayBytes(vals, WireOrder) == FramedArrayBytes(vals, BoolEnc)
  {
    if vals.Some? {
      BoolBytesConcat(vals.value);
    }
  }

  lemma {:induction false} BoolBytesConcat(vs: seq<bool>)
    ensures BoolBytes(vs) == Concat(vs, BoolEnc)
  {
    if vs != [] {
      BoolBytesConcat(vs[1..]);
      assert BoolBytes(vs) == [BoolByte(vs[0])] + BoolBytes(vs[1..]);
    }
  }

  /** The sentinel at `pos`: present (true) for 1, null (false) for 0,
      BadSentinel for any other byte, EndOfStream past the end. */
  function DecodeSentinel(data: seq<bv8>, pos: nat): (r: Result<(bool, nat)>)
    ensures r.Ok? ==> pos < |data| && r.value.1 == pos + 1
    ensures r.Ok? ==> (r.value.0 <==> data[pos] == ByteOne) && (!r.value.0 <==> data[pos] == ByteZero)
    ensures r == Err(EndOfStream) <==> pos >= |data|
    ensures r == Err(BadSentinel) <==> pos < |data| && data[pos] !in {ByteZero, ByteOne}
  {
    if pos >= |data| then Err(EndOfStream)
    else if data[pos] == ByteZero then Ok((false, pos + 1))
    else if data[pos] == ByteOne then Ok((true, pos + 1))
    else Err(BadSentinel)
  }

  /** `n` elements of width `w` from `pos`, and the position after them, or
      EndOfStream when the data ends first. */
  function DecodeElements<T>(data: seq<bv8>, pos: nat, n: nat, dec: seq<bv8> -> T, w: nat)
    : (r: Result<(seq<T>, nat)>)
    requires pos <= |data|
    ensures r.Ok? ==> |r.value.0| == n && pos <= r.value.1 <= |data|
    ensures r.Err? ==> r.error == EndOfStream
    decreases n
  {
    if n == 0 then Ok(([], pos))
    else if |data| - pos < w then Err(EndOfStream)
    else
      match DecodeElements(data, pos + w, n - 1, dec, w)
      case Err(e) => Err(e)
      case Ok(res) => Ok(([dec(data[pos .. pos + w])] + res.0, res.1))
  }

  /** A framed array at `pos` and the position after it; the errors are
      EndOfStream, BadSentinel and MalformedLength (a negative length). */
  function DecodeFramedArray<T>(data: seq<bv8>, pos: nat, dec: seq<bv8> -> T, w: nat)
    : (r: Result<(Option<CsArray<T>>, nat)>)
    requires pos <= |data|
    ensures r.Ok? ==> pos < r.value.1 <= |data|
    ensures r.Ok? && r.value.0.None? <==> pos < |data| && data[pos] == ByteZero
    ensures r.Err? ==> r.error in {EndOfStream, BadSentinel, MalformedLength}
  {
    match DecodeSentinel(data, pos)
    case Err(e) => Err(e)
    case Ok(s) =>
      if !s.0 then Ok((None, s.1))
      else
        match DecodeInt(data, s.1)
        case Err(e) => Err(e)
        case Ok(n) =>
          if n.0 as int >= 0x8000_0000 then Err(MalformedLength)
          else
            match DecodeElements(data, n.1, n.0 as int, dec, w)
            case Err(e) => Err(e)
            case Ok(es) => Ok((Some(es.0), es.1))
  }

  /** Encoded elements decode back to themselves, and the read stops right
      after them. */
  lemma {:induction false} ElementsRoundTrip<T(!new)>(prefix: seq<bv8>, vs: seq<T>, rest: seq<bv8>,
                                                enc: T -> seq<bv8>, dec: seq<bv8> -> T, w: nat)
    requires Codec(enc, dec, w)
    ensures DecodeElements(prefix + Concat(vs, enc) + rest, |prefix|, |vs|, dec, w)
         == Ok((vs, |prefix| + |Concat(vs, enc)|))
    decreases |vs|
  {
    if vs != [] {
      var e := enc(vs[0]);
      var data := prefix + Concat(vs, enc) + rest;
      assert data == (prefix + e) + Concat(vs[1..], enc) + rest;
      assert data[|prefix| .. |prefix| + w] == e;
      ElementsRoundTrip(prefix + e, vs[1..], rest, enc, dec, w);
      assert [vs[0]] + vs[1..] == vs;
    }
  }

  /** A framed array reads back as the same array (null included), wherever
      it is followed by other bytes, and the read stops at its end. */
  lemma FramedRoundTrip<T(!new)>(vals: Option<CsArray<T>>, rest: seq<bv8>, enc: T -> seq<bv8>, dec: seq<bv8> -> T, w: nat)
    requires Codec(enc, dec, w)
    ensures DecodeFramedArray(FramedArrayBytes(vals, enc) + rest, 0, dec, w)
         == Ok((vals, |FramedArrayBytes(vals, enc)|))
  {
    if vals.Some? {
      var vs := vals.value;
      var header := [ByteOne] + IntBytes(IntBitsOf(|vs|), WireOrder);
      var data := header + Concat(vs, enc) + rest;
      assert FramedArrayBytes(vals, enc) + rest == data;
      assert DecodeSentinel(data, 0) == Ok((true, 1));
      DecodeIntRoundTrip([ByteOne], IntBitsOf(|vs|), Concat(vs, enc) + rest);
      AppendAssoc(header, Concat(vs, enc), rest);
      IntBitsOfValue(|vs|);
      ElementsRoundTrip(header, vs, rest, enc, dec, w);
    }
  }

  /** A framed array delimits itself: if two framed arrays followed by
      other bytes are the same bytes, they are the same array followed by
      the same bytes (compare UnframedIntArrayAmbiguity). */
  lemma FramedSelfDelimiting<T(!new)>(a: Option<CsArray<T>>, b: Option<CsArray<T>>, ra: seq<bv8>, rb: seq<bv8>,
                                enc: T -> seq<bv8>, dec: seq<bv8> -> T, w: nat)
    requires Codec(enc, dec, w)
    requires FramedArrayBytes(a, enc) + ra == FramedArrayBytes(b, enc) + rb
    ensures a == b && ra == rb
  {
    FramedRoundTrip(a, ra, enc, dec, w);
    FramedRoundTrip(b, rb, enc, dec, w);
    var n := |FramedArrayBytes(a, enc)|;
    assert ra == (FramedArrayBytes(a, enc) + ra)[n..];
    assert rb == (FramedArrayBytes(b, enc) + rb)[n..];
  }

  /** Elements cut short fail with EndOfStream. */
  lemma {:induction false} ElementsTruncated<T(!new)>(prefix: seq<bv8>, vs: seq<T>, j: nat,
                                                enc: T -> seq<bv8>, dec: seq<bv8> -> T, w: nat)
    requires forall x :: |enc(x)| == w
    requires j < |Concat(vs, enc)|
    ensures DecodeElements(prefix + Concat(vs, enc)[..j], |prefix|, |vs|, dec, w) == Err(EndOfStream)
    decreases |vs|
  {
    var e := enc(vs[0]);
    var data := prefix + Concat(vs, enc)[..j];
    if j >= w {
      assert Concat(vs, enc)[..j] == e + Concat(vs[1..], enc)[..j - w];
      assert data == (prefix + e) + Concat(vs[1..], enc)[..j - w];
      ElementsTruncated(prefix + e, vs[1..], j - w, enc, dec, w);
    }
  }

  /** Every proper prefix of a framed array fails with EndOfStream: a
      stream that ends early is reported, never read as a shorter value. */
  lemma FramedTruncated<T(!new)>(vals: Option<CsArray<T>>, k: nat, enc: T -> seq<bv8>, dec: seq<bv8> -> T, w: nat)
    requires forall x :: |enc(x)| == w
    requires k < |FramedArrayBytes(vals, enc)|
    ensures DecodeFramedArray(FramedArrayBytes(vals, enc)[..k], 0, dec, w) == Err(EndOfStream)
  {
    if vals.Some? && k > 0 {
      var vs := vals.value;
      var header := [ByteOne] + IntBytes(IntBitsOf(|vs|), WireOrder);
      var data := FramedArrayBytes(vals, enc)[..k];
      assert FramedArrayBytes(vals, enc) == header + Concat(vs, enc);
      assert DecodeSentinel(data, 0) == Ok((true, 1));
      if k >= 5 {
        assert data == header + Concat(vs, enc)[..k - 5];
        DecodeIntRoundTrip([ByteOne], IntBitsOf(|vs|), Concat(vs, enc)[..k - 5]);
        IntBitsOfValue(|vs|);
        ElementsTruncated(header, vs, k - 5, enc, dec, w);
      }
    }
  }

  // ----- Arrays by type identifier -----

  /** What the corrected WritePrimitiveArray appends: every one of the
      eight array identifiers is routed, each array framed, in the wire
      order; InvalidCast when `obj` is neither null nor the array the
      identifier names, UnsupportedType for any other identifier. */
  function PrimitiveArrayBytesFixed(typeId: bv32, obj: ArrayObj): (r: Result<seq<bv8>>)
    ensures ArrayElementTypeId(typeId) == 0 ==> r == Err(UnsupportedType(typeId))
    ensures ArrayElementTypeId(typeId) != 0 ==>
      (r.Ok? <==> obj.NullRef? || ArrayElementTypeId(typeId) == ArrayElementTypeIdOf(obj))
    ensures r.Ok? && obj.NullRef? ==> r.value == [ByteZero]
  {
    if ArrayElementTypeId(typeId) == 0 then Err(UnsupportedType(typeId))
    else if obj.NullRef? then Ok([ByteZero])
    else if ArrayElementTypeId(typeId) != ArrayElementTypeIdOf(obj) then Err(InvalidCast)
    else
      match obj
      case BoolArray(vs) => Ok(FramedArrayBytes(Some(vs), BoolEnc))
      case ByteArray(vs) => Ok(FramedArrayBytes(Some(vs), ByteEnc))
      case SByteArray(vs) => Ok(FramedArrayBytes(Some(vs), ByteEnc))
      case ShortArray(vs) => Ok(FramedArrayBytes(Some(vs), ShortEnc(WireOrder)))
      case UShortArray(vs) => Ok(FramedArrayBytes(Some(vs), ShortEnc(WireOrder)))
      case CharArray(vs) => Ok(FramedArrayBytes(Some(vs), ShortEnc(WireOrder)))
      case IntArray(vs) => Ok(FramedArrayBytes(Some(vs), IntEnc(WireOrder)))
      case UIntArray(vs) => Ok(FramedArrayBytes(Some(vs), IntEnc(WireOrder)))
      case FloatArray(vs) => Ok(FramedArrayBytes(Some(vs), IntEnc(WireOrder)))
      case LongArray(vs) => Ok(FramedArrayBytes(Some(vs), LongEncFixed(WireOrder)))
      case ULongArray(vs) => Ok(FramedArrayBytes(Some(vs), LongEncFixed(WireOrder)))
      case DoubleArray(vs) => Ok(FramedArrayBytes(Some(vs), LongEncFixed(WireOrder)))
  }

  /** Every primitive array, of any of the eight element kinds and of the
      four unsigned integer kinds, gets an identifier from the corrected
      lookup that the corrected dispatch writes (compare FloatArraysRefused,
      DoubleArraysRefused and UnsignedArraysUnrouted). */
  lemma EveryArrayKindRoutable(obj: ArrayObj)
    requires !obj.NullRef? && !obj.OtherObject?
    ensures PrimitiveArrayTypeIdFixed(ArrayTypeOf(obj)) != 0
    ensures PrimitiveArrayBytesFixed(PrimitiveArrayTypeIdFixed(ArrayTypeOf(obj)), obj).Ok?
  {
  }

  /** Reading back what PrimitiveArrayBytesFixed wrote under `typeId`. */
  function DecodePrimitiveArray(typeId: bv32, data: seq<bv8>, pos: nat): (r: Result<(ArrayObj, nat)>)
    requires pos <= |data|
    ensures ArrayElementTypeId(typeId) == 0 ==> r == Err(UnsupportedType(typeId))
    ensures r.Ok? ==> pos < r.value.1 <= |data|
  {
    if typeId == TypeArrayBool then
      Lift(DecodeFramedArray(data, pos, BoolDec, 1), vs => BoolArray(vs))
    else if typeId == TypeArrayByte then
      Lift(DecodeFramedArray(data, pos, ByteDec, 1), vs => ByteArray(vs))
    else if typeId == TypeArrayShort then
      Lift(DecodeFramedArray(data, pos, ShortDec, 2), vs => ShortArray(vs))
    else if typeId == TypeArrayChar then
      Lift(DecodeFramedArray(data, pos, ShortDec, 2), vs => CharArray(vs))
    else if typeId == TypeArrayInt then
      Lift(DecodeFramedArray(data, pos, IntDec, 4), vs => IntArray(vs))
    else if typeId == TypeArrayFloat then
      Lift(DecodeFramedArray(data, pos, IntDec, 4), vs => FloatArray(vs))
    else if typeId == TypeArrayLong then
      Lift(DecodeFramedArray(data, pos, LongDec, 8), vs => LongArray(vs))
    else if typeId == TypeArrayDouble then
      Lift(DecodeFramedArray(data, pos, LongDec, 8), vs => DoubleArray(vs))
    else Err(UnsupportedType(typeId))
  }

  /** The array a reader gets back for `obj`: the wire does not record
      signedness, so an unsigned integer array comes back as its signed twin
      holding the same bits. */
  function SignedTwin(obj: ArrayObj): (r: ArrayObj)
    ensures ArrayElementTypeIdOf(r) == ArrayElementTypeIdOf(obj)
    ensures r.NullRef? <==> obj.NullRef?
    ensures !(obj.SByteArray? || obj.UShortArray? || obj.UIntArray? || obj.ULongArray?) ==> r == obj
    ensures !(r.SByteArray? || r.UShortArray? || r.UIntArray? || r.ULongArray?)
  {
    match obj
    case SByteArray(vs) => ByteArray(vs)
    case UShortArray(vs) => ShortArray(vs)
    case UIntArray(vs) => IntArray(vs)
    case ULongArray(vs) => LongArray(vs)
    case _ => obj
  }

  /** A decoded framed array as an array object: null for None. */
  function Lift<T>(r: Result<(Option<CsArray<T>>, nat)>, wrap: CsArray<T> -> ArrayObj): Result<(ArrayObj, nat)>
  {
    match r
    case Err(e) => Err(e)
    case Ok(v) => Ok((if v.0.None? then NullRef else wrap(v.0.value), v.1))
  }

  /** Whatever the corrected WritePrimitiveArray writes reads back under the
      same identifier as the same elements, in the same object for every
      signed kind and in the signed twin for an unsigned one, and the read
      stops at its end. */
  lemma PrimitiveArrayRoundTrip(typeId: bv32, obj: ArrayObj, rest: seq<bv8>)
    requires PrimitiveArrayBytesFixed(typeId, obj).Ok?
    ensures DecodePrimitiveArray(typeId, PrimitiveArrayBytesFixed(typeId, obj).value + rest, 0)
         == Ok((SignedTwin(obj), |PrimitiveArrayBytesFixed(typeId, obj).value|))
  {
    ElementCodecs();
    var bytes := PrimitiveArrayBytesFixed(typeId, obj).value;
    if typeId == TypeArrayBool {
      var vals := if obj.NullRef? then None else Some(obj.bools);
      assert bytes == FramedArrayBytes(vals, BoolEnc);
      FramedRoundTrip(vals, rest, BoolEnc, BoolDec, 1);
    } else if typeId == TypeArrayByte {
      var vals := if obj.NullRef? then None else if obj.SByteArray? then Some(obj.sbytes) else Some(obj.octets);
      assert bytes == FramedArrayBytes(vals, ByteEnc);
      FramedRoundTrip(vals, rest, ByteEnc, ByteDec, 1);
    } else if typeId == TypeArrayShort {
      var vals := if obj.NullRef? then None else if obj.UShortArray? then Some(obj.ushorts) else Some(obj.shorts);
      assert bytes == FramedArrayBytes(vals, ShortEnc(WireOrder));
      FramedRoundTrip(vals, rest, ShortEnc(WireOrder), ShortDec, 2);
    } else if typeId == TypeArrayChar {
      var vals := if obj.NullRef? then None else Some(obj.chars);
      assert bytes == FramedArrayBytes(vals, ShortEnc(WireOrder));
      FramedRoundTrip(vals, rest, ShortEnc(WireOrder), ShortDec, 2);
    } else if typeId == TypeArrayInt {
      var vals := if obj.NullRef? then None else if obj.UIntArray? then Some(obj.uints) else Some(obj.ints);
      assert bytes == FramedArrayBytes(vals, IntEnc(WireOrder));
      FramedRoundTrip(vals, rest, IntEnc(WireOrder), IntDec, 4);
    } else if typeId == TypeArrayFloat {
      var vals := if obj.NullRef? then None else Some(obj.floats);
      assert bytes == FramedArrayBytes(vals, IntEnc(WireOrder));
      FramedRoundTrip(vals, rest, IntEnc(WireOrder), IntDec, 4);
    } else if typeId == TypeArrayLong {
      var vals := if obj.NullRef? then None else if obj.ULongArray? then Some(obj.ulongs) else Some(obj.longs);
      assert bytes == FramedArrayBytes(vals, LongEncFixed(WireOrder));
      FramedRoundTrip(vals, rest, LongEncFixed(WireOrder), LongDec, 8);
    } else {
      var vals := if obj.NullRef? then None else Some(obj.doubles);
      assert bytes == FramedArrayBytes(vals, LongEncFixed(WireOrder));
      FramedRoundTrip(vals, rest, LongEncFixed(WireOrder), LongDec, 8);
    }
  }

  // ----- Scalars by type identifier -----

  /** The payload of a scalar value in the wire order, with the corrected
      long layout. */
  function ValueBytes(v: Value): (r: seq<bv8>)
    ensures |r| == Width(KindOf(v))
  {
    match v
    case BoolValue(b) => [BoolByte(b)]
    case SByteValue(b) => [b]
    case ByteValue(b) => [b]
    case Int16Value(s) => ShortBytes(s, WireOrder)
    case UInt16Value(s) => ShortBytes(s, WireOrder)
    case CharValue(c) => ShortBytes(c, WireOrder)
    case Int32Value(i) => IntBytes(i, WireOrder)
    case UInt32Value(i) => IntBytes(i, WireOrder)
    case SingleValue(f) => IntBytes(f, WireOrder)
    case Int64Value(l) => LongBytesFixed(l, WireOrder)
    case UInt64Value(l) => LongBytesFixed(l, WireOrder)
    case DoubleValue(d) => LongBytesFixed(d, WireOrder)
  }

  /** The corrected WritePrimitive payload: a value is accepted under the
      identifier its own type looks up to. */
  function PrimitivePayloadFixed(typeId: bv32, v: Value): (r: Result<seq<bv8>>)
    ensures r == Err(UnsupportedType(typeId)) <==> PrimitiveLength(typeId).Err?
    ensures r.Ok? <==> PrimitiveTypeIdFixed(Scalar(KindOf(v))) == typeId
    ensures r.Ok? ==> PrimitiveLength(typeId) == Ok(|r.value|)
  {
    if PrimitiveLength(typeId).Err? then Err(UnsupportedType(typeId))
    else if PrimitiveTypeIdFixed(Scalar(KindOf(v))) != typeId then Err(InvalidCast)
    else Ok(ValueBytes(v))
  }

  /** Every scalar value is written under its own type's identifier. */
  lemma EveryScalarWritable(v: Value)
    ensures PrimitivePayloadFixed(PrimitiveTypeIdFixed(Scalar(KindOf(v))), v) == Ok(ValueBytes(v))
  {
  }

  /** In particular a char is written under TYPE_CHAR as its two bytes
      (compare CharPrimitiveRefused). */
  lemma CharPrimitiveAccepted(c: bv16)
    ensures PrimitivePayloadFixed(TypeChar, CharValue(c)) == Ok(ShortBytes(c, WireOrder))
  {
    assert PrimitiveTypeIdFixed(Scalar(Char)) == TypeChar;
  }

  /** The payload of an int-sized value reads back with DecodeInt; a long
      payload reads back whole, top byte included. */
  lemma ScalarPayloadRoundTrip(v: Value, rest: seq<bv8>)
    ensures v.Int32Value? ==> DecodeInt(ValueBytes(v) + rest, 0) == Ok((v.int32Val, 4))
    ensures v.Int64Value? ==> LongFromBytes(ValueBytes(v), WireOrder) == v.int64Val
  {
    if v.Int32Value? {
      DecodeIntRoundTrip([], v.int32Val, rest);
      assert [] + IntBytes(v.int32Val, WireOrder) + rest == ValueBytes(v) + rest;
    }
    if v.Int64Value? {
      LongRoundTripFixed(v.int64Val, ValueBytes(v), WireOrder);
    }
  }
  /** What the as-written WritePrimitive accepts, on a host whose order is
      the wire order, it writes as the corrected payload: the same bytes for
      every type but long and double, whose bytes agree from the second on
      (the first is the top-byte defect of LongTopByteCollision). The
      corrected writer accepts the value under the same identifier, except a
      short under TYPE_CHAR, which only the as-written branch takes. */
  lemma PayloadAgreesWithCorrected(typeId: bv32, v: Value)
    requires PrimitivePayload(typeId, Some(v), WireOrder).Ok?
    ensures typeId != TypeChar ==> PrimitivePayloadFixed(typeId, v).Ok?
    ensures typeId == TypeChar ==> v.Int16Value? && PrimitivePayloadFixed(typeId, v).Err?
    ensures PrimitivePayload(typeId, Some(v), WireOrder).value[1..] == ValueBytes(v)[1..]
    ensures KindOf(v) !in {Int64, Double} ==> PrimitivePayload(typeId, Some(v), WireOrder).value == ValueBytes(v)
  {
    if v.Int64Value? || v.DoubleValue? {
      LongPayloadAgrees(typeId, v);
    } else {
      NarrowPayloadAgrees(typeId, v);
    }
  }

  /** PayloadAgreesWithCorrected for longs and doubles. */
  lemma LongPayloadAgrees(typeId: bv32, v: Value)
    requires PrimitivePayload(typeId, Some(v), WireOrder).Ok?
    requires v.Int64Value? || v.DoubleValue?
    ensures PrimitivePayloadFixed(typeId, v).Ok?
    ensures PrimitivePayload(typeId, Some(v), WireOrder).value[1..] == ValueBytes(v)[1..]
  {
    var x := if v.Int64Value? then v.int64Val else v.doubleBits;
    assert PrimitivePayload(typeId, Some(v), WireOrder).value == LongBytes(x, WireOrder);
    assert ValueBytes(v) == LongBytesFixed(x, WireOrder);
    assert LongBytes(x, WireOrder)[1..] == LongBytesFixed(x, WireOrder)[1..];
  }

  /** PayloadAgreesWithCorrected for every type narrower than a long. */
  lemma NarrowPayloadAgrees(typeId: bv32, v: Value)
    requires PrimitivePayload(typeId, Some(v), WireOrder).Ok?
    requires !v.Int64Value? && !v.DoubleValue?
    ensures typeId != TypeChar ==> PrimitivePayloadFixed(typeId, v).Ok?
    ensures typeId == TypeChar ==> v.Int16Value? && PrimitivePayloadFixed(typeId, v).Err?
    ensures PrimitivePayload(typeId, Some(v), WireOrder).value == ValueBytes(v)
  {
    assert PrimitiveTypeIdFixed(Scalar(Int16)) == TypeShort;
  }

  // ----- Scalars with their header, read back -----

  /** What the corrected WritePrimitive appends: the legacy 0 byte, the
      identifier as an int in the wire order, then the payload. A refused
      identifier or value writes nothing. */
  function PrimitiveBytesFixed(typeId: bv32, v: Value): (r: Result<seq<bv8>>)
    ensures r.Ok? <==> PrimitiveTypeIdFixed(Scalar(KindOf(v))) == typeId
    ensures r.Ok? ==> PrimitiveLength(typeId) == Ok(|r.value| - 5)
    ensures r.Ok? ==> r.value[0] == ByteZero && r.value[1..5] == IntBytes(typeId, WireOrder)
  {
    match PrimitivePayloadFixed(typeId, v)
    case Err(e) => Err(e)
    case Ok(payload) => Ok([ByteZero] + IntBytes(typeId, WireOrder) + payload)
  }

  /** The value an identifier's payload stands for. Signed and unsigned
      types share an identifier, so the signed twin is the one read back. */
  function ScalarOf(typeId: bv32, b: seq<bv8>): (v: Value)
    requires PrimitiveLength(typeId) == Ok(|b|)
    ensures PrimitiveTypeIdFixed(Scalar(KindOf(v))) == typeId
  {
    if typeId == TypeBool then BoolValue(BoolDec(b))
    else if typeId == TypeByte then ByteValue(ByteDec(b))
    else if typeId == TypeShort then Int16Value(ShortDec(b))
    else if typeId == TypeChar then CharValue(ShortDec(b))
    else if typeId == TypeInt then Int32Value(IntDec(b))
    else if typeId == TypeFloat then SingleValue(IntDec(b))
    else if typeId == TypeLong then Int64Value(LongDec(b))
    else DoubleValue(LongDec(b))
  }

  /** A scalar with its header at `pos`, and the position after it; the
      errors are EndOfStream when the data ends first, BadSentinel when the
      legacy byte is not 0, UnsupportedType for an identifier outside the
      scalar set. */
  function DecodePrimitive(data: seq<bv8>, pos: nat): (r: Result<(Value, nat)>)
    ensures r.Ok? ==> pos + 5 < r.value.1 <= |data| && data[pos] == ByteZero
    ensures r.Ok? ==> PrimitiveLength(IntFromBytes(data[pos + 1 .. pos + 5], WireOrder)) == Ok(r.value.1 - pos - 5)
    ensures pos + 5 > |data| ==> r == Err(EndOfStream)
    ensures r == Err(BadSentinel) <==> pos + 5 <= |data| && data[pos] != ByteZero
    ensures r.Err? ==>
      r.error == EndOfStream || r.error == BadSentinel ||
      (pos + 5 <= |data| && r.error == UnsupportedType(IntFromBytes(data[pos + 1 .. pos + 5], WireOrder)) &&
       PrimitiveLength(r.error.typeId).Err?)
  {
    if |data| < pos + 5 then Err(EndOfStream)
    else if data[pos] != ByteZero then Err(BadSentinel)
    else
      var typeId := IntFromBytes(data[pos + 1 .. pos + 5], WireOrder);
      match PrimitiveLength(typeId)
      case Err(e) => Err(e)
      case Ok(len) =>
        if |data| - (pos + 5) < len then Err(EndOfStream)
        else Ok((ScalarOf(typeId, data[pos + 5 .. pos + 5 + len]), pos + 5 + len))
  }

  /** The types whose values read back as themselves: every kind but the
      unsigned twins that share a signed type's identifier. */
  predicate SignedKind(v: Value)
  {
    KindOf(v) !in {SByte, UInt16, UInt32, UInt64}
  }

  /** The value a reader gets back for `v`: the wire does not record
      signedness, so an unsigned value comes back as its signed twin with the
      same bits, under the same identifier. */
  function SignedTwinValue(v: Value): (r: Value)
    ensures SignedKind(r)
    ensures SignedKind(v) ==> r == v
    ensures ValueBytes(r) == ValueBytes(v)
    ensures PrimitiveTypeIdFixed(Scalar(KindOf(r))) == PrimitiveTypeIdFixed(Scalar(KindOf(v)))
  {
    match v
    case SByteValue(b) => ByteValue(b)
    case UInt16Value(x) => Int16Value(x)
    case UInt32Value(x) => Int32Value(x)
    case UInt64Value(x) => Int64Value(x)
    case _ => v
  }

  /** A scalar written by the corrected WritePrimitive reads back bit
      pattern for bit pattern (so a float's NaN payload or sign of zero is
      kept): as the same value for every signed kind and as the signed twin
      for an unsigned one, and the read stops at its end. */
  lemma PrimitiveRoundTrip(typeId: bv32, v: Value, rest: seq<bv8>)
    requires PrimitiveBytesFixed(typeId, v).Ok?
    ensures DecodePrimitive(PrimitiveBytesFixed(typeId, v).value + rest, 0)
         == Ok((SignedTwinValue(v), |PrimitiveBytesFixed(typeId, v).value|))
    ensures SignedKind(v) ==>
      DecodePrimitive(PrimitiveBytesFixed(typeId, v).value + rest, 0)
         == Ok((v, |PrimitiveBytesFixed(typeId, v).value|))
  {
    var w := SignedTwinValue(v);
    assert PrimitiveBytesFixed(typeId, w) == PrimitiveBytesFixed(typeId, v);
    SignedRoundTrip(typeId, w, rest);
  }

  /** PrimitiveRoundTrip for a value of a signed kind. */
  lemma SignedRoundTrip(typeId: bv32, v: Value, rest: seq<bv8>)
    requires PrimitiveBytesFixed(typeId, v).Ok? && SignedKind(v)
    ensures DecodePrimitive(PrimitiveBytesFixed(typeId, v).value + rest, 0)
         == Ok((v, |PrimitiveBytesFixed(typeId, v).value|))
  {
    var payload := ValueBytes(v);
    var data := [ByteZero] + IntBytes(typeId, WireOrder) + (payload + rest);
    assert PrimitiveBytesFixed(typeId, v).value + rest == data;
    HeaderRead(typeId, payload + rest);
    assert data[5 .. 5 + |payload|] == payload;
    PayloadRead(v);
  }

  /** The header at the front of a written scalar reads back as its
      identifier. */
  lemma HeaderRead(typeId: bv32, tail: seq<bv8>)
    ensures IntFromBytes(([ByteZero] + IntBytes(typeId, WireOrder) + tail)[1 .. 5], WireOrder) == typeId
  {
    assert ([ByteZero] + IntBytes(typeId, WireOrder) + tail)[1 .. 5] == IntBytes(typeId, WireOrder);
    IntRoundTrip(typeId, IntBytes(typeId, WireOrder), WireOrder);
  }

  /** A scalar's payload decodes, under its type's identifier, to the
      scalar itself. */
  lemma PayloadRead(v: Value)
    requires SignedKind(v)
    ensures PrimitiveLength(PrimitiveTypeIdFixed(Scalar(KindOf(v)))) == Ok(|ValueBytes(v)|)
    ensures ScalarOf(PrimitiveTypeIdFixed(Scalar(KindOf(v))), ValueBytes(v)) == v
  {
    match v
    case BoolValue(b) =>
    case ByteValue(b) =>
    case Int16Value(x) => NarrowPayloadRead(v);
    case CharValue(x) => NarrowPayloadRead(v);
    case Int32Value(x) => NarrowPayloadRead(v);
    case SingleValue(x) => NarrowPayloadRead(v);
    case Int64Value(x) => WidePayloadRead(v);
    case DoubleValue(x) => WidePayloadRead(v);
  }

  /** PayloadRead for the 2- and 4-byte types. */
  lemma NarrowPayloadRead(v: Value)
    requires v.Int16Value? || v.CharValue? || v.Int32Value? || v.SingleValue?
    ensures PrimitiveLength(PrimitiveTypeIdFixed(Scalar(KindOf(v)))) == Ok(|ValueBytes(v)|)
    ensures ScalarOf(PrimitiveTypeIdFixed(Scalar(KindOf(v))), ValueBytes(v)) == v
  {
    match v
    case Int16Value(x) => ShortRoundTrip(x, ShortBytes(x, WireOrder), WireOrder);
    case CharValue(x) => ShortRoundTrip(x, ShortBytes(x, WireOrder), WireOrder);
    case Int32Value(x) => IntRoundTrip(x, IntBytes(x, WireOrder), WireOrder);
    case SingleValue(x) => IntRoundTrip(x, IntBytes(x, WireOrder), WireOrder);
  }

  /** PayloadRead for longs and doubles. */
  lemma WidePayloadRead(v: Value)
    requires v.Int64Value? || v.DoubleValue?
    ensures PrimitiveLength(PrimitiveTypeIdFixed(Scalar(KindOf(v)))) == Ok(|ValueBytes(v)|)
    ensures ScalarOf(PrimitiveTypeIdFixed(Scalar(KindOf(v))), ValueBytes(v)) == v
  {
    match v
    case Int64Value(x) => LongRoundTripFixed(x, LongBytesFixed(x, WireOrder), WireOrder);
    case DoubleValue(x) => LongRoundTripFixed(x, LongBytesFixed(x, WireOrder), WireOrder);
  }

  /** An unsigned value reads back as its signed twin with the same bits. */
  lemma UnsignedReadsAsSigned(x: bv32, rest: seq<bv8>)
    ensures PrimitiveBytesFixed(TypeInt, UInt32Value(x)).Ok?
    ensures DecodePrimitive(PrimitiveBytesFixed(TypeInt, UInt32Value(x)).value + rest, 0) == Ok((Int32Value(x), 9))
  {
    PrimitiveRoundTrip(TypeInt, UInt32Value(x), rest);
  }

  /** Every proper prefix of a written scalar fails with EndOfStream: fewer
      bytes than the identifier's length are reported, never read as a
      value. */
  lemma PrimitiveTruncated(typeId: bv32, v: Value, k: nat)
    requires PrimitiveBytesFixed(typeId, v).Ok?
    requires k < |PrimitiveBytesFixed(typeId, v).value|
    ensures DecodePrimitive(PrimitiveBytesFixed(typeId, v).value[..k], 0) == Err(EndOfStream)
  {
    var bytes := PrimitiveBytesFixed(typeId, v).value;
    var data := bytes[..k];
    if k >= 5 {
      assert data[0] == ByteZero;
      assert data[1..5] == IntBytes(typeId, WireOrder);
      DecodeIntRoundTrip([ByteZero], typeId, data[5..]);
      assert [ByteZero] + IntBytes(typeId, WireOrder) + data[5..] == data;
    }
  }

  // ----- Strings and Guids -----

  /** A nullable string at `pos` in the corrected format: the sentinel,
      then, for a present string, exactly `byteCount` UTF-8 bytes, the count
      coming from the message framing around the value. The text is returned
      as its UTF-8 bytes: decoding them is not part of this model. */
  function DecodeString(data: seq<bv8>, pos: nat, byteCount: nat): (r: Result<(Option<seq<bv8>>, nat)>)
    requires pos <= |data|
    ensures r.Ok? && r.value.0.None? ==> r.value.1 == pos + 1
    ensures r.Ok? && r.value.0.Some? ==>
      r.value.1 == pos + 1 + byteCount <= |data| && r.value.0.value == data[pos + 1 .. r.value.1]
    ensures r.Err? ==> r.error in {EndOfStream, BadSentinel}
  {
    match DecodeSentinel(data, pos)
    case Err(e) => Err(e)
    case Ok(s) =>
      if !s.0 then Ok((None, s.1))
      else if |data| - s.1 < byteCount then Err(EndOfStream)
      else Ok((Some(data[s.1 .. s.1 + byteCount]), s.1 + byteCount))
  }

  /** A string written by WriteString reads back, given the byte count of
      its UTF-8 form, as that UTF-8 form; null reads back as null whatever
      the count. */
  lemma StringRoundTrip(val: Option<seq<bv16>>, utf8: seq<bv16> -> seq<bv8>, rest: seq<bv8>, byteCount: nat)
    requires val.Some? ==> byteCount == |utf8(val.value)|
    ensures DecodeString(StringBytes(val, utf8) + rest, 0, byteCount)
         == Ok((if val.None? then None else Some(utf8(val.value)), |StringBytes(val, utf8)|))
  {
    var data := StringBytes(val, utf8) + rest;
    assert data[0] == StringBytes(val, utf8)[0];
    if val.Some? {
      assert data[1 .. 1 + byteCount] == utf8(val.value);
    }
  }

  /** The corrected Guid layout: 0 for an absent Guid, otherwise 1 and the
      16 bytes. */
  function GuidBytes(val: Option<Guid>): (r: seq<bv8>)
    ensures val.None? ==> r == [ByteZero]
    ensures val.Some? ==> |r| == 17 && r[0] == ByteOne && r[1..] == val.value
  {
    match val
    case None => [ByteZero]
    case Some(g) => [ByteOne] + g
  }

  /** A nullable Guid at `pos`, and the position after it. */
  function DecodeGuid(data: seq<bv8>, pos: nat): (r: Result<(Option<Guid>, nat)>)
    requires pos <= |data|
    ensures r.Ok? && r.value.0.Some? ==> r.value.1 == pos + 17 <= |data| && r.value.0.value == data[pos + 1 .. pos + 17]
    ensures r.Ok? && r.value.0.None? ==> r.value.1 == pos + 1 && pos < |data| && data[pos] == ByteZero
    ensures r.Err? ==> r.error in {EndOfStream, BadSentinel}
  {
    match DecodeSentinel(data, pos)
    case Err(e) => Err(e)
    case Ok(s) =>
      if !s.0 then Ok((None, s.1))
      else if |data| - s.1 < 16 then Err(EndOfStream)
      else Ok((Some(data[s.1 .. s.1 + 16]), s.1 + 16))
  }

  /** A Guid, present or absent, reads back as itself, and the read stops
      at its end; a present Guid is what WriteGuid writes. */
  lemma GuidRoundTrip(val: Option<Guid>, rest: seq<bv8>)
    ensures DecodeGuid(GuidBytes(val) + rest, 0) == Ok((val, |GuidBytes(val)|))
    ensures val.Some? ==> GuidBytes(val) == [ByteOne] + val.value
  {
    var data := GuidBytes(val) + rest;
    assert data[0] == GuidBytes(val)[0];
    if val.Some? {
      assert data[1 .. 17] == val.value;
    }
  }
}
