# Portable primitive codec of the .NET client

This project models `GridClientPortableUilts`, the static helper class of the
.NET client's "portable" binary protocol. The class holds four things:

- the table of wire type identifiers, with the lookups `PrimitiveTypeId`,
  `PrimitiveArrayTypeId` and `PrimitiveLength`;
- the writers and readers of booleans, bytes, shorts, ints, longs, chars,
  floats and doubles, as single values and as arrays;
- the nullable encoders: a 0 byte for null, or a 1 byte and a payload, used
  for arrays, strings and GUIDs;
- the hash functions `StringHashCode`, `ArrayHashCode` and `GuidHashCode`.

The model has six modules, one per concern:

| file | module | what it holds |
|---|---|---|
| `wire.dfy` | `Wire` | identifiers, CLR types, the three lookups, errors |
| `byteorder.dfy` | `ByteOrder` | byte layouts of shorts, ints and longs; concatenation of fixed-width elements |
| `streams.dfy` | `Streams` | `OutputStream` (append-only) and `InputStream` (sequential reads) |
| `portable.dfy` | `PortableUtils` | every `Write*`/`Read*` method as written, each proved against a function giving its bytes |
| `hashes.dfy` | `Hashes` | the three hashes as recursive folds, loop methods proved equal to them, closed forms |
| `framing.dfy` | `Framing` | the corrected codec: fixed byte order, uniform length framing, explicit end-of-stream errors, and decoders with round trips |

Representation choices:

- A C# `short`, `int` or `long` is kept as its bit pattern: `bv16`, `bv32`
  or `bv64`. A `float` or `double` is kept as its IEEE 754 bit pattern, the
  value the source's pointer cast hands to `WriteInt`/`WriteLong`.
- The hashes use the signed `int` range (`Hashes.Int32`). `Hashes.Wrap`
  writes out the two's-complement wrap-around of unchecked C# arithmetic.
- `BitConverter.IsLittleEndian` becomes the explicit parameter
  `littleEndianHost`. A little-endian host writes the most significant byte
  first. The corrected codec fixes the flag to `ByteOrder.WireOrder == true`.
- `Stream.ReadByte` returns -1 at the end of the data. The as-written readers
  keep that (`Streams.StreamByte.EndOfData`). The corrected decoders in
  `Framing` return `EndOfStream` instead.
- A reference that may be null is an `Option`. An exception is an `Err` of
  `Result`, or the `Fail` outcome of a writer method.
- A `System.Type` is reduced to `ClrType`: a scalar kind, an array of a type,
  or anything else. A GUID is the 16 bytes `Guid.ToByteArray` returns.
  `Encoding.UTF8.GetBytes` is a function parameter `utf8`.

## Model

| member | source | states |
|---|---|---|
| `Wire.PrimitiveLength` | modules/clients/dotnet/client-lib/client/impl/portable/GridClientPortableUilts.cs:182-200 | succeeds exactly for the eight scalar ids, with a length in {1, 2, 4, 8}; any other id is `UnsupportedType(id)` |
| `Wire.PrimitiveTypeId` | modules/clients/dotnet/client-lib/client/impl/portable/GridClientPortableUilts.cs:155-175 | non-zero exactly for scalar types other than `UInt32`/`UInt64` (the duplicated `Int32`/`Int64` tests); a non-zero id is the type's `SYSTEM_TYPES` entry, a scalar id whose length is the type's width |
| `Wire.PrimitiveTypeIdFixed` | modules/clients/dotnet/client-lib/client/impl/portable/GridClientPortableUilts.cs:136-147 | every scalar type gets exactly its `SYSTEM_TYPES` entry (`Wire.SystemTypes`), with the length of the type's width, agreeing with `PrimitiveTypeId` wherever that one answers; anything else gets 0 |
| `Wire.PrimitiveArrayTypeId` | modules/clients/dotnet/client-lib/client/impl/portable/GridClientPortableUilts.cs:374-399 | non-zero exactly for arrays of scalars other than `SByte`, `UInt16`, `UInt32`, `UInt64`; the id's element id is the element type's scalar id |
| `Wire.PrimitiveArrayTypeIdFixed` | modules/clients/dotnet/client-lib/client/impl/portable/GridClientPortableUilts.cs:374-399 | non-zero exactly for arrays of scalars, every one of the twelve kinds; the id's element id is the element's (fixed) scalar id |
| `Wire.UnsignedTypeIdsMissed` | modules/clients/dotnet/client-lib/client/impl/portable/GridClientPortableUilts.cs:163-165 | `UInt32`, `UInt64` and arrays of `SByte`, `UInt16` get 0 as written and their id once fixed |
| `ByteOrder.ShortBytes` | modules/clients/dotnet/client-lib/client/impl/portable/GridClientPortableUilts.cs:544-556 | `WriteShort`'s layout is exactly 2 bytes |
| `ByteOrder.IntBytes` | modules/clients/dotnet/client-lib/client/impl/portable/GridClientPortableUilts.cs:581-597 | `WriteInt`'s layout is exactly 4 bytes |
| `ByteOrder.LongBytes` | modules/clients/dotnet/client-lib/client/impl/portable/GridClientPortableUilts.cs:649-673 | `WriteLong`'s layout as written (top byte from `v >> 54`) is exactly 8 bytes |
| `ByteOrder.LongBytesFixed` | modules/clients/dotnet/client-lib/client/impl/portable/GridClientPortableUilts.cs:649-673 | the layout with the top byte from `v >> 56` is exactly 8 bytes |
| `ByteOrder.IntAccumulates` | modules/clients/dotnet/client-lib/client/impl/portable/GridClientPortableUilts.cs:604-624 | from 0, the four `val |= x << k` steps, in the little-endian host's order (shifts 24, 16, 8, 0) or the other host's (0, 8, 16, 24), give `IntOfBits` of the four reads |
| `ByteOrder.IntOfBitsBytes` | modules/clients/dotnet/client-lib/client/impl/portable/GridClientPortableUilts.cs:606-621 | when the four reads are bytes they are the four bytes of the result: the first read is the most significant byte on a little-endian host and the least significant otherwise |
| `ByteOrder.ShortRoundTrip` | modules/clients/dotnet/client-lib/client/impl/portable/GridClientPortableUilts.cs:544-556 | a short's two bytes read back as the short on the same host, and every 2 bytes lay out exactly one short |
| `ByteOrder.IntRoundTrip` | modules/clients/dotnet/client-lib/client/impl/portable/GridClientPortableUilts.cs:581-624 | `ReadInt` of `WriteInt`'s bytes is the original int on the same host, and every 4 bytes lay out exactly one int |
| `ByteOrder.IntBytesMostSignificantFirst` | modules/clients/dotnet/client-lib/client/impl/portable/GridClientPortableUilts.cs:583-596 | with the flag true 0x01020304 is written 01 02 03 04; with it false, 04 03 02 01 |
| `ByteOrder.CrossHostIntMismatch` | modules/clients/dotnet/client-lib/client/impl/portable/GridClientPortableUilts.cs:126 | the int 1 written on a little-endian host reads as 0x01000000 on a big-endian host |
| `ByteOrder.LongRoundTripAsWritten` | modules/clients/dotnet/client-lib/client/impl/portable/GridClientPortableUilts.cs:649-673 | a long survives the as-written layout if and only if its bits 56-63 equal its bits 54-61 |
| `ByteOrder.LongTopByteCollision` | modules/clients/dotnet/client-lib/client/impl/portable/GridClientPortableUilts.cs:653 | 2^62 and 0 are written as the same 8 bytes on either host |
| `ByteOrder.LongRoundTripFixed` | modules/clients/dotnet/client-lib/client/impl/portable/GridClientPortableUilts.cs:649-673 | with the top byte from `v >> 56` every long round-trips, and every 8 bytes lay out exactly one long |
| `ByteOrder.ConcatLayout` | modules/clients/dotnet/client-lib/client/impl/portable/GridClientPortableUilts.cs:571-572 | elements of fixed width w take w·n bytes, element i at offset w·i |
| `ByteOrder.IntBitsOfValue` | modules/clients/dotnet/client-lib/client/impl/portable/GridClientPortableUilts.cs:480 | the 32-bit pattern written for an array length has that length as its value |
| `Streams.ReadByteAt` | modules/clients/dotnet/client-lib/client/impl/portable/GridClientPortableUilts.cs:610-613 | a read yields the byte at the position, or end-of-data exactly past the end |
| `Streams.InputStream.ReadByte` | modules/clients/dotnet/client-lib/client/impl/portable/GridClientPortableUilts.cs:464 | one read yields `ReadByteAt` and advances one byte, never past the end |
| `Streams.OutputStream.WriteByte` | modules/clients/dotnet/client-lib/client/impl/portable/GridClientPortableUilts.cs:454 | the stream grows by exactly the byte written |
| `PortableUtils.BoolByte` | modules/clients/dotnet/client-lib/client/impl/portable/GridClientPortableUilts.cs:452-455 | true is written as 1, false as 0, and no other byte is written |
| `PortableUtils.UnboxError` | modules/clients/dotnet/client-lib/client/impl/portable/GridClientPortableUilts.cs:218-249 | unboxing null throws `NullReference`, unboxing a value of another type `InvalidCast` |
| `PortableUtils.UnboxKind` | modules/clients/dotnet/client-lib/client/impl/portable/GridClientPortableUilts.cs:216-249 | a type for exactly the eight listed ids, whose width is the id's length; never an unsigned type or `Char` (TYPE_CHAR unboxes a short) |
| `PortableUtils.PrimitivePayload` | modules/clients/dotnet/client-lib/client/impl/portable/GridClientPortableUilts.cs:213-256 | success exactly when the object is a value of the type the id's branch unboxes (`UnboxKind`); `UnsupportedType` exactly when `PrimitiveLength` refuses the id; `NullReference` exactly for a null object under an accepted id; on success exactly `PrimitiveLength(id)` bytes, the width of the value's type; otherwise `InvalidCast` |
| `PortableUtils.CharPrimitiveRefused` | modules/clients/dotnet/client-lib/client/impl/portable/GridClientPortableUilts.cs:227-229 | a char's own id is `TYPE_CHAR`, and its payload there fails with `InvalidCast` |
| `PortableUtils.BooleanArrayLayout` | modules/clients/dotnet/client-lib/client/impl/portable/GridClientPortableUilts.cs:472-485 | null is the single byte 0; a present array is 1, its length as an int, then element i as a 0/1 byte at 5 + i: 5 + n bytes in all |
| `PortableUtils.ByteArrayBytes` | modules/clients/dotnet/client-lib/client/impl/portable/GridClientPortableUilts.cs:528-537 | null is the byte 0; a present array is 1 followed by the raw bytes, with no length |
| `PortableUtils.ShortArrayLayout` | modules/clients/dotnet/client-lib/client/impl/portable/GridClientPortableUilts.cs:563-574 | null is the byte 0; a present short or char array is 1 then element i's 2 bytes at 1 + 2i, with no length |
| `PortableUtils.IntArrayLayout` | modules/clients/dotnet/client-lib/client/impl/portable/GridClientPortableUilts.cs:631-642 | null is the byte 0; a present int or float array is 1 then element i's 4 bytes at 1 + 4i, with no length |
| `PortableUtils.LongArrayLayout` | modules/clients/dotnet/client-lib/client/impl/portable/GridClientPortableUilts.cs:680-691 | null is the byte 0; a present long or double array is 1 then element i's 8 bytes at 1 + 8i, with no length |
| `PortableUtils.StringBytes` | modules/clients/dotnet/client-lib/client/impl/portable/GridClientPortableUilts.cs:264-275 | null is the byte 0; a present string is 1 followed by exactly its UTF-8 bytes |
| `PortableUtils.PrimitiveArrayBytes` | modules/clients/dotnet/client-lib/client/impl/portable/GridClientPortableUilts.cs:407-445 | every id outside the bool, byte, short, int, long and char arrays (float and double included) is `UnsupportedType`; inside, success exactly for null or an array the cast accepts (the signed array or its unsigned twin); null writes the single byte 0 |
| `PortableUtils.FloatArraysRefused` | modules/clients/dotnet/client-lib/client/impl/portable/GridClientPortableUilts.cs:440-443 | a float array looks up to `TYPE_ARRAY_FLOAT`, which the dispatch refuses |
| `PortableUtils.DoubleArraysRefused` | modules/clients/dotnet/client-lib/client/impl/portable/GridClientPortableUilts.cs:440-443 | a double array looks up to `TYPE_ARRAY_DOUBLE`, which the dispatch refuses |
| `PortableUtils.UnsignedArraysUnrouted` | modules/clients/dotnet/client-lib/client/impl/portable/GridClientPortableUilts.cs:382-388 | arrays of `sbyte`, `ushort`, `uint` and `ulong` look up to 0, although the dispatch writes each exactly as its signed twin |
| `PortableUtils.UnframedIntArrayAmbiguity` | modules/clients/dotnet/client-lib/client/impl/portable/GridClientPortableUilts.cs:631-642 | an empty int array followed by the int 5 is the same bytes as the array [5] |
| `PortableUtils.ByteBits` | modules/clients/dotnet/client-lib/client/impl/portable/GridClientPortableUilts.cs:610-613 | a read byte contributes its 8 bits; the -1 of end-of-data contributes all ones |
| `PortableUtils.ReadIntAt` | modules/clients/dotnet/client-lib/client/impl/portable/GridClientPortableUilts.cs:604-624 | with four bytes available, `ReadInt` returns the int those bytes lay out |
| `PortableUtils.ReadIntPastEnd` | modules/clients/dotnet/client-lib/client/impl/portable/GridClientPortableUilts.cs:604-624 | at the end of the data `ReadInt` returns -1, the same as for the bytes FF FF FF FF |
| `PortableUtils.ReadBooleanArrayAt` | modules/clients/dotnet/client-lib/client/impl/portable/GridClientPortableUilts.cs:492-507 | null exactly when the sentinel read is 0; the only error is `Overflow` (a negative length); the position never passes the end |
| `PortableUtils.BooleanArrayRoundTrip` | modules/clients/dotnet/client-lib/client/impl/portable/GridClientPortableUilts.cs:472-507 | `ReadBooleanArray` of `WriteBooleanArray`'s bytes, on the same host, is the same array (null included) and stops at its end, whatever follows |
| `PortableUtils.WriteBoolean` | modules/clients/dotnet/client-lib/client/impl/portable/GridClientPortableUilts.cs:452-455 | appends exactly the 0/1 byte of the value |
| `PortableUtils.ReadBoolean` | modules/clients/dotnet/client-lib/client/impl/portable/GridClientPortableUilts.cs:462-465 | true exactly when the byte read is 1; advances one byte |
| `PortableUtils.WriteByte` | modules/clients/dotnet/client-lib/client/impl/portable/GridClientPortableUilts.cs:515-520 | appends the byte and returns 1 |
| `PortableUtils.WriteShort` | modules/clients/dotnet/client-lib/client/impl/portable/GridClientPortableUilts.cs:544-556 | appends `ShortBytes` of the value |
| `PortableUtils.WriteInt` | modules/clients/dotnet/client-lib/client/impl/portable/GridClientPortableUilts.cs:581-597 | appends `IntBytes` of the value |
| `PortableUtils.ReadInt` | modules/clients/dotnet/client-lib/client/impl/portable/GridClientPortableUilts.cs:604-624 | ORs the four reads into `val` step by step and returns `ReadIntAt` of the stream, advancing four bytes, never past the end |
| `PortableUtils.ReadFour` | modules/clients/dotnet/client-lib/client/impl/portable/GridClientPortableUilts.cs:610-613 | four reads yield the bytes at the next four positions (end-of-data past the end) and advance at most four |
| `PortableUtils.WriteLong` | modules/clients/dotnet/client-lib/client/impl/portable/GridClientPortableUilts.cs:649-673 | appends `LongBytes` of the value, the as-written layout |
| `PortableUtils.WriteFloat` | modules/clients/dotnet/client-lib/client/impl/portable/GridClientPortableUilts.cs:716-719 | appends the int layout of the float's bit pattern |
| `PortableUtils.WriteDouble` | modules/clients/dotnet/client-lib/client/impl/portable/GridClientPortableUilts.cs:744-747 | appends the long layout of the double's bit pattern |
| `PortableUtils.WritePrimitive` | modules/clients/dotnet/client-lib/client/impl/portable/GridClientPortableUilts.cs:208-257 | always appends a 0 byte and the 4-byte id; then the payload on success, and nothing more when it throws, null objects included |
| `PortableUtils.WriteString` | modules/clients/dotnet/client-lib/client/impl/portable/GridClientPortableUilts.cs:264-275 | appends `StringBytes` of the value |
| `PortableUtils.WriteGuid` | modules/clients/dotnet/client-lib/client/impl/portable/GridClientPortableUilts.cs:356-367 | always appends 1 and the 16 bytes, 17 in all: the null branch cannot be taken |
| `PortableUtils.WriteBooleanArray` | modules/clients/dotnet/client-lib/client/impl/portable/GridClientPortableUilts.cs:472-485 | appends `BooleanArrayBytes` of the value |
| `PortableUtils.ReadBooleanArray` | modules/clients/dotnet/client-lib/client/impl/portable/GridClientPortableUilts.cs:492-507 | returns and advances as `ReadBooleanArrayAt` says |
| `PortableUtils.ReadBooleanElements` | modules/clients/dotnet/client-lib/client/impl/portable/GridClientPortableUilts.cs:498-503 | fills a fresh array, element i true exactly when the i-th byte read is 1 |
| `PortableUtils.WriteByteArray` | modules/clients/dotnet/client-lib/client/impl/portable/GridClientPortableUilts.cs:528-537 | appends `ByteArrayBytes` of the value |
| `PortableUtils.WriteShortArray` | modules/clients/dotnet/client-lib/client/impl/portable/GridClientPortableUilts.cs:563-574 | appends `ShortArrayBytes` of the value |
| `PortableUtils.WriteCharArray` | modules/clients/dotnet/client-lib/client/impl/portable/GridClientPortableUilts.cs:698-709 | appends the short-array layout of the chars' 16-bit values |
| `PortableUtils.WriteIntArray` | modules/clients/dotnet/client-lib/client/impl/portable/GridClientPortableUilts.cs:631-642 | appends `IntArrayBytes` of the value |
| `PortableUtils.WriteLongArray` | modules/clients/dotnet/client-lib/client/impl/portable/GridClientPortableUilts.cs:680-691 | appends `LongArrayBytes` of the value |
| `PortableUtils.WriteLongElements` | modules/clients/dotnet/client-lib/client/impl/portable/GridClientPortableUilts.cs:688-689 | appends the as-written long layout of each element, in order |
| `PortableUtils.WriteFloatArray` | modules/clients/dotnet/client-lib/client/impl/portable/GridClientPortableUilts.cs:726-737 | appends the int-array layout of the floats' bit patterns |
| `PortableUtils.WriteDoubleArray` | modules/clients/dotnet/client-lib/client/impl/portable/GridClientPortableUilts.cs:754-765 | appends the long-array layout of the doubles' bit patterns |
| `PortableUtils.WriteDoubleElements` | modules/clients/dotnet/client-lib/client/impl/portable/GridClientPortableUilts.cs:762-763 | appends the as-written long layout of each bit pattern, in order |
| `PortableUtils.WritePrimitiveArray` | modules/clients/dotnet/client-lib/client/impl/portable/GridClientPortableUilts.cs:407-445 | appends `PrimitiveArrayBytes` on success and nothing on failure, with the matching outcome |
| `Hashes.Wrap` | modules/clients/dotnet/client-lib/client/impl/portable/GridClientPortableUilts.cs:306 | the result is an `int` congruent to its argument modulo 2^32 |
| `Hashes.FromBits32` | modules/clients/dotnet/client-lib/client/impl/portable/GridClientPortableUilts.cs:348 | the `int` cast of a 32-bit pattern is its two's-complement value |
| `Hashes.StringHashPolynomial` | modules/clients/dotnet/client-lib/client/impl/portable/GridClientPortableUilts.cs:295-310 | the string hash is s[0]·31^(n-1) + … + s[n-1], wrapped to an `int` |
| `Hashes.StringHashExamples` | modules/clients/dotnet/client-lib/client/impl/portable/GridClientPortableUilts.cs:295-310 | "" hashes to 0, "A" to 65, "AA" to 2080 |
| `Hashes.StringHashCode` | modules/clients/dotnet/client-lib/client/impl/portable/GridClientPortableUilts.cs:295-310 | a null string is `NullReference`; otherwise the loop returns the string-hash fold |
| `Hashes.ArrayHashPolynomial` | modules/clients/dotnet/client-lib/client/impl/portable/GridClientPortableUilts.cs:315-326 | the array hash is 31^n plus the polynomial of the element hashes, wrapped |
| `Hashes.NullArrayHash` | modules/clients/dotnet/client-lib/client/impl/portable/GridClientPortableUilts.cs:322 | an array of n nulls hashes to 31^n, wrapped: a null contributes 0 |
| `Hashes.ArrayHashExamples` | modules/clients/dotnet/client-lib/client/impl/portable/GridClientPortableUilts.cs:315-326 | [] hashes to 1, [null] to 31, [x] to 31 + hash(x), wrapped |
| `Hashes.ArrayHashCode` | modules/clients/dotnet/client-lib/client/impl/portable/GridClientPortableUilts.cs:315-326 | a null array is `NullReference`; otherwise the loop returns the array-hash fold |
| `Hashes.PackIsLong` | modules/clients/dotnet/client-lib/client/impl/portable/GridClientPortableUilts.cs:337-344 | packing 8 bytes as `msb`/`lsb` is reading a long most-significant-byte first |
| `Hashes.PackHalves` | modules/clients/dotnet/client-lib/client/impl/portable/GridClientPortableUilts.cs:337-348 | the high and low halves of a packed long are the ints read from its first and last 4 bytes |
| `Hashes.GuidHashFolds` | modules/clients/dotnet/client-lib/client/impl/portable/GridClientPortableUilts.cs:346-348 | the GUID hash is high32(msb) ^ low32(msb) ^ high32(lsb) ^ low32(lsb) |
| `Hashes.MsbWords` | modules/clients/dotnet/client-lib/client/impl/portable/GridClientPortableUilts.cs:340-341 | the halves of `msb` are the ints read from GUID bytes 0-3 and 4-7 |
| `Hashes.LsbWords` | modules/clients/dotnet/client-lib/client/impl/portable/GridClientPortableUilts.cs:343-344 | the halves of `lsb` are the ints read from GUID bytes 8-11 and 12-15 |
| `Hashes.GuidHashHalvesCommute` | modules/clients/dotnet/client-lib/client/impl/portable/GridClientPortableUilts.cs:333-349 | swapping a GUID's two 8-byte halves leaves its hash unchanged |
| `Hashes.GuidHashCode` | modules/clients/dotnet/client-lib/client/impl/portable/GridClientPortableUilts.cs:333-349 | the two loops and the fold return the GUID-hash function |
| `Framing.DecodeInt` | modules/clients/dotnet/client-lib/client/impl/portable/GridClientPortableUilts.cs:604-624 | succeeds exactly when 4 bytes remain and then advances 4; otherwise `EndOfStream` |
| `Framing.DecodeIntRoundTrip` | modules/clients/dotnet/client-lib/client/impl/portable/GridClientPortableUilts.cs:581-624 | an int written in the wire order reads back from any position |
| `Framing.ElementCodecs` | modules/clients/dotnet/client-lib/client/impl/portable/GridClientPortableUilts.cs:452-465 | the bool, byte, short, int and fixed long element decoders undo their encoders at widths 1, 1, 2, 4, 8 |
| `Framing.BooleanArrayIsFramed` | modules/clients/dotnet/client-lib/client/impl/portable/GridClientPortableUilts.cs:472-485 | the boolean array, written in the wire order, already has the uniform framed layout |
| `Framing.DecodeSentinel` | modules/clients/dotnet/client-lib/client/impl/portable/GridClientPortableUilts.cs:494 | 1 is present, 0 is null, any other byte is `BadSentinel`, the end of data is `EndOfStream` |
| `Framing.DecodeElements` | modules/clients/dotnet/client-lib/client/impl/portable/GridClientPortableUilts.cs:498-503 | n elements, or `EndOfStream` |
| `Framing.DecodeFramedArray` | modules/clients/dotnet/client-lib/client/impl/portable/GridClientPortableUilts.cs:492-507 | null exactly for a 0 sentinel; errors only `EndOfStream`, `BadSentinel`, `MalformedLength` |
| `Framing.FramedRoundTrip` | modules/clients/dotnet/client-lib/client/impl/portable/GridClientPortableUilts.cs:472-507 | a framed array of any element codec reads back as itself, null included, stopping at its end |
| `Framing.FramedSelfDelimiting` | modules/clients/dotnet/client-lib/client/impl/portable/GridClientPortableUilts.cs:639-640 | equal bytes of two framed arrays plus trailers mean equal arrays and equal trailers |
| `Framing.FramedTruncated` | modules/clients/dotnet/client-lib/client/impl/portable/GridClientPortableUilts.cs:498-503 | every proper prefix of a framed array is `EndOfStream` |
| `Framing.PrimitiveArrayBytesFixed` | modules/clients/dotnet/client-lib/client/impl/portable/GridClientPortableUilts.cs:407-445 | all eight array ids are routed; success exactly for null or an array the cast accepts, unsigned twins included; other ids `UnsupportedType` |
| `Framing.EveryArrayKindRoutable` | modules/clients/dotnet/client-lib/client/impl/portable/GridClientPortableUilts.cs:440-443 | every primitive array, float, double and the unsigned integer arrays included, gets an id from the corrected lookup that the corrected dispatch writes |
| `Framing.DecodePrimitiveArray` | modules/clients/dotnet/client-lib/client/impl/portable/GridClientPortableUilts.cs:407-445 | ids that are not primitive arrays are `UnsupportedType`; a success advances within the data |
| `Framing.SignedTwin` | modules/clients/dotnet/client-lib/client/impl/portable/GridClientPortableUilts.cs:382-388 | an unsigned integer array is read back as the signed array of the same bits and element id; every other object as itself |
| `Framing.PrimitiveArrayRoundTrip` | modules/clients/dotnet/client-lib/client/impl/portable/GridClientPortableUilts.cs:407-445 | whatever the corrected dispatch writes reads back under the same id as the same elements: the same object, or its signed twin for an unsigned array |
| `Framing.ValueBytes` | modules/clients/dotnet/client-lib/client/impl/portable/GridClientPortableUilts.cs:213-256 | a scalar's corrected payload has its type's width |
| `Framing.PrimitivePayloadFixed` | modules/clients/dotnet/client-lib/client/impl/portable/GridClientPortableUilts.cs:213-256 | succeeds exactly under the value's own type id, with `PrimitiveLength(id)` bytes |
| `Framing.EveryScalarWritable` | modules/clients/dotnet/client-lib/client/impl/portable/GridClientPortableUilts.cs:213-256 | every scalar value is accepted under its own type id |
| `Framing.CharPrimitiveAccepted` | modules/clients/dotnet/client-lib/client/impl/portable/GridClientPortableUilts.cs:227-229 | a char under `TYPE_CHAR` is written as its 2 bytes |
| `Framing.ScalarPayloadRoundTrip` | modules/clients/dotnet/client-lib/client/impl/portable/GridClientPortableUilts.cs:233-241 | int and long payloads read back whole |
| `Framing.PayloadAgreesWithCorrected` | modules/clients/dotnet/client-lib/client/impl/portable/GridClientPortableUilts.cs:213-256 | on a host in the wire order, whatever the as-written writer accepts it writes as the corrected payload: byte for byte except the first byte of a long or double; the corrected writer accepts it under the same id, except a short under `TYPE_CHAR` |
| `Framing.PrimitiveBytesFixed` | modules/clients/dotnet/client-lib/client/impl/portable/GridClientPortableUilts.cs:208-257 | 0, the id in the wire order, then exactly `PrimitiveLength(id)` bytes, for a value under its own type id |
| `Framing.ScalarOf` | modules/clients/dotnet/client-lib/client/impl/portable/GridClientPortableUilts.cs:208-257 | a payload decodes to a value whose type looks up to the id |
| `Framing.DecodePrimitive` | modules/clients/dotnet/client-lib/client/impl/portable/GridClientPortableUilts.cs:208-257 | fewer than 5 bytes is `EndOfStream`; a non-zero marker is `BadSentinel`; an unknown id is `UnsupportedType`; success consumes exactly `PrimitiveLength(id)` payload bytes |
| `Framing.SignedTwinValue` | modules/clients/dotnet/client-lib/client/impl/portable/GridClientPortableUilts.cs:136-147 | an unsigned value becomes the signed value of the same bits, payload and id; a signed value stays as it is |
| `Framing.PrimitiveRoundTrip` | modules/clients/dotnet/client-lib/client/impl/portable/GridClientPortableUilts.cs:208-257 | every scalar the corrected writer accepts reads back bit for bit, stopping at its end: as itself for a signed type, as its signed twin for `sbyte`, `ushort`, `uint` and `ulong` |
| `Framing.UnsignedReadsAsSigned` | modules/clients/dotnet/client-lib/client/impl/portable/GridClientPortableUilts.cs:141-142 | a `uint` is written under `TYPE_INT` and reads back as the `int` with the same bits |
| `Framing.PrimitiveTruncated` | modules/clients/dotnet/client-lib/client/impl/portable/GridClientPortableUilts.cs:610-613 | every proper prefix of a written scalar is `EndOfStream` |
| `Framing.DecodeString` | modules/clients/dotnet/client-lib/client/impl/portable/GridClientPortableUilts.cs:264-275 | null takes 1 byte; a present string takes exactly the given byte count after the sentinel; errors only `EndOfStream`, `BadSentinel` |
| `Framing.StringRoundTrip` | modules/clients/dotnet/client-lib/client/impl/portable/GridClientPortableUilts.cs:264-275 | `WriteString`'s bytes read back as null or the UTF-8 bytes, given their count |
| `Framing.GuidBytes` | modules/clients/dotnet/client-lib/client/impl/portable/GridClientPortableUilts.cs:356-367 | null is the byte 0; a present GUID is 1 then its 16 bytes |
| `Framing.DecodeGuid` | modules/clients/dotnet/client-lib/client/impl/portable/GridClientPortableUilts.cs:356-367 | a present GUID takes exactly 17 bytes, null 1; errors only `EndOfStream`, `BadSentinel` |
| `Framing.GuidRoundTrip` | modules/clients/dotnet/client-lib/client/impl/portable/GridClientPortableUilts.cs:356-367 | a GUID, present or null, reads back as itself; a present one is what `WriteGuid` writes |

## Left out

- `WriteStringArray` (`:277-288`) is unfinished in the source: it writes the sentinel and nothing else. It is not modelled.
- The static `SYSTEM_TYPES` dictionary (`:128-148`) is never read by the class. Its twelve entries are the function `Wire.SystemTypes`, which the contracts of both scalar lookups refer to.
- `System.IO.Stream` itself is reduced to an append-only byte sequence and a read position. Its own exceptions are not modelled.
- `Encoding.UTF8.GetBytes` is a function parameter, and the corrected string decoder returns the UTF-8 bytes, not the text: UTF-8 decoding is not part of this model.
- `Guid.ToByteArray` (its mixed-endian field order) is not modelled: a GUID is its 16 bytes.
- Floats and doubles are only their bit patterns. IEEE 754 arithmetic and the unsafe pointer casts are not modelled.
- `ArrayHashCode`'s call to `item.GetHashCode()` is the function parameter `itemHash`.
- `Framing.PrimitivePayloadFixed` takes a non-null value: a null object under a scalar id is the same `NullReference` as in `PortableUtils.PrimitivePayload`, which the corrections leave as it is.
- `PortableUtils.WriteLong`: the eight `WriteByte` calls are written as one loop over the eight bytes. The bytes appended are the same.
- The corrected string decoder takes its byte count from the surrounding message. That framing is not part of this model.
- `CacheQueriesProxy.java` and `GridOsDrProcessor.java` are not part of this model: they only delegate or throw.

## Findings

| source | as written | input that shows it | evidently intended | confidence | as-written member | corrected member |
|---|---|---|---|---|---|---|
| GridClientPortableUilts.cs:126, :546, :583, :608, :651 | byte order follows the host's `BitConverter.IsLittleEndian` | int 1 written on a little-endian host is read as 0x01000000 on a big-endian host | one protocol-wide order, most significant byte first | high, not executed | `ByteOrder.CrossHostIntMismatch` | `Framing.DecodeIntRoundTrip` |
| GridClientPortableUilts.cs:653, :671 | `WriteLong` takes the top byte from `val >> 54` | 2^62 and 0 are written as the same 8 bytes | top byte from `val >> 56` | high, not executed | `ByteOrder.LongRoundTripAsWritten` | `ByteOrder.LongRoundTripFixed` |
| GridClientPortableUilts.cs:163, :165 | `Int32` and `Int64` tested twice; `UInt32`, `UInt64` never matched | `PrimitiveTypeId(typeof(uint))` is 0 | `UInt32` maps to `TYPE_INT`, `UInt64` to `TYPE_LONG`, as in `SYSTEM_TYPES` | high, not executed | `Wire.UnsignedTypeIdsMissed` | `Wire.PrimitiveTypeIdFixed` |
| GridClientPortableUilts.cs:382-388 | the second test compares the array type, not its element type | `PrimitiveArrayTypeId(typeof(sbyte[]))` is 0, though the dispatch writes an `sbyte[]` under `TYPE_ARRAY_BYTE` | test the element type | high, not executed | `PortableUtils.UnsignedArraysUnrouted` | `Wire.PrimitiveArrayTypeIdFixed` |
| GridClientPortableUilts.cs:440-443 | float and double array ids fall into the throwing default | a `float[]` looks up to `TYPE_ARRAY_FLOAT` and is refused | route them to `WriteFloatArray`/`WriteDoubleArray` | high, not executed | `PortableUtils.FloatArraysRefused` | `Framing.EveryArrayKindRoutable` |
| GridClientPortableUilts.cs:535, :571, :639, :688 | only the boolean array carries its length | `[]` then the int 5 equals `[5]` as int-array bytes | every array framed as sentinel, length, elements | medium, not executed | `PortableUtils.UnframedIntArrayAmbiguity` | `Framing.FramedSelfDelimiting` |
| GridClientPortableUilts.cs:228-229 | `TYPE_CHAR` unboxes the object as `short` | a boxed `char` under its own id throws `InvalidCastException` | a char is written under `TYPE_CHAR` | medium, not executed | `PortableUtils.CharPrimitiveRefused` | `Framing.CharPrimitiveAccepted` |
| GridClientPortableUilts.cs:464, :610-613 | end of data reads as -1 and is OR-ed in | `ReadInt` on an empty stream returns -1, like FF FF FF FF | report end of stream as an error | medium, not executed | `PortableUtils.ReadIntPastEnd` | `Framing.PrimitiveTruncated` |
