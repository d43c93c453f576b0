/** The byte layouts of the fixed-width scalars (WriteShort, WriteInt,
    WriteLong and the readers' inverse), parameterised by the host's byte
    order as the source is, and the concatenation of fixed-width elements
    that the array writers produce.

    The source chooses the order from `BitConverter.IsLittleEndian`: a
    little-endian host writes the most significant byte first, a big-endian
    host the least significant byte first. Here that flag is the explicit
    parameter `littleEndianHost`. */
module ByteOrder {

  /** The protocol-fixed order the corrected codec uses everywhere: the
      little-endian host's layout, most significant byte first. */
  const WireOrder: bool := true

  /** The two bytes WriteShort appends for `v`. */
  function ShortBytes(v: bv16, littleEndianHost: bool): (r: seq<bv8>)
    ensures |r| == 2
  {
    var hi, lo := (v >> 8) as bv8, (v & 0xFF) as bv8;
    if littleEndianHost then [hi, lo] else [lo, hi]
  }

  /** Reassembles a short from the two bytes ShortBytes lays out. */
  function ShortFromBytes(b: seq<bv8>, littleEndianHost: bool): bv16
    requires |b| == 2
  {
    if littleEndianHost then (b[0] as bv16 << 8) | b[1] as bv16
    else (b[1] as bv16 << 8) | b[0] as bv16
  }

  /** The four bytes WriteInt appends for `v`. */
  function IntBytes(v: bv32, littleEndianHost: bool): (r: seq<bv8>)
    ensures |r| == 4
  {
    var b3, b2, b1, b0 :=
      (v >> 24) as bv8, ((v >> 16) & 0xFF) as bv8, ((v >> 8) & 0xFF) as bv8, (v & 0xFF) as bv8;
    if littleEndianHost then [b3, b2, b1, b0] else [b0, b1, b2, b3]
  }

  /** What ReadInt computes from four bytes that are all present. */
  function IntFromBytes(b: seq<bv8>, littleEndianHost: bool): bv32
    requires |b| == 4
  {
    IntOfBits(b[0] as bv32, b[1] as bv32, b[2] as bv32, b[3] as bv32, littleEndianHost)
  }

  /** ReadInt's accumulation `val |= x << k` over its four reads, in the
      host's order. */
  function IntOfBits(x0: bv32, x1: bv32, x2: bv32, x3: bv32, littleEndianHost: bool): bv32
  {
    if littleEndianHost then (x0 << 24) | (x1 << 16) | (x2 << 8) | x3
    else x0 | (x1 << 8) | (x2 << 16) | (x3 << 24)
  }

  /** The bridge from ReadInt's four `val |= x << k` steps, from 0, to
      IntOfBits, for either host; what the result means is stated by
      IntOfBitsBytes and IntRoundTrip. */
  lemma IntAccumulates(x0: bv32, x1: bv32, x2: bv32, x3: bv32, littleEndianHost: bool)
    ensures littleEndianHost ==>
      ((((0 | (x0 << 24)) | (x1 << 16)) | (x2 << 8)) | x3) == IntOfBits(x0, x1, x2, x3, littleEndianHost)
    ensures !littleEndianHost ==>
      ((((0 | x0) | (x1 << 8)) | (x2 << 16)) | (x3 << 24)) == IntOfBits(x0, x1, x2, x3, littleEndianHost)
  {
  }

  /** When the four reads are bytes, IntOfBits holds them as its bytes, the
      first read most significant on a little-endian host and least
      significant otherwise. */
  lemma IntOfBitsBytes(x0: bv32, x1: bv32, x2: bv32, x3: bv32, littleEndianHost: bool)
    requires x0 < 256 && x1 < 256 && x2 < 256 && x3 < 256
    ensures littleEndianHost ==>
      var v := IntOfBits(x0, x1, x2, x3, littleEndianHost);
      v >> 24 == x0 && (v >> 16) & 0xFF == x1 && (v >> 8) & 0xFF == x2 && v & 0xFF == x3
    ensures !littleEndianHost ==>
      var v := IntOfBits(x0, x1, x2, x3, littleEndianHost);
      v & 0xFF == x0 && (v >> 8) & 0xFF == x1 && (v >> 16) & 0xFF == x2 && v >> 24 == x3
  {
  }

  /** The eight bytes WriteLong appends for `v`, as written: the most
      significant position takes `v >> 54`, so it carries bits 54 to 61, and
      bits 62 and 63 are never written. */
  function LongBytes(v: bv64, littleEndianHost: bool): (r: seq<bv8>)
    ensures |r| == 8
  {
    var top := ((v >> 54) & 0xFF) as bv8;
    var b6, b5, b4 := ((v >> 48) & 0xFF) as bv8, ((v >> 40) & 0xFF) as bv8, ((v >> 32) & 0xFF) as bv8;
    var b3, b2, b1, b0 :=
      ((v >> 24) & 0xFF) as bv8, ((v >> 16) & 0xFF) as bv8, ((v >> 8) & 0xFF) as bv8, (v & 0xFF) as bv8;
    if littleEndianHost then [top, b6, b5, b4, b3, b2, b1, b0]
    else [b0, b1, b2, b3, b4, b5, b6, top]
  }

  /** WriteLong's layout with the top byte taken from `v >> 56`. */
  function LongBytesFixed(v: bv64, littleEndianHost: bool): (r: seq<bv8>)
    ensures |r| == 8
  {
    var b7 := (v >> 56) as bv8;
    var b6, b5, b4 := ((v >> 48) & 0xFF) as bv8, ((v >> 40) & 0xFF) as bv8, ((v >> 32) & 0xFF) as bv8;
    var b3, b2, b1, b0 :=
      ((v >> 24) & 0xFF) as bv8, ((v >> 16) & 0xFF) as bv8, ((v >> 8) & 0xFF) as bv8, (v & 0xFF) as bv8;
    if littleEndianHost then [b7, b6, b5, b4, b3, b2, b1, b0]
    else [b0, b1, b2, b3, b4, b5, b6, b7]
  }

  /** Reassembles a long from eight bytes in the host's layout. */
  function LongFromBytes(b: seq<bv8>, littleEndianHost: bool): bv64
    requires |b| == 8
  {
    if littleEndianHost then
      (b[0] as bv64 << 56) | (b[1] as bv64 << 48) | (b[2] as bv64 << 40) | (b[3] as bv64 << 32) |
      (b[4] as bv64 << 24) | (b[5] as bv64 << 16) | (b[6] as bv64 << 8) | b[7] as bv64
    else
      b[0] as bv64 | (b[1] as bv64 << 8) | (b[2] as bv64 << 16) | (b[3] as bv64 << 24) |
      (b[4] as bv64 << 32) | (b[5] as bv64 << 40) | (b[6] as bv64 << 48) | (b[7] as bv64 << 56)
  }

  /** A short written and read back on the same host is unchanged, and every
      two bytes are the layout of exactly one short. */
  lemma ShortRoundTrip(v: bv16, b: seq<bv8>, littleEndianHost: bool)
    requires |b| == 2
    ensures ShortFromBytes(ShortBytes(v, littleEndianHost), littleEndianHost) == v
    ensures ShortBytes(ShortFromBytes(b, littleEndianHost), littleEndianHost) == b
  {
  }

  /** An int written by WriteInt and read by ReadInt on the same host is
      unchanged, and every four bytes are the layout of exactly one int. */
  lemma IntRoundTrip(v: bv32, b: seq<bv8>, littleEndianHost: bool)
    requires |b| == 4
    ensures IntFromBytes(IntBytes(v, littleEndianHost), littleEndianHost) == v
    ensures IntBytes(IntFromBytes(b, littleEndianHost), littleEndianHost) == b
  {
  }

  /** With the flag set, the most significant byte comes first:
      0x01020304 is laid out as 01 02 03 04. */
  lemma IntBytesMostSignificantFirst()
    ensures IntBytes(0x0102_0304, true) == [1, 2, 3, 4]
    ensures IntBytes(0x0102_0304, false) == [4, 3, 2, 1]
  {
  }

  /** The host-dependent order: bytes written on a little-endian host and
      read on a big-endian one give a different int. */
  lemma CrossHostIntMismatch()
    ensures IntFromBytes(IntBytes(1, true), false) == 0x0100_0000
  {
  }

  /** The long round trip through the as-written layout holds exactly for
      the values whose bits 56 to 63 equal their bits 54 to 61. */
  lemma LongRoundTripAsWritten(v: bv64, littleEndianHost: bool)
    ensures LongFromBytes(LongBytes(v, littleEndianHost), littleEndianHost) == v
        <==> v >> 56 == (v >> 54) & 0xFF
  {
    var r := LongBytes(v, littleEndianHost);
    var top := ((v >> 54) & 0xFF) as bv8;
    LongFromBytesAssembles(r, littleEndianHost);
    assert LongFromBytes(r, littleEndianHost) == Assemble(top,
      ((v >> 48) & 0xFF) as bv8, ((v >> 40) & 0xFF) as bv8, ((v >> 32) & 0xFF) as bv8,
      ((v >> 24) & 0xFF) as bv8, ((v >> 16) & 0xFF) as bv8, ((v >> 8) & 0xFF) as bv8, (v & 0xFF) as bv8);
    AssembleTopByte(v, top);
  }

  /** The as-written layout loses bits 62 and 63: 2^62 and 0 are written as
      the same eight bytes, on either host. */
  lemma LongTopByteCollision(littleEndianHost: bool)
    ensures LongBytes(0x4000_0000_0000_0000, littleEndianHost) == LongBytes(0, littleEndianHost)
  {
  }

  /** With the top byte taken from `v >> 56`, every long round-trips and
      every eight bytes are the layout of exactly one long. */
  lemma LongRoundTripFixed(v: bv64, b: seq<bv8>, littleEndianHost: bool)
    requires |b| == 8
    ensures LongFromBytes(LongBytesFixed(v, littleEndianHost), littleEndianHost) == v
    ensures LongBytesFixed(LongFromBytes(b, littleEndianHost), littleEndianHost) == b
  {
    var r := LongBytesFixed(v, littleEndianHost);
    LongFromBytesAssembles(r, littleEndianHost);
    AssembleTopByte(v, (v >> 56) as bv8);
    LongBytesFixedOnto(b, littleEndianHost);
  }

  lemma LongBytesFixedOnto(b: seq<bv8>, littleEndianHost: bool)
    requires |b| == 8
    ensures LongBytesFixed(LongFromBytes(b, littleEndianHost), littleEndianHost) == b
  {
    LongFromBytesAssembles(b, littleEndianHost);
    var u := LongFromBytes(b, littleEndianHost);
    if littleEndianHost {
      AssembleBytes(u, b[0], b[1], b[2], b[3], b[4], b[5], b[6], b[7]);
      LongBytesFixedOf(u, b[0], b[1], b[2], b[3], b[4], b[5], b[6], b[7]);
    } else {
      AssembleBytes(u, b[7], b[6], b[5], b[4], b[3], b[2], b[1], b[0]);
      LongBytesFixedOf(u, b[7], b[6], b[5], b[4], b[3], b[2], b[1], b[0]);
    }
    assert b == [b[0], b[1], b[2], b[3], b[4], b[5], b[6], b[7]];
  }

  lemma LongBytesFixedOf(u: bv64, b7: bv8, b6: bv8, b5: bv8, b4: bv8, b3: bv8, b2: bv8, b1: bv8, b0: bv8)
    requires (u >> 56) as bv8 == b7 && ((u >> 48) & 0xFF) as bv8 == b6
    requires ((u >> 40) & 0xFF) as bv8 == b5 && ((u >> 32) & 0xFF) as bv8 == b4
    requires ((u >> 24) & 0xFF) as bv8 == b3 && ((u >> 16) & 0xFF) as bv8 == b2
    requires ((u >> 8) & 0xFF) as bv8 == b1 && (u & 0xFF) as bv8 == b0
    ensures LongBytesFixed(u, true) == [b7, b6, b5, b4, b3, b2, b1, b0]
    ensures LongBytesFixed(u, false) == [b0, b1, b2, b3, b4, b5, b6, b7]
  {
  }

  /** A long from its eight bytes, most significant first. */
  function Assemble(b7: bv8, b6: bv8, b5: bv8, b4: bv8, b3: bv8, b2: bv8, b1: bv8, b0: bv8): bv64
  {
    (b7 as bv64 << 56) | (b6 as bv64 << 48) | (b5 as bv64 << 40) | (b4 as bv64 << 32) |
    (b3 as bv64 << 24) | (b2 as bv64 << 16) | (b1 as bv64 << 8) | b0 as bv64
  }

  lemma LongFromBytesAssembles(b: seq<bv8>, littleEndianHost: bool)
    requires |b| == 8
    ensures littleEndianHost ==>
      LongFromBytes(b, littleEndianHost) == Assemble(b[0], b[1], b[2], b[3], b[4], b[5], b[6], b[7])
    ensures !littleEndianHost ==>
      LongFromBytes(b, littleEndianHost) == Assemble(b[7], b[6], b[5], b[4], b[3], b[2], b[1], b[0])
  {
  }

  /** Replacing the top byte of a long's layout keeps the long exactly when
      the new byte is the old one. */
  lemma AssembleTopByte(v: bv64, top: bv8)
    ensures Assemble(top, ((v >> 48) & 0xFF) as bv8, ((v >> 40) & 0xFF) as bv8, ((v >> 32) & 0xFF) as bv8,
                     ((v >> 24) & 0xFF) as bv8, ((v >> 16) & 0xFF) as bv8, ((v >> 8) & 0xFF) as bv8,
                     (v & 0xFF) as bv8) == v
        <==> top as bv64 == v >> 56
  {
    AssembleLowBytes(v, top);
    TopByteDecides(v, top);
  }

  lemma AssembleLowBytes(v: bv64, top: bv8)
    ensures Assemble(top, ((v >> 48) & 0xFF) as bv8, ((v >> 40) & 0xFF) as bv8, ((v >> 32) & 0xFF) as bv8,
                     ((v >> 24) & 0xFF) as bv8, ((v >> 16) & 0xFF) as bv8, ((v >> 8) & 0xFF) as bv8,
                     (v & 0xFF) as bv8) == (top as bv64 << 56) | (v & 0x00FF_FFFF_FFFF_FFFF)
  {
  }

  lemma TopByteDecides(v: bv64, top: bv8)
    ensures (top as bv64 << 56) | (v & 0x00FF_FFFF_FFFF_FFFF) == v <==> top as bv64 == v >> 56
  {
  }

  /** The bytes of an assembled long are the bytes it was assembled from. */
  lemma AssembleBytes(u: bv64, b7: bv8, b6: bv8, b5: bv8, b4: bv8, b3: bv8, b2: bv8, b1: bv8, b0: bv8)
    requires u == Assemble(b7, b6, b5, b4, b3, b2, b1, b0)
    ensures (u >> 56) as bv8 == b7 && ((u >> 48) & 0xFF) as bv8 == b6
    ensures ((u >> 40) & 0xFF) as bv8 == b5 && ((u >> 32) & 0xFF) as bv8 == b4
    ensures ((u >> 24) & 0xFF) as bv8 == b3 && ((u >> 16) & 0xFF) as bv8 == b2
    ensures ((u >> 8) & 0xFF) as bv8 == b1 && (u & 0xFF) as bv8 == b0
  {
  }

  /** The bytes of a sequence of elements, each encoded by `enc`, back to
      back: what an array writer's loop appends after its header. */
  function Concat<T>(xs: seq<T>, enc: T -> seq<bv8>): seq<bv8>
  {
    if xs == [] then [] else enc(xs[0]) + Concat(xs[1..], enc)
  }

  /** Appending one element appends its encoding: the step of an array
      writer's loop. */
  lemma {:induction false} ConcatSnoc<T>(xs: seq<T>, x: T, enc: T -> seq<bv8>)
    ensures Concat(xs + [x], enc) == Concat(xs, enc) + enc(x)
  {
    if xs == [] {
      assert [x][1..] == [];
    } else {
      assert (xs + [x])[1..] == xs[1..] + [x];
      ConcatSnoc(xs[1..], x, enc);
    }
  }

  /** One step of an array writer's loop: the bytes before element `i`
      followed by its encoding `b` are the bytes up to and including it. */
  lemma ConcatStep<T>(header: seq<bv8>, xs: seq<T>, i: nat, enc: T -> seq<bv8>, b: seq<bv8>)
    requires i < |xs| && b == enc(xs[i])
    ensures header + Concat(xs[..i], enc) + b == header + Concat(xs[..i + 1], enc)
  {
    assert xs[..i + 1] == xs[..i] + [xs[i]];
    ConcatSnoc(xs[..i], xs[i], enc);
    assert header + Concat(xs[..i], enc) + b == header + (Concat(xs[..i], enc) + b);
  }

  /** With a fixed element width `w`, the elements take `w * |xs|` bytes. */
  lemma {:induction false} ConcatLength<T>(xs: seq<T>, enc: T -> seq<bv8>, w: nat)
    requires forall x :: |enc(x)| == w
    ensures |Concat(xs, enc)| == w * |xs|
  {
    if xs != [] {
      ConcatLength(xs[1..], enc, w);
      assert w * |xs| == w + w * |xs[1..]|;
    }
  }

  /** With a fixed element width `w`, element `i` sits at offset `w * i`. */
  lemma {:induction false} ConcatAt<T>(xs: seq<T>, enc: T -> seq<bv8>, w: nat, i: nat)
    requires forall x :: |enc(x)| == w
    requires i < |xs|
    ensures w * i + w <= |Concat(xs, enc)|
    ensures Concat(xs, enc)[w * i .. w * i + w] == enc(xs[i])
  {
    var head, rest := enc(xs[0]), Concat(xs[1..], enc);
    assert Concat(xs, enc) == head + rest;
    assert |head| == w;
    if i == 0 {
      assert Concat(xs, enc)[0 .. w] == head;
    } else {
      ConcatAt(xs[1..], enc, w, i - 1);
      var off := w * (i - 1);
      assert w * i == w + off;
      assert (head + rest)[w + off .. w + off + w] == rest[off .. off + w];
    }
  }

  /** The layout of fixed-width elements: the total length and where each
      element sits. */
  lemma ConcatLayout<T>(xs: seq<T>, enc: T -> seq<bv8>, w: nat)
    requires forall x :: |enc(x)| == w
    ensures |Concat(xs, enc)| == w * |xs|
    ensures forall i :: 0 <= i < |xs| ==>
      (w * i + w <= |Concat(xs, enc)| && Concat(xs, enc)[w * i .. w * i + w] == enc(xs[i]))
  {
    ConcatLength(xs, enc, w);
    forall i | 0 <= i < |xs|
      ensures w * i + w <= |Concat(xs, enc)| && Concat(xs, enc)[w * i .. w * i + w] == enc(xs[i])
    {
      ConcatAt(xs, enc, w, i);
    }
  }

  /** An element encoder for ints in the host's order. */
  function IntEnc(littleEndianHost: bool): bv32 -> seq<bv8>
  {
    v => IntBytes(v, littleEndianHost)
  }

  /** An element encoder for shorts and chars in the host's order. */
  function ShortEnc(littleEndianHost: bool): bv16 -> seq<bv8>
  {
    v => ShortBytes(v, littleEndianHost)
  }

  /** An element encoder for longs in the host's order, as written. */
  function LongEnc(littleEndianHost: bool): bv64 -> seq<bv8>
  {
    v => LongBytes(v, littleEndianHost)
  }

  /** An element encoder for longs with the corrected top byte. */
  function LongEncFixed(littleEndianHost: bool): bv64 -> seq<bv8>
  {
    v => LongBytesFixed(v, littleEndianHost)
  }

  // ----- Between a length and its bit pattern -----

  /** The 32-bit pattern of a non-negative C# `int`, such as an array
      length, assembled from its four base-256 digits. */
  function IntBitsOf(n: nat): bv32
    requires n < 0x1_0000_0000
  {
    var q1, d0 := n / 0x100, n % 0x100;
    var q2, d1 := q1 / 0x100, q1 % 0x100;
    var d3, d2 := q2 / 0x100, q2 % 0x100;
    PushByte(PushByte(PushByte(ByteOf(d3) as bv32, ByteOf(d2)), ByteOf(d1)), ByteOf(d0))
  }

  /** The bit pattern of `n` has the value `n`. */
  lemma IntBitsOfValue(n: nat)
    requires n < 0x1_0000_0000
    ensures IntBitsOf(n) as int == n
  {
    var q1, d0 := n / 0x100, n % 0x100;
    var q2, d1 := q1 / 0x100, q1 % 0x100;
    var d3, d2 := q2 / 0x100, q2 % 0x100;
    ByteOfValue(d3);
    ByteOfValue(d2);
    ByteOfValue(d1);
    ByteOfValue(d0);
    PushBytesValue(ByteOf(d3), ByteOf(d2), ByteOf(d1), ByteOf(d0));
  }

  /** The 8-bit pattern of a number below 256, counted up from zero. */
  function ByteOf(d: nat): bv8
    requires d < 0x100
  {
    if d == 0 then 0 else ByteOf(d - 1) + 1
  }

  lemma {:induction false} ByteOfValue(d: nat)
    requires d < 0x100
    ensures ByteOf(d) as int == d
  {
    if d > 0 {
      ByteOfValue(d - 1);
      ByteIncrement(ByteOf(d - 1));
    }
  }

  lemma ByteIncrement(x: bv8)
    requires x as int < 0xFF
    ensures (x + 1) as int == x as int + 1
  {
  }

  lemma WidenedByteValue(b: bv8)
    ensures (b as bv32) as int == b as int
  {
  }

  /** One step of assembling an int a byte at a time. */
  function PushByte(acc: bv32, b: bv8): bv32
  {
    (acc << 8) | b as bv32
  }

  lemma PushBytesValue(b3: bv8, b2: bv8, b1: bv8, b0: bv8)
    ensures PushByte(PushByte(PushByte(b3 as bv32, b2), b1), b0) as int
         == ((b3 as int * 0x100 + b2 as int) * 0x100 + b1 as int) * 0x100 + b0 as int
  {
    WidenedByteValue(b3);
    PushByteValue(b3 as bv32, b2);
    PushByteValue(PushByte(b3 as bv32, b2), b1);
    PushByteValue(PushByte(PushByte(b3 as bv32, b2), b1), b0);
  }

  lemma PushByteValue(acc: bv32, b: bv8)
    requires acc as int < 0x100_0000
    ensures PushByte(acc, b) as int == acc as int * 0x100 + b as int
  {
    ShiftByteValue(acc);
    OrLowByteValue(acc, b);
    WidenedByteValue(b);
  }

  lemma ShiftByteValue(acc: bv32)
    requires acc as int < 0x100_0000
    ensures (acc << 8) as int == acc as int * 0x100
  {
  }

  lemma OrLowByteValue(acc: bv32, b: bv8)
    ensures ((acc << 8) | b as bv32) as int == (acc << 8) as int + (b as bv32) as int
  {
  }
}
