// The three hash functions of the portable protocol: the string hash, the
// array hash and the Guid hash. Each is a fold that C# runs with unchecked
// 32-bit int arithmetic; here each is a recursive function over the prefix
// the loop has consumed, a method with the loop, and a closed form proved
// equal to the fold.

module Hashes {
  import opened Wire
  import opened ByteOrder

  /** 2^32, the modulus of C#'s unchecked int arithmetic. */
  const Modulus: int := 0x1_0000_0000

  /** The values of a C# int. */
  type Int32 = x: int | -0x8000_0000 <= x < 0x8000_0000

  /** Unchecked int arithmetic: the int congruent to `x` modulo 2^32. */
  function Wrap(x: int): (r: Int32)
    ensures (r - x) % Modulus == 0
  {
    var q := (x + 0x8000_0000) / Modulus;
    assert (x + 0x8000_0000) % Modulus - 0x8000_0000 - x == -Modulus * q;
    (x + 0x8000_0000) % Modulus - 0x8000_0000
  }

  /** A multiple of 2^32 stays one when scaled. */
  lemma MultipleScaled(d: int, k: int)
    requires d % Modulus == 0
    ensures (k * d) % Modulus == 0
  {
    var q := d / Modulus;
    assert d == Modulus * q;
    assert k * d == Modulus * (k * q);
  }

  /** An int is the only one congruent to `x`: Wrap(x) is determined by
      the residue of `x`. */
  lemma WrapUnique(r: Int32, x: int)
    requires (r - x) % Modulus == 0
    ensures Wrap(x) == r
  {
    var d := Wrap(x) - r;
    var q1, q2 := (Wrap(x) - x) / Modulus, (r - x) / Modulus;
    assert Wrap(x) - x == Modulus * q1;
    assert r - x == Modulus * q2;
    assert d == Modulus * (q1 - q2);
  }

  /** One step of a hash loop gives the same int whether or not the
      accumulator was wrapped before the step. */
  lemma WrapStep(x: int, c: int)
    ensures Wrap(31 * Wrap(x) + c) == Wrap(31 * x + c)
  {
    MultipleScaled(Wrap(x) - x, 31);
    assert (31 * Wrap(x) + c) - (31 * x + c) == 31 * (Wrap(x) - x);
    var r := Wrap(31 * x + c);
    assert (r - (31 * Wrap(x) + c)) == (r - (31 * x + c)) - 31 * (Wrap(x) - x);
    MultipleDifference(r - (31 * x + c), 31 * (Wrap(x) - x));
    WrapUnique(r, 31 * Wrap(x) + c);
  }

  lemma MultipleDifference(a: int, b: int)
    requires a % Modulus == 0 && b % Modulus == 0
    ensures (a - b) % Modulus == 0
  {
    var qa, qb := a / Modulus, b / Modulus;
    assert a == Modulus * qa && b == Modulus * qb;
    assert a - b == Modulus * (qa - qb);
  }

  /** The int whose two's-complement bits are `x`. */
  function FromBits32(x: bv32): (r: Int32)
    ensures r == Wrap(x as int)
  {
    var r: Int32 := if x as int < 0x8000_0000 then x as int else x as int - Modulus;
    assert (r - x as int) % Modulus == 0;
    WrapUnique(r, x as int);
    r
  }

  // ---------------------------------------------------------------------
  // The reference: a polynomial in 31, without wrap-around.

  function Pow31(n: nat): nat
  {
    if n == 0 then 1 else 31 * Pow31(n - 1)
  }

  /** The sum of f(xs[i]) * 31^(|xs| - 1 - i): the first element carries
      the highest power. */
  function Poly<T>(xs: seq<T>, f: T -> int): int
  {
    if |xs| == 0 then 0 else f(xs[0]) * Pow31(|xs| - 1) + Poly(xs[1..], f)
  }

  /** Appending an element multiplies the polynomial by 31 and adds the
      element: the polynomial is what a hash loop computes without
      wrap-around. */
  lemma {:induction false} PolySnoc<T>(xs: seq<T>, x: T, f: T -> int)
    ensures Poly(xs + [x], f) == 31 * Poly(xs, f) + f(x)
  {
    if |xs| == 0 {
      assert xs + [x] == [x];
      assert [x][1..] == [];
    } else {
      assert (xs + [x])[0] == xs[0];
      assert (xs + [x])[1..] == xs[1..] + [x];
      PolySnoc(xs[1..], x, f);
      assert f(xs[0]) * Pow31(|xs|) == 31 * (f(xs[0]) * Pow31(|xs| - 1));
    }
  }

  // ---------------------------------------------------------------------
  // String hash

  /** The value of a UTF-16 code unit, as C# widens a char in `31 * hash + c`. */
  function UnitValue(c: bv16): int
  {
    c as int
  }

  /** The string hash of the code units `s`: 0 for no unit, then
      hash = 31 * hash + c for each code unit in order, wrapping. */
  function StringHash(s: seq<bv16>): Int32
  {
    if |s| == 0 then 0 else Wrap(31 * StringHash(s[..|s| - 1]) + UnitValue(s[|s| - 1]))
  }

  /** The string hash is the polynomial s[0]*31^(n-1) + ... + s[n-1] taken
      modulo 2^32 as an int. */
  lemma {:induction false} StringHashPolynomial(s: seq<bv16>)
    ensures StringHash(s) == Wrap(Poly(s, UnitValue))
  {
    if |s| == 0 {
      WrapUnique(0, 0);
    } else {
      var p, c := s[..|s| - 1], s[|s| - 1];
      assert s == p + [c];
      StringHashPolynomial(p);
      WrapStep(Poly(p, UnitValue), UnitValue(c));
      PolySnoc(p, c, UnitValue);
    }
  }

  /** The values the protocol fixes: "" is 0, "A" is 65 and "AA" is
      31 * 65 + 65. */
  lemma StringHashExamples()
    ensures StringHash([]) == 0
    ensures StringHash([65]) == 65
    ensures StringHash([65, 65]) == 2080
  {
    assert [65 as bv16][..0] == [];
    WrapUnique(65, 65);
    assert [65 as bv16, 65][..1] == [65];
    WrapUnique(2080, 2080);
  }

  /** StringHashCode: a null string throws when its length is read, the
      empty string returns 0 straight away, any other string runs the loop. */
  method StringHashCode(val: Option<seq<bv16>>) returns (r: Result<Int32>)
    ensures val.None? <==> r == Err(NullReference)
    ensures val.Some? ==> r == Ok(StringHash(val.value))
  {
    if val.None? {
      return Err(NullReference);
    }
    var units := val.value;
    if |units| == 0 {
      return Ok(0);
    }
    var hash: Int32 := 0;
    for i := 0 to |units|
      invariant hash == StringHash(units[..i])
    {
      assert units[..i + 1][..i] == units[..i];
      hash := Wrap(31 * hash + units[i] as int);
    }
    assert units[..|units|] == units;
    r := Ok(hash);
  }

  // ---------------------------------------------------------------------
  // Array hash

  /** What an element adds to the array hash: 0 for null, its own hash
      code otherwise. */
  function ElementHash<T>(e: Option<T>, itemHash: T -> Int32): Int32
  {
    match e
    case None => 0
    case Some(x) => itemHash(x)
  }

  function ElementHashOf<T>(itemHash: T -> Int32): Option<T> -> int
  {
    e => ElementHash(e, itemHash)
  }

  /** The array hash: 1 for no element, then hash = 31 * hash + h for each
      element's contribution h in order, wrapping. */
  function ArrayHash<T>(arr: seq<Option<T>>, itemHash: T -> Int32): Int32
  {
    if |arr| == 0 then 1
    else Wrap(31 * ArrayHash(arr[..|arr| - 1], itemHash) + ElementHash(arr[|arr| - 1], itemHash))
  }

  /** The array hash is 31^n plus the polynomial of the element hashes,
      modulo 2^32: the seed 1 ends up at the highest power. */
  lemma {:induction false} ArrayHashPolynomial<T>(arr: seq<Option<T>>, itemHash: T -> Int32)
    ensures ArrayHash(arr, itemHash) == Wrap(Pow31(|arr|) + Poly(arr, ElementHashOf(itemHash)))
  {
    var f := ElementHashOf(itemHash);
    if |arr| == 0 {
      WrapUnique(1, 1);
    } else {
      var p, e := arr[..|arr| - 1], arr[|arr| - 1];
      assert arr == p + [e];
      ArrayHashPolynomial(p, itemHash);
      WrapStep(Pow31(|p|) + Poly(p, f), f(e));
      PolySnoc(p, e, f);
      assert 31 * (Pow31(|p|) + Poly(p, f)) + f(e) == Pow31(|arr|) + Poly(arr, f);
    }
  }

  /** An array of n nulls hashes to 31^n modulo 2^32: null elements are
      counted by position only. */
  lemma {:induction false} NullArrayHash<T>(n: nat, itemHash: T -> Int32)
    ensures ArrayHash(seq(n, i => None), itemHash) == Wrap(Pow31(n))
  {
    var nulls: seq<Option<T>> := seq(n, i => None);
    ArrayHashPolynomial(nulls, itemHash);
    NullPoly(nulls, itemHash);
  }

  lemma {:induction false} NullPoly<T>(nulls: seq<Option<T>>, itemHash: T -> Int32)
    requires forall i :: 0 <= i < |nulls| ==> nulls[i].None?
    ensures Poly(nulls, ElementHashOf(itemHash)) == 0
  {
    if |nulls| > 0 {
      NullPoly(nulls[1..], itemHash);
    }
  }

  /** The empty array hashes to 1, a lone null to 31, and a lone element
      to 31 plus its own hash, wrapping. */
  lemma ArrayHashExamples<T>(x: T, itemHash: T -> Int32)
    ensures ArrayHash([], itemHash) == 1
    ensures ArrayHash([Option<T>.None], itemHash) == 31
    ensures ArrayHash([Some(x)], itemHash) == Wrap(31 + itemHash(x))
  {
    var nul: Option<T> := None;
    assert [nul][..0] == [] && [Some(x)][..0] == [];
    WrapUnique(31, 31);
  }

  /** ArrayHashCode over the elements of `arr`; a null array throws when its
      length is read. */
  method ArrayHashCode<T>(arr: array?<Option<T>>, itemHash: T -> Int32) returns (r: Result<Int32>)
    ensures arr == null <==> r == Err(NullReference)
    ensures arr != null ==> r == Ok(ArrayHash(arr[..], itemHash))
  {
    if arr == null {
      return Err(NullReference);
    }
    var hash: Int32 := 1;
    for i := 0 to arr.Length
      invariant hash == ArrayHash(arr[..i], itemHash)
    {
      var item := arr[i];
      assert arr[..i + 1][..i] == arr[..i];
      hash := Wrap(31 * hash + (if item.None? then 0 else itemHash(item.value)));
    }
    assert arr[..arr.Length] == arr[..];
    r := Ok(hash);
  }

  // ---------------------------------------------------------------------
  // Guid hash

  /** The loops `acc = (acc << 8) | b` over a run of bytes, starting from 0. */
  function Pack(b: seq<bv8>): bv64
  {
    if |b| == 0 then 0 else (Pack(b[..|b| - 1]) << 8) | b[|b| - 1] as bv64
  }

  /** The low 32 bits of a long, as the cast to int keeps them. */
  function Low32(x: bv64): bv32
  {
    (x & 0xFFFF_FFFF) as bv32
  }

  /** The high 32 bits of a long: a shift right by 32 and a cast to int. */
  function High32(x: bv64): bv32
  {
    (x >> 32) as bv32
  }

  /** The Guid hash: msb packs bytes 0-7 and lsb bytes 8-15; the hash is
      the high half of msb ^ lsb xor-ed with its low half. */
  function GuidHash(g: Guid): Int32
  {
    FromBits32(GuidHashBits(g))
  }

  /** The bits of the Guid hash. */
  function GuidHashBits(g: Guid): bv32
  {
    FoldHalves(Pack(g[..8]) ^ Pack(g[8..]))
  }

  /** The int cast of `hilo >> 32` xor-ed with the int cast of `hilo`. */
  function FoldHalves(hilo: bv64): bv32
  {
    High32(hilo) ^ Low32(hilo)
  }

  lemma PackStep(b: seq<bv8>, k: nat)
    requires k < |b|
    ensures Pack(b[..k + 1]) == (Pack(b[..k]) << 8) | b[k] as bv64
  {
    assert b[..k + 1][..k] == b[..k];
  }

  /** msb and lsb are the longs the codec decodes from the same eight
      bytes in the wire order: most significant byte first. */
  lemma PackIsLong(b: seq<bv8>)
    requires |b| == 8
    ensures Pack(b) == LongFromBytes(b, WireOrder)
  {
    PackAssembles(b);
    LongFromBytesAssembles(b, WireOrder);
  }

  lemma PackAssembles(b: seq<bv8>)
    requires |b| == 8
    ensures Pack(b) == Assemble(b[0], b[1], b[2], b[3], b[4], b[5], b[6], b[7])
  {
    assert b[..0] == [];
    PackStep(b, 0); PackStep(b, 1); PackStep(b, 2); PackStep(b, 3);
    PackStep(b, 4); PackStep(b, 5); PackStep(b, 6); PackStep(b, 7);
    assert b[..8] == b;
  }

  lemma Low32Widened(x: bv64)
    ensures Low32(x) as bv64 == x & 0xFFFF_FFFF
  {
  }

  lemma High32Widened(x: bv64)
    ensures High32(x) as bv64 == x >> 32
  {
  }

  lemma XorWidened(a: bv32, b: bv32)
    ensures (a ^ b) as bv64 == a as bv64 ^ b as bv64
  {
  }

  lemma IntWidened(a: bv8, b: bv8, c: bv8, d: bv8)
    ensures IntOfBits(a as bv32, b as bv32, c as bv32, d as bv32, WireOrder) as bv64
         == (a as bv64 << 24) | (b as bv64 << 16) | (c as bv64 << 8) | d as bv64
  {
  }

  lemma WideningInjective(x: bv32, y: bv32)
    requires x as bv64 == y as bv64
    ensures x == y
  {
  }

  /** The halves of a long assembled from eight bytes are the ints
      assembled from its first and its last four. */
  lemma AssembledHalves(b7: bv8, b6: bv8, b5: bv8, b4: bv8, b3: bv8, b2: bv8, b1: bv8, b0: bv8)
    ensures High32(Assemble(b7, b6, b5, b4, b3, b2, b1, b0))
         == IntOfBits(b7 as bv32, b6 as bv32, b5 as bv32, b4 as bv32, WireOrder)
    ensures Low32(Assemble(b7, b6, b5, b4, b3, b2, b1, b0))
         == IntOfBits(b3 as bv32, b2 as bv32, b1 as bv32, b0 as bv32, WireOrder)
  {
    var v := Assemble(b7, b6, b5, b4, b3, b2, b1, b0);
    High32Widened(v);
    Low32Widened(v);
    IntWidened(b7, b6, b5, b4);
    IntWidened(b3, b2, b1, b0);
    WideningInjective(High32(v), IntOfBits(b7 as bv32, b6 as bv32, b5 as bv32, b4 as bv32, WireOrder));
    WideningInjective(Low32(v), IntOfBits(b3 as bv32, b2 as bv32, b1 as bv32, b0 as bv32, WireOrder));
  }

  /** The halves of a packed run of eight bytes are the ints the codec
      decodes from its first and last four bytes. */
  lemma PackHalves(b: seq<bv8>)
    requires |b| == 8
    ensures High32(Pack(b)) == IntFromBytes(b[..4], WireOrder)
    ensures Low32(Pack(b)) == IntFromBytes(b[4..], WireOrder)
  {
    SliceWords(b);
    PackAssembles(b);
    AssembledHalves(b[0], b[1], b[2], b[3], b[4], b[5], b[6], b[7]);
  }

  lemma SliceWords(b: seq<bv8>)
    requires |b| == 8
    ensures IntFromBytes(b[..4], WireOrder) == IntOfBits(b[0] as bv32, b[1] as bv32, b[2] as bv32, b[3] as bv32, WireOrder)
    ensures IntFromBytes(b[4..], WireOrder) == IntOfBits(b[4] as bv32, b[5] as bv32, b[6] as bv32, b[7] as bv32, WireOrder)
  {
    var lo, hi := b[..4], b[4..];
    assert lo[0] == b[0] && lo[1] == b[1] && lo[2] == b[2] && lo[3] == b[3];
    assert hi[0] == b[4] && hi[1] == b[5] && hi[2] == b[6] && hi[3] == b[7];
  }

  lemma HighOfXor(x: bv64, y: bv64)
    ensures High32(x ^ y) == High32(x) ^ High32(y)
  {
    High32Widened(x); High32Widened(y); High32Widened(x ^ y);
    XorWidened(High32(x), High32(y));
    assert (x ^ y) >> 32 == (x >> 32) ^ (y >> 32);
    WideningInjective(High32(x ^ y), High32(x) ^ High32(y));
  }

  lemma LowOfXor(x: bv64, y: bv64)
    ensures Low32(x ^ y) == Low32(x) ^ Low32(y)
  {
    Low32Widened(x); Low32Widened(y); Low32Widened(x ^ y);
    XorWidened(Low32(x), Low32(y));
    assert (x ^ y) & 0xFFFF_FFFF == (x & 0xFFFF_FFFF) ^ (y & 0xFFFF_FFFF);
    WideningInjective(Low32(x ^ y), Low32(x) ^ Low32(y));
  }

  /** Folding the halves of msb ^ lsb xors the four halves of msb and lsb. */
  lemma FoldHalvesOfXor(msb: bv64, lsb: bv64)
    ensures FoldHalves(msb ^ lsb) == High32(msb) ^ Low32(msb) ^ High32(lsb) ^ Low32(lsb)
  {
    HighOfXor(msb, lsb);
    LowOfXor(msb, lsb);
  }

  /** The Guid hash xors the four halves of msb and lsb. */
  lemma GuidHashFolds(g: Guid)
    ensures GuidHashBits(g) == High32(Pack(g[..8])) ^ Low32(Pack(g[..8])) ^ High32(Pack(g[8..])) ^ Low32(Pack(g[8..]))
  {
    FoldHalvesOfXor(Pack(g[..8]), Pack(g[8..]));
  }

  /** The halves of msb are the ints read from bytes 0-3 and 4-7. */
  lemma MsbWords(g: Guid)
    ensures High32(Pack(g[..8])) == IntFromBytes(g[..4], WireOrder)
    ensures Low32(Pack(g[..8])) == IntFromBytes(g[4..8], WireOrder)
  {
    var b := g[..8];
    PackHalves(b);
    assert b[..4] == g[..4] && b[4..] == g[4..8];
  }

  /** The halves of lsb are the ints read from bytes 8-11 and 12-15. */
  lemma LsbWords(g: Guid)
    ensures High32(Pack(g[8..])) == IntFromBytes(g[8..12], WireOrder)
    ensures Low32(Pack(g[8..])) == IntFromBytes(g[12..], WireOrder)
  {
    var b := g[8..];
    PackHalves(b);
    assert b[..4] == g[8..12] && b[4..] == g[12..];
  }

  /** Exchanging the two halves of a Guid leaves its hash unchanged. */
  lemma GuidHashHalvesCommute(g: Guid)
    ensures GuidHash(g[8..] + g[..8]) == GuidHash(g)
  {
    var h := g[8..] + g[..8];
    assert h[..8] == g[8..] && h[8..] == g[..8];
    XorCommutes(Pack(g[..8]), Pack(g[8..]));
  }

  lemma XorCommutes(x: bv64, y: bv64)
    ensures x ^ y == y ^ x
  {
  }

  /** GuidHashCode: the msb loop over bytes 0-7, the lsb loop over bytes
      8-15, then the halves of msb ^ lsb. The Guid is given as its
      ToByteArray bytes. */
  method GuidHashCode(val: Guid) returns (hash: Int32)
    ensures hash == GuidHash(val)
  {
    var msb: bv64 := 0;
    var lsb: bv64 := 0;
    for i := 0 to 8
      invariant msb == Pack(val[..i])
    {
      PackStep(val, i);
      msb := (msb << 8) | val[i] as bv64;
    }
    var low := val[8..];
    for i := 8 to 16
      invariant lsb == Pack(low[..i - 8])
    {
      PackStep(low, i - 8);
      assert low[i - 8] == val[i];
      lsb := (lsb << 8) | val[i] as bv64;
    }
    assert low[..8] == low;
    var hilo := msb ^ lsb;
    hash := FromBits32(FoldHalves(hilo));
    assert FoldHalves(hilo) == GuidHashBits(val);
  }
}
