/** Little-endian fixed-width fields and the `struct` formats the decoder
    unpacks them with ('<B', '<H', '<h', '<i' and sequences of them), plus a
    model of reading from a file cursor, which may return fewer bytes than
    asked for near the end of the stream. */
module Struct {

  type Byte = b: int | 0 <= b < 256

  datatype Option<T> = None | Some(value: T)

  function Pow256(n: nat): (r: nat)
    ensures r >= 1
  {
    if n == 0 then 1 else 256 * Pow256(n - 1)
  }

  /** The unsigned value of a little-endian byte string. */
  function Unsigned(b: seq<Byte>): (u: nat)
    ensures u < Pow256(|b|)
  {
    if b == [] then 0 else b[0] + 256 * Unsigned(b[1..])
  }

  /** The `n` little-endian bytes of an unsigned value that fits in them. */
  function UnsignedBytes(u: nat, n: nat): (b: seq<Byte>)
    requires u < Pow256(n)
    ensures |b| == n
  {
    if n == 0 then [] else [u % 256] + UnsignedBytes(u / 256, n - 1)
  }

  lemma {:induction false} UnsignedOfBytes(u: nat, n: nat)
    requires u < Pow256(n)
    ensures Unsigned(UnsignedBytes(u, n)) == u
  {
    if n > 0 {
      UnsignedOfBytes(u / 256, n - 1);
      var b := UnsignedBytes(u, n);
      assert b[1..] == UnsignedBytes(u / 256, n - 1);
    }
  }

  lemma {:induction false} BytesOfUnsigned(b: seq<Byte>)
    ensures UnsignedBytes(Unsigned(b), |b|) == b
  {
    if b != [] {
      var u := Unsigned(b);
      assert u % 256 == b[0] && u / 256 == Unsigned(b[1..]);
      BytesOfUnsigned(b[1..]);
    }
  }

  /** The field codes of Python's `struct` that the format uses:
      'B' (uint8), 'H' (uint16), 'h' (int16) and 'i' (int32). */
  datatype FieldCode = U8 | U16 | I16 | I32

  function Width(c: FieldCode): (w: nat)
    ensures w > 0
  {
    match c
    case U8 => 1
    case U16 => 2
    case I16 => 2
    case I32 => 4
  }

  /** 2 to the number of bits of the field. */
  function Modulus(c: FieldCode): (m: nat)
    ensures m == Pow256(Width(c))
  {
    assert Pow256(1) == 0x100 && Pow256(2) == 0x1_0000;
    assert Pow256(4) == 0x1_0000 * Pow256(2);
    match c
    case U8 => 0x100
    case U16 => 0x1_0000
    case I16 => 0x1_0000
    case I32 => 0x1_0000_0000
  }

  predicate Signed(c: FieldCode) {
    c == I16 || c == I32
  }

  /** The values a field of code `c` can hold. */
  predicate InRange(c: FieldCode, v: int) {
    if Signed(c) then -(Modulus(c) / 2) <= v < Modulus(c) / 2
    else 0 <= v < Modulus(c)
  }

  /** The value of one field: two's complement for the signed codes. */
  function FieldValue(c: FieldCode, b: seq<Byte>): (v: int)
    requires |b| == Width(c)
    ensures InRange(c, v)
  {
    var u := Unsigned(b);
    if Signed(c) && u >= Modulus(c) / 2 then u - Modulus(c) else u
  }

  /** The encoding of one field; the inverse of FieldValue. */
  function FieldBytes(c: FieldCode, v: int): (b: seq<Byte>)
    requires InRange(c, v)
    ensures |b| == Width(c)
  {
    UnsignedBytes(if v < 0 then v + Modulus(c) else v, Width(c))
  }

  lemma FieldValueOfBytes(c: FieldCode, v: int)
    requires InRange(c, v)
    ensures FieldValue(c, FieldBytes(c, v)) == v
  {
    UnsignedOfBytes(if v < 0 then v + Modulus(c) else v, Width(c));
  }

  lemma FieldBytesOfValue(c: FieldCode, b: seq<Byte>)
    requires |b| == Width(c)
    ensures FieldBytes(c, FieldValue(c, b)) == b
  {
    BytesOfUnsigned(b);
  }

  /** A `struct` format: the codes of consecutive little-endian ('<') fields. */
  datatype Format = Done | Field(code: FieldCode, rest: Format)

  /** The number of fields of a format. */
  function Count(fmt: Format): nat {
    match fmt
    case Done => 0
    case Field(_, rest) => 1 + Count(rest)
  }

  /** `struct.calcsize`: the number of bytes a format occupies. */
  function Size(fmt: Format): nat {
    match fmt
    case Done => 0
    case Field(c, rest) => Width(c) + Size(rest)
  }

  /** The values `vals` fit, one for one, the fields of `fmt`. */
  predicate Fits(fmt: Format, vals: seq<int>) {
    match fmt
    case Done => vals == []
    case Field(c, rest) => |vals| > 0 && InRange(c, vals[0]) && Fits(rest, vals[1..])
  }

  lemma {:induction false} FitsCount(fmt: Format, vals: seq<int>)
    requires Fits(fmt, vals)
    ensures |vals| == Count(fmt)
  {
    if fmt.Field? {
      FitsCount(fmt.rest, vals[1..]);
    }
  }

  /** The values of the fields laid out by `fmt` in `b` from offset `at` on. */
  function Fields(fmt: Format, b: seq<Byte>, at: nat): (vals: seq<int>)
    requires at + Size(fmt) <= |b|
    ensures Fits(fmt, vals)
  {
    match fmt
    case Done => []
    case Field(c, rest) =>
      var vals := [FieldValue(c, b[at..at + Width(c)])] + Fields(rest, b, at + Width(c));
      assert vals[1..] == Fields(rest, b, at + Width(c));
      vals
  }

  /** `struct.unpack`: fails unless the buffer has exactly the format's size. */
  function Unpack(fmt: Format, b: seq<Byte>): (r: Option<seq<int>>)
    ensures r.Some? <==> |b| == Size(fmt)
    ensures r.Some? ==> Fits(fmt, r.value)
  {
    if |b| == Size(fmt) then Some(Fields(fmt, b, 0)) else None
  }

  /** `struct.pack`: the bytes of in-range values laid out by `fmt`. */
  function Pack(fmt: Format, vals: seq<int>): (b: seq<Byte>)
    requires Fits(fmt, vals)
    ensures |b| == Size(fmt)
  {
    match fmt
    case Done => []
    case Field(c, rest) => FieldBytes(c, vals[0]) + Pack(rest, vals[1..])
  }

  /** `b` holds `s` at offset `at`, byte for byte. */
  predicate HoldsAt(b: seq<Byte>, at: nat, s: seq<Byte>)
    decreases |s|
  {
    if s == [] then at <= |b| else at < |b| && b[at] == s[0] && HoldsAt(b, at + 1, s[1..])
  }

  lemma {:induction false} HoldsAtSlice(b: seq<Byte>, at: nat, s: seq<Byte>)
    ensures HoldsAt(b, at, s) <==> at + |s| <= |b| && b[at..at + |s|] == s
    decreases |s|
  {
    if s != [] {
      HoldsAtSlice(b, at + 1, s[1..]);
      if at + |s| <= |b| {
        assert b[at..at + |s|] == [b[at]] + b[at + 1..at + |s|];
        assert s == [s[0]] + s[1..];
      }
    }
  }

  lemma {:induction false} HoldsAtSplit(b: seq<Byte>, at: nat, s: seq<Byte>, t: seq<Byte>)
    ensures HoldsAt(b, at, s + t) <==> HoldsAt(b, at, s) && HoldsAt(b, at + |s|, t)
    decreases |s|
  {
    if s == [] {
      assert s + t == t;
      HoldsAtSlice(b, at, t);
    } else {
      assert (s + t)[0] == s[0] && (s + t)[1..] == s[1..] + t;
      HoldsAtSplit(b, at + 1, s[1..], t);
    }
  }

  lemma {:induction false} FieldsOfPack(fmt: Format, vals: seq<int>, b: seq<Byte>, at: nat)
    requires Fits(fmt, vals) && HoldsAt(b, at, Pack(fmt, vals))
    ensures at + Size(fmt) <= |b| && Fields(fmt, b, at) == vals
  {
    HoldsAtSlice(b, at, Pack(fmt, vals));
    if fmt.Field? {
      var c := fmt.code;
      HoldsAtSplit(b, at, FieldBytes(c, vals[0]), Pack(fmt.rest, vals[1..]));
      HoldsAtSlice(b, at, FieldBytes(c, vals[0]));
      FieldValueOfBytes(c, vals[0]);
      FieldsOfPack(fmt.rest, vals[1..], b, at + Width(c));
    }
  }

  lemma UnpackPack(fmt: Format, vals: seq<int>)
    requires Fits(fmt, vals)
    ensures Unpack(fmt, Pack(fmt, vals)) == Some(vals)
  {
    HoldsAtSlice(Pack(fmt, vals), 0, Pack(fmt, vals));
    FieldsOfPack(fmt, vals, Pack(fmt, vals), 0);
  }

  lemma {:induction false} PackOfFields(fmt: Format, b: seq<Byte>, at: nat)
    requires at + Size(fmt) <= |b|
    ensures HoldsAt(b, at, Pack(fmt, Fields(fmt, b, at)))
  {
    if fmt.Field? {
      var c, w := fmt.code, Width(fmt.code);
      var vals := Fields(fmt, b, at);
      FieldBytesOfValue(c, b[at..at + w]);
      PackOfFields(fmt.rest, b, at + w);
      assert vals[1..] == Fields(fmt.rest, b, at + w);
      HoldsAtSplit(b, at, b[at..at + w], Pack(fmt.rest, vals[1..]));
      HoldsAtSlice(b, at, b[at..at + w]);
    }
  }

  /** The other half of the round trip: unpacking a buffer and packing the
      values again gives the buffer back. */
  lemma PackUnpack(fmt: Format, b: seq<Byte>)
    requires |b| == Size(fmt)
    ensures Unpack(fmt, b).Some? && Pack(fmt, Unpack(fmt, b).value) == b
  {
    PackOfFields(fmt, b, 0);
    HoldsAtSlice(b, 0, Pack(fmt, Fields(fmt, b, 0)));
    assert b[0..|b|] == b;
  }

  function Min(a: nat, b: nat): nat {
    if a <= b then a else b
  }

  /** `f.read(n)` on a stream positioned at `pos`: at most `n` bytes, fewer
      only when the stream ends first. */
  function Read(data: seq<Byte>, pos: nat, n: nat): (chunk: seq<Byte>)
    requires pos <= |data|
    ensures |chunk| == Min(n, |data| - pos)
    ensures chunk == data[pos..pos + |chunk|]
  {
    data[pos..pos + Min(n, |data| - pos)]
  }

  /** The signed value of two little-endian bytes ('<h'). */
  function Int16(lo: Byte, hi: Byte): (v: int)
    ensures -0x8000 <= v < 0x8000
    ensures 0 <= v ==> v == lo + 256 * hi
    ensures v < 0 ==> v + 0x1_0000 == lo + 256 * hi
  {
    if lo + 256 * hi < 0x8000 then lo + 256 * hi else lo + 256 * hi - 0x1_0000
  }

  /** The unsigned value of two little-endian bytes ('<H'). */
  function Uint16(lo: Byte, hi: Byte): (v: nat)
    ensures v < 0x1_0000
  {
    lo + 256 * hi
  }

  /** The signed value of four little-endian bytes ('<i'). */
  function Int32(b0: Byte, b1: Byte, b2: Byte, b3: Byte): (v: int)
    ensures -0x8000_0000 <= v < 0x8000_0000
  {
    var u := b0 + 256 * (b1 + 256 * (b2 + 256 * b3));
    if u < 0x8000_0000 then u else u - 0x1_0000_0000
  }

  predicate IsInt16(v: int) { -0x8000 <= v < 0x8000 }
  predicate IsUint16(v: int) { 0 <= v < 0x1_0000 }
  predicate IsInt32(v: int) { -0x8000_0000 <= v < 0x8000_0000 }

  /** The little-endian bytes of a 16-bit field, signed or unsigned. */
  function Le16(v: int): (b: seq<Byte>)
    requires -0x8000 <= v < 0x1_0000
    ensures |b| == 2
  {
    var u := if v < 0 then v + 0x1_0000 else v;
    [u % 256, u / 256]
  }

  /** The little-endian bytes of a signed 32-bit field. */
  function Le32(v: int): (b: seq<Byte>)
    requires -0x8000_0000 <= v < 0x8000_0000
    ensures |b| == 4
  {
    var u := if v < 0 then v + 0x1_0000_0000 else v;
    var q1 := u / 256;
    var q2 := q1 / 256;
    [u % 256, q1 % 256, q2 % 256, q2 / 256]
  }

  lemma Int16OfLe16(v: int)
    requires -0x8000 <= v < 0x8000
    ensures Int16(Le16(v)[0], Le16(v)[1]) == v
  {
  }

  lemma Uint16OfLe16(v: int)
    requires 0 <= v < 0x1_0000
    ensures Uint16(Le16(v)[0], Le16(v)[1]) == v
  {
  }

  lemma Int32OfLe32(v: int)
    requires -0x8000_0000 <= v < 0x8000_0000
    ensures var b := Le32(v); Int32(b[0], b[1], b[2], b[3]) == v
  {
    var u := if v < 0 then v + 0x1_0000_0000 else v;
    var q1 := u / 256;
    var q2 := q1 / 256;
    assert q2 / 256 < 256;
    assert u == u % 256 + 256 * (q1 % 256 + 256 * (q2 % 256 + 256 * (q2 / 256)));
  }

  lemma Le16OfInt16(lo: Byte, hi: Byte)
    ensures Le16(Int16(lo, hi)) == [lo, hi]
  {
  }

  lemma Le16OfUint16(lo: Byte, hi: Byte)
    ensures Le16(Uint16(lo, hi)) == [lo, hi]
  {
  }

  lemma Le32OfInt32(b0: Byte, b1: Byte, b2: Byte, b3: Byte)
    ensures Le32(Int32(b0, b1, b2, b3)) == [b0, b1, b2, b3]
  {
  }

  /** The explicit two-byte and four-byte forms agree with the field codes. */
  lemma TwoByteFields(b: seq<Byte>)
    requires |b| == 2
    ensures FieldValue(I16, b) == Int16(b[0], b[1])
    ensures FieldValue(U16, b) == Uint16(b[0], b[1])
  {
    assert b[1..][1..] == [];
    assert Unsigned(b[1..]) == b[1];
    assert Unsigned(b) == b[0] as int + 256 * (b[1] as int);
  }

  lemma FourByteField(b: seq<Byte>)
    requires |b| == 4
    ensures FieldValue(I32, b) == Int32(b[0], b[1], b[2], b[3])
  {
    var b3 := b[1..][1..][1..];
    assert b3[1..] == [] && b3 == [b[3]];
    assert Unsigned(b3) == b[3];
    assert Unsigned(b[1..][1..]) == b[2] as int + 256 * (b[3] as int);
    assert Unsigned(b[1..]) == b[1] as int + 256 * (b[2] as int + 256 * (b[3] as int));
    assert Unsigned(b) == b[0] as int + 256 * (b[1] as int + 256 * (b[2] as int + 256 * (b[3] as int)));
  }

  lemma OneByteField(b: seq<Byte>)
    requires |b| == 1
    ensures FieldValue(U8, b) == b[0]
  {
    assert b[1..] == [];
  }
}
