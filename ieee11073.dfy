/** The 32-bit FLOAT-Type of IEEE 11073-20601 as the temperature service
    produces it: an 8-bit signed exponent above a 24-bit signed mantissa,
    value = mantissa * 10^exponent, sent little-endian.

    The C code works on `uint32_t` with masks and shifts.  Here every C
    operation is written as the integer arithmetic it computes:
      - `(uint8_t)e` of a signed byte is `e % 0x100` (Dafny's `%` is Euclidean);
      - `m & 0xFFFFFF` of a two's-complement `int32_t` is `m % 0x100_0000`;
      - `x << 24` of a value below 0x100 is `x * 0x100_0000`;
      - `a | b` of operands occupying disjoint bit ranges is `a + b`;
      - `(w >> k) & 0xFF` of an unsigned word is `(w / 2^k) % 0x100`. */
module Ieee11073 {

  type byte = b: int | 0 <= b < 0x100
  type uint32 = w: int | 0 <= w < 0x1_0000_0000
  type int32 = x: int | -0x8000_0000 <= x < 0x8000_0000

  /** Bounds of the 24-bit signed mantissa (gatt_svc.c:67-70). */
  const MantissaMax: int := 0x7FFFFF
  const MantissaMin: int := -0x800000

  /** The exponent of every nonzero reading: the mantissa counts hundredths. */
  const ExponentCenti: int := -2

  /** A 32-bit float as the encoder observes it: whether it compares equal
      to 0.0f, and `(int32_t)(t * 100)`, truncated toward zero. */
  datatype Temperature = Temperature(isZero: bool, centi: int32)

  /** A float equal to 0.0f scales to 0; the converse does not hold (0.001). */
  type Celsius = t: Temperature | t.isZero ==> t.centi == 0 witness Temperature(true, 0)

  /** 0.0f, the value the sensor holder starts with. */
  const Zero: Celsius := Temperature(true, 0)

  /** The two fields of a FLOAT-Type value, as signed integers. */
  datatype FloatValue = FloatValue(exponent: int, mantissa: int)

  /** The fields fit an 8-bit exponent and a 24-bit mantissa. */
  predicate Representable(f: FloatValue)
  {
    -0x80 <= f.exponent < 0x80 && MantissaMin <= f.mantissa <= MantissaMax
  }

  /** Saturate an `int32_t` mantissa to 24 bits (gatt_svc.c:67-70); no error. */
  function Clamp24(m: int32): (r: int)
    ensures MantissaMin <= r <= MantissaMax
  {
    if m > MantissaMax then MantissaMax
    else if m < MantissaMin then MantissaMin
    else m
  }

  /** Distance between two integers. */
  function Dist(a: int, b: int): nat
  {
    if a >= b then a - b else b - a
  }

  /** Clamp24 picks the representable mantissa nearest to its input, and
      changes nothing that is already representable. */
  lemma ClampIsNearest(m: int32, k: int)
    requires MantissaMin <= k <= MantissaMax
    ensures Dist(Clamp24(m), m) <= Dist(k, m)
    ensures (MantissaMin <= m <= MantissaMax) <==> Clamp24(m) == m
  {
  }

  /** Steps 1-3 of the encoder (gatt_svc.c:54-71): exponent 0 and mantissa 0
      for exactly zero, otherwise exponent -2 and the saturated hundredths. */
  function Fields(t: Celsius): (f: FloatValue)
    ensures Representable(f)
  {
    if t.isZero then FloatValue(0, 0)
    else FloatValue(ExponentCenti, Clamp24(t.centi))
  }

  /** Sign extension of one byte. */
  function Int8Of(b: byte): int
  {
    if b >= 0x80 then b - 0x100 else b
  }

  /** Sign extension of a 24-bit field. */
  function Int24Of(u: int): int
    requires 0 <= u < 0x100_0000
  {
    if u >= 0x80_0000 then u - 0x100_0000 else u
  }

  /** `((uint32_t)(uint8_t)exponent << 24) | (mantissa & 0xFFFFFF)` (gatt_svc.c:74). */
  function PackWord(f: FloatValue): (w: uint32)
  {
    (f.exponent % 0x100) * 0x100_0000 + f.mantissa % 0x100_0000
  }

  /** Split a word into its sign-extended exponent byte and 24-bit mantissa. */
  function UnpackWord(w: uint32): (f: FloatValue)
    ensures Representable(f)
  {
    FloatValue(Int8Of(w / 0x100_0000), Int24Of(w % 0x100_0000))
  }

  lemma UnpackPack(f: FloatValue)
    requires Representable(f)
    ensures UnpackWord(PackWord(f)) == f
  {
    var w := PackWord(f);
    DivModUnique(w, f.exponent % 0x100, f.mantissa % 0x100_0000, 0x100_0000);
  }

  lemma PackUnpack(w: uint32)
    ensures PackWord(UnpackWord(w)) == w
  {
  }

  /** If `w == q * d + r` with `0 <= r < d`, then q and r are the quotient and remainder. */
  lemma DivModUnique(w: int, q: int, r: int, d: int)
    requires 0 < d && 0 <= r < d && w == q * d + r
    ensures w / d == q && w % d == r
  {
    var q', r' := w / d, w % d;
    if q' > q {
      MulAtLeast(q' - q, d);
    } else if q' < q {
      MulAtLeast(q - q', d);
    }
  }

  lemma {:induction false} MulAtLeast(a: int, d: int)
    requires a >= 1 && d > 0
    ensures a * d >= d
    decreases a
  {
    if a > 1 {
      MulAtLeast(a - 1, d);
      assert a * d == (a - 1) * d + d;
    }
  }

  /** Bytes 0..3 of a word, least significant first (gatt_svc.c:77-80). */
  function LittleEndian(w: uint32): (b: seq<byte>)
    ensures |b| == 4
  {
    [w % 0x100, (w / 0x100) % 0x100, (w / 0x1_0000) % 0x100, (w / 0x100_0000) % 0x100]
  }

  /** The word that four little-endian bytes stand for. */
  function FromLittleEndian(b: seq<byte>): (w: uint32)
    requires |b| == 4
  {
    b[0] + 0x100 * (b[1] as int) + 0x1_0000 * (b[2] as int) + 0x100_0000 * (b[3] as int)
  }

  lemma FromToLittleEndian(w: uint32)
    ensures FromLittleEndian(LittleEndian(w)) == w
  {
    var q1 := w / 0x100;
    var q2 := q1 / 0x100;
    var q3 := q2 / 0x100;
    var r0, r1, r2 := w % 0x100, q1 % 0x100, q2 % 0x100;
    assert w == r0 + 0x100 * r1 + 0x1_0000 * q2;
    DivModUnique(w, q2, r0 + 0x100 * r1, 0x1_0000);
    assert w == r0 + 0x100 * r1 + 0x1_0000 * r2 + 0x100_0000 * q3;
    DivModUnique(w, q3, r0 + 0x100 * r1 + 0x1_0000 * r2, 0x100_0000);
    assert LittleEndian(w) == [r0, r1, r2, q3];
  }

  lemma ToFromLittleEndian(b: seq<byte>)
    requires |b| == 4
    ensures LittleEndian(FromLittleEndian(b)) == b
  {
    var w := FromLittleEndian(b);
    DivModUnique(w, b[1] + 0x100 * (b[2] as int) + 0x1_0000 * (b[3] as int), b[0], 0x100);
    DivModUnique(w / 0x100, b[2] + 0x100 * (b[3] as int), b[1], 0x100);
    DivModUnique(w / 0x1_0000, b[3], b[2], 0x100);
    DivModUnique(w, b[3], b[0] + 0x100 * (b[1] as int) + 0x1_0000 * (b[2] as int), 0x100_0000);
  }

  /** The four bytes `float_to_ieee11073` writes for a temperature. */
  function Encode(t: Celsius): (b: seq<byte>)
    ensures |b| == 4
  {
    LittleEndian(PackWord(Fields(t)))
  }

  /** Reading the bytes back: byte 3 sign-extended is the exponent, bytes
      0..2 sign-extended are the mantissa. */
  function Decode(b: seq<byte>): (f: FloatValue)
    requires |b| == 4
    ensures Representable(f)
  {
    FloatValue(Int8Of(b[3]), Int24Of(b[0] + 0x100 * (b[1] as int) + 0x1_0000 * (b[2] as int)))
  }

  /** Decoding bytes is unpacking the word they stand for. */
  lemma DecodeIsUnpack(b: seq<byte>)
    requires |b| == 4
    ensures Decode(b) == UnpackWord(FromLittleEndian(b))
  {
    DivModUnique(FromLittleEndian(b), b[3], b[0] + 0x100 * (b[1] as int) + 0x1_0000 * (b[2] as int), 0x100_0000);
  }

  /** The byte round trip: the encoded bytes give back the chosen exponent
      and the saturated mantissa exactly. */
  lemma DecodeEncode(t: Celsius)
    ensures Decode(Encode(t)) == Fields(t)
  {
    var w := PackWord(Fields(t));
    DecodeIsUnpack(LittleEndian(w));
    FromToLittleEndian(w);
    UnpackPack(Fields(t));
  }

  /** Decoding is injective: re-packing and re-serialising the decoded fields
      gives back any four bytes. */
  lemma EncodeDecode(b: seq<byte>)
    requires |b| == 4
    ensures PackWord(Decode(b)) == FromLittleEndian(b)
    ensures LittleEndian(PackWord(Decode(b))) == b
  {
    DecodeIsUnpack(b);
    PackUnpack(FromLittleEndian(b));
    ToFromLittleEndian(b);
  }

  /** The encoding is read off the packed word: the bytes a word stands for
      are the bytes sent.  Used to evaluate concrete encodings. */
  lemma EncodeIsWordBytes(t: Celsius, b: seq<byte>)
    requires |b| == 4 && FromLittleEndian(b) == PackWord(Fields(t))
    ensures Encode(t) == b
  {
    ToFromLittleEndian(b);
  }

  /** The encoding depends on the input only through the chosen fields. */
  lemma EncodeByFields(t: Celsius, t': Celsius)
    requires Fields(t) == Fields(t')
    ensures Encode(t) == Encode(t')
  {
  }

  /** Exact zero encodes as four zero bytes (gatt_svc.c:55-59,74-80). */
  lemma EncodeZero(t: Celsius)
    requires t.isZero
    ensures Encode(t) == [0x00, 0x00, 0x00, 0x00]
  {
    EncodeIsWordBytes(t, [0x00, 0x00, 0x00, 0x00]);
  }

  /** Every nonzero input has exponent -2, so its last byte is 0xFE; bytes
      0..2 are the saturated mantissa, two's complement, least significant
      first (gatt_svc.c:63,67-80). */
  lemma EncodeNonzero(t: Celsius)
    requires !t.isZero
    ensures Encode(t)[3] == 0xFE
    ensures Decode(Encode(t)).mantissa == Clamp24(t.centi)
  {
    DecodeEncode(t);
  }

  /** Out-of-range readings saturate silently (gatt_svc.c:67-70). */
  lemma EncodeSaturates(t: Celsius)
    requires !t.isZero
    ensures t.centi > MantissaMax ==> Encode(t) == [0xFF, 0xFF, 0x7F, 0xFE]
    ensures t.centi < MantissaMin ==> Encode(t) == [0x00, 0x00, 0x80, 0xFE]
  {
    if t.centi > MantissaMax {
      EncodeIsWordBytes(t, [0xFF, 0xFF, 0x7F, 0xFE]);
    } else if t.centi < MantissaMin {
      EncodeIsWordBytes(t, [0x00, 0x00, 0x80, 0xFE]);
    }
  }

  /** 36.5 C: mantissa 3650, word 0xFE000E42. */
  lemma Encode3650()
    ensures Encode(Temperature(false, 3650)) == [0x42, 0x0E, 0x00, 0xFE]
  {
    EncodeIsWordBytes(Temperature(false, 3650), [0x42, 0x0E, 0x00, 0xFE]);
  }

  /** 21.37 C: mantissa 2137, word 0xFE000859. */
  lemma Encode2137()
    ensures Encode(Temperature(false, 2137)) == [0x59, 0x08, 0x00, 0xFE]
  {
    EncodeIsWordBytes(Temperature(false, 2137), [0x59, 0x08, 0x00, 0xFE]);
  }

  /** The temperature a decoded value denotes, for the two exponents the
      encoder emits, read back with exact decimal arithmetic. */
  function Reread(f: FloatValue): (t: Celsius)
    requires Representable(f)
    requires f.exponent == 0 ==> f.mantissa == 0
    requires f.exponent == 0 || f.exponent == ExponentCenti
    ensures f.exponent == 0 || f.mantissa != 0 ==> Fields(t) == f
  {
    Temperature(f.mantissa == 0, f.mantissa)
  }

  /** Re-encoding a decoded encoding, read back exactly through Reread, gives
      the same bytes except for a nonzero input that scales to 0: it is sent as 0 * 10^-2 (last byte
      0xFE) while the zero it denotes is sent as four zero bytes. */
  lemma ReencodeIdempotent(t: Celsius)
    ensures var f := Decode(Encode(t));
      (f.exponent == 0 || f.exponent == ExponentCenti) && (f.exponent == 0 ==> f.mantissa == 0) &&
      (Encode(Reread(f)) == Encode(t) <==> (t.isZero || t.centi != 0))
  {
    DecodeEncode(t);
    var t' := Reread(Fields(t));
    if t.isZero || t.centi != 0 {
      assert Fields(t') == Fields(t);
      EncodeByFields(t', t);
    } else {
      EncodeZero(t');
      EncodeNonzero(t);
      assert Encode(t')[3] != Encode(t)[3];
    }
  }

  /** `float_to_ieee11073`: writes the encoding into the caller's buffer
      (gatt_svc.c:48-81). */
  method FloatToIeee11073(t: Celsius, ieeeData: array<byte>)
    requires ieeeData.Length >= 4
    modifies ieeeData
    ensures ieeeData[..4] == Encode(t)
    ensures ieeeData[4..] == old(ieeeData[4..])
  {
    var mantissa: int;
    var exponent: int;
    if t.isZero {
      mantissa := 0;
      exponent := 0;
    } else {
      exponent := ExponentCenti;
      mantissa := t.centi;
      if mantissa > MantissaMax {
        mantissa := MantissaMax;
      } else if mantissa < MantissaMin {
        mantissa := MantissaMin;
      }
    }
    var ieeeFloat: uint32 := (exponent % 0x100) * 0x100_0000 + mantissa % 0x100_0000;
    assert ieeeFloat == PackWord(Fields(t));
    ieeeData[0] := ieeeFloat % 0x100;
    ieeeData[1] := (ieeeFloat / 0x100) % 0x100;
    ieeeData[2] := (ieeeFloat / 0x1_0000) % 0x100;
    ieeeData[3] := (ieeeFloat / 0x100_0000) % 0x100;
  }
}
