/**
  FLOAT8E8M0, the exponent-only 8-bit "scale" type: no sign bit and no
  mantissa, a raw byte `raw` stands for 2^(raw - 127), and 255 is reserved
  for NaN. Encoding rounds up to the next power of two, so a scale is never
  smaller than the value it represents, and saturates at 254.
 */
module ScaleCodec {

  /** A raw FLOAT8E8M0 byte. */
  type Raw = x: int | 0 <= x < 256

  const Bias: int := 127
  /** The largest finite code; 255 is NaN and encoding never produces it. */
  const MaxFinite: Raw := 254
  const NaNCode: Raw := 255

  /** 2^e for any integer exponent, as an exact real. */
  function Pow2(e: int): (r: real)
    ensures r > 0.0
    decreases if e < 0 then -e else e
  {
    if e == 0 then 1.0
    else if e > 0 then 2.0 * Pow2(e - 1)
    else Pow2(e + 1) / 2.0
  }

  lemma Pow2Succ(e: int)
    ensures Pow2(e + 1) == 2.0 * Pow2(e)
  {
  }

  /** Powers of two strictly increase with the exponent. */
  lemma {:induction false} Pow2Monotone(a: int, b: int)
    requires a < b
    ensures Pow2(a) < Pow2(b)
    decreases b - a
  {
    Pow2Succ(b - 1);
    if a < b - 1 {
      Pow2Monotone(a, b - 1);
    }
  }

  /** A decoded scale: a power of two, or NaN for the reserved code. */
  datatype Scale = Finite(value: real) | NaN

  /** Decoding: 2^(raw - 127), and NaN for 255. */
  function Decode(raw: Raw): (s: Scale)
    ensures s.NaN? <==> raw == NaNCode
    ensures s.Finite? ==> s.value > 0.0
  {
    if raw == NaNCode then NaN else Finite(Pow2(raw - Bias))
  }

  /** The search behind `Encode`: the first code from `raw` upwards whose
      power of two reaches `v`, stopping at the largest finite code. */
  function EncodeFrom(v: real, raw: Raw): (r: Raw)
    requires raw <= MaxFinite
    requires raw == 0 || Pow2(raw - 1 - Bias) < v
    ensures raw <= r <= MaxFinite
    ensures r == MaxFinite || v <= Pow2(r - Bias)
    ensures r == 0 || Pow2(r - 1 - Bias) < v
    decreases MaxFinite - raw
  {
    if raw == MaxFinite || v <= Pow2(raw - Bias) then raw
    else EncodeFrom(v, raw + 1)
  }

  /** Encoding a value: the smallest code whose power of two is at least `v`,
      capped at 254. Zero and negative values encode to 0. */
  function Encode(v: real): (raw: Raw)
    ensures raw <= MaxFinite
    ensures raw == MaxFinite || v <= Pow2(raw - Bias)
    ensures raw == 0 || Pow2(raw - 1 - Bias) < v
    ensures v <= 0.0 ==> raw == 0
  {
    EncodeFrom(v, 0)
  }

  /** A code `raw` brackets `v` when its power of two reaches `v` (or it is
      the cap) and the power of the code below does not (or it is 0). */
  predicate Brackets(v: real, raw: Raw) {
    && raw <= MaxFinite
    && (raw == MaxFinite || v <= Pow2(raw - Bias))
    && (raw == 0 || Pow2(raw - 1 - Bias) < v)
  }

  /** At most one code brackets a value. */
  lemma BracketUnique(v: real, a: Raw, b: Raw)
    requires Brackets(v, a) && Brackets(v, b) && a <= b
    ensures a == b
  {
    if a < b {
      // v <= Pow2(a - Bias) <= Pow2(b - 1 - Bias) < v
      if a < b - 1 {
        Pow2Monotone(a - Bias, b - 1 - Bias);
      }
      assert false;
    }
  }

  /** The two inequalities of `Encode`'s contract pin its result down. */
  lemma EncodeUnique(v: real, raw: Raw)
    requires Brackets(v, raw)
    ensures Encode(v) == raw
  {
    var e := Encode(v);
    assert Brackets(v, e);
    if e <= raw {
      BracketUnique(v, e, raw);
    } else {
      BracketUnique(v, raw, e);
    }
  }

  /** Every finite code survives decoding and re-encoding. */
  lemma EncodeDecode(raw: Raw)
    requires raw <= MaxFinite
    ensures Decode(raw).Finite? && Encode(Decode(raw).value) == raw
  {
    if raw > 0 {
      Pow2Monotone(raw - 1 - Bias, raw - Bias);
    }
    EncodeUnique(Pow2(raw - Bias), raw);
  }

  /** A scale never under-represents a value within range, and rounds up by
      less than a factor of two. */
  lemma DecodeEncodeBounds(v: real)
    requires 0.0 < v
    ensures v <= Pow2(MaxFinite - Bias) ==> v <= Decode(Encode(v)).value
    ensures Pow2(-Bias) < v ==> Decode(Encode(v)).value < 2.0 * v
  {
    var raw := Encode(v);
    if v <= Pow2(MaxFinite - Bias) && raw == MaxFinite {
      assert v <= Decode(raw).value;
    }
    if Pow2(-Bias) < v && raw > 0 {
      Pow2Succ(raw - 1 - Bias);
    }
  }

  /** The largest finite float32, (2 - 2^-23) * 2^127. */
  function Float32Max(): real {
    Pow2(128) - Pow2(104)
  }

  /** The encoding vector: 0, 0.124, 1, 1.5, 2, 2.1 and the float32 maximum
      become 0, 124, 127, 128, 128, 129 and 254. */
  lemma EncodeVector()
    ensures Encode(0.0) == 0 && Encode(0.124) == 124
    ensures Encode(1.0) == 127 && Encode(1.5) == 128 && Encode(2.0) == 128 && Encode(2.1) == 129
    ensures Encode(Float32Max()) == 254
  {
    EncodeSmall();
    EncodeNearOne();
    EncodeFloat32Max();
  }

  /** Zero takes the smallest code; 0.124 lies just below 2^-3. */
  lemma EncodeSmall()
    ensures Encode(0.0) == 0 && Encode(0.124) == 124
  {
    assert Pow2(-3) == 0.125 && Pow2(-4) == 0.0625;
    EncodeUnique(0.124, 124);
  }

  /** Values around 1 round up to the next power of two. */
  lemma EncodeNearOne()
    ensures Encode(1.0) == 127 && Encode(1.5) == 128 && Encode(2.0) == 128 && Encode(2.1) == 129
  {
    assert Pow2(-1) == 0.5 && Pow2(0) == 1.0 && Pow2(1) == 2.0 && Pow2(2) == 4.0;
    EncodeUnique(1.0, 127);
    EncodeUnique(1.5, 128);
    EncodeUnique(2.0, 128);
    EncodeUnique(2.1, 129);
  }

  /** The float32 maximum lies between 2^127 and 2^128, so it takes the
      largest finite code. */
  lemma EncodeFloat32Max()
    ensures Encode(Float32Max()) == MaxFinite
  {
    Pow2Succ(127);
    Pow2Monotone(104, 127);
    Pow2Monotone(126, 127);
    EncodeUnique(Float32Max(), 254);
  }

  /** The decoding vector: 120, 124, 127, 128, 129 and 140 stand for 2^-7,
      2^-3, 1, 2, 4 and 8192. */
  lemma DecodeVector()
    ensures Decode(120) == Finite(0.0078125) && Decode(124) == Finite(0.125) && Decode(127) == Finite(1.0)
    ensures Decode(128) == Finite(2.0) && Decode(129) == Finite(4.0) && Decode(140) == Finite(8192.0)
  {
    assert Pow2(-7) == 0.0078125;
    assert Pow2(-3) == 0.125;
    assert Pow2(13) == 8192.0;
  }
}
