/**
  Building and reading tensors of the two 4-bit integer element types. A
  tensor built from logical values keeps its packed bytes in the `int32_data`
  field, one byte per entry; a tensor built in raw mode keeps caller-supplied
  packed bytes verbatim in `raw_data`. Reading either back unpacks the nibbles
  and drops the pad code.
 */
module FourBitTensor {
  import opened Wrappers
  import opened Bytes
  import opened Nibbles

  /** The 4-bit integer element types. */
  datatype ElemType = UInt4 | Int4

  datatype CodecError =
    | ShapeMismatch(expected: nat, actual: nat)
    | NotAByte(index: nat)

  /** Where the packed bytes live: a list of integers in the `int32_data`
      field, or a flat byte buffer in `raw_data`. */
  datatype Payload = Int32Data(words: seq<int>) | RawData(bytes: seq<bv8>)

  datatype Tensor = Tensor(name: string, elemType: ElemType, dims: seq<nat>, payload: Payload)

  /** Number of logical elements of a shape: the product of its dimensions,
      one for the empty (scalar) shape. */
  function ElementCount(dims: seq<nat>): nat
    decreases |dims|
  {
    if |dims| == 0 then 1 else dims[0] * ElementCount(dims[1..])
  }

  /** The inclusive value range of each element type. */
  function MinValue(t: ElemType): int {
    match t
    case UInt4 => 0
    case Int4 => -8
  }

  function MaxValue(t: ElemType): int {
    match t
    case UInt4 => 15
    case Int4 => 7
  }

  predicate InRange(t: ElemType, v: int) {
    MinValue(t) <= v <= MaxValue(t)
  }

  /** Saturation to the type's range: an out-of-range value becomes the
      bound on its side, an in-range value is kept. */
  function Saturate(t: ElemType, v: int): (c: int)
    ensures InRange(t, c)
    ensures InRange(t, v) ==> c == v
    ensures v < MinValue(t) ==> c == MinValue(t)
    ensures v > MaxValue(t) ==> c == MaxValue(t)
  {
    if v < MinValue(t) then MinValue(t) else if v > MaxValue(t) then MaxValue(t) else v
  }

  /** The logical value a 4-bit code stands for: itself for UINT4, and for
      INT4 the code sign-extended (a code of 8 or more is code - 16). */
  function DecodeCode(t: ElemType, code: bv8): (v: int)
    requires code < 16
    ensures InRange(t, v)
    ensures v % 16 == code as int
  {
    match t
    case UInt4 => code as int
    case Int4 => if code >= 8 then code as int - 16 else code as int
  }

  /** The 4-bit code of an in-range value is what its byte keeps after masking,
      and decoding that code gives the value back. */
  lemma CodeRoundTrip(t: ElemType, v: int)
    requires InRange(t, v)
    ensures Low(ToByte(v)) as int == v % 16
    ensures DecodeCode(t, Low(ToByte(v))) == v
  {
  }

  /** The bytes a tensor's payload holds, or the index of the first
      `int32_data` entry that is not a byte. */
  function PayloadBytes(p: Payload): (r: Result<seq<bv8>, CodecError>)
    ensures p.RawData? ==> r == Ok(p.bytes)
    ensures p.Int32Data? ==> (r.Ok? <==> forall k :: 0 <= k < |p.words| ==> 0 <= p.words[k] < 256)
    ensures p.Int32Data? && r.Ok? ==> |r.value| == |p.words| && forall k :: 0 <= k < |p.words| ==> r.value[k] as int == p.words[k]
    ensures r.Err? ==> r.error.NotAByte? && r.error.index < |p.words| && !(0 <= p.words[r.error.index] < 256)
  {
    match p
    case RawData(bytes) => Ok(bytes)
    case Int32Data(words) =>
      match FirstNonByte(words)
      case Some(k) => Err(NotAByte(k))
      case None => Ok(seq(|words|, k requires 0 <= k < |words| => ByteOf(words[k])))
  }

  /** A byte stored as an `int32_data` entry. */
  function ToWord(b: bv8): (w: int)
    ensures 0 <= w < 256 && ByteOf(w) == b
  {
    b as int
  }

  /** The index of the first entry outside [0, 255], if any. */
  function FirstNonByte(words: seq<int>): (r: Option<nat>)
    ensures r.None? <==> forall k :: 0 <= k < |words| ==> 0 <= words[k] < 256
    ensures r.Some? ==> r.value < |words| && !(0 <= words[r.value] < 256)
                        && forall k :: 0 <= k < r.value ==> 0 <= words[k] < 256
    decreases |words|
  {
    if |words| == 0 then None
    else if !(0 <= words[0] < 256) then Some(0)
    else match FirstNonByte(words[1..])
      case None => None
      case Some(k) => Some(k + 1)
  }

  /** `make_tensor` for a 4-bit type from logical values: the value count must
      match the shape; every value is saturated to the type's range, and the
      values' bytes are packed two per entry into `int32_data`. */
  function MakeTensor(name: string, t: ElemType, dims: seq<nat>, vals: seq<int>): (r: Result<Tensor, CodecError>)
    ensures r.Ok? <==> |vals| == ElementCount(dims)
    ensures r.Err? ==> r.error == ShapeMismatch(ElementCount(dims), |vals|)
    ensures r.Ok? ==> r.value.name == name && r.value.elemType == t && r.value.dims == dims
    ensures r.Ok? ==> r.value.payload.Int32Data? && |r.value.payload.words| == (|vals| + 1) / 2
    ensures r.Ok? ==> forall k :: 0 <= k < |r.value.payload.words| ==> 0 <= r.value.payload.words[k] < 256
  {
    if |vals| != ElementCount(dims) then Err(ShapeMismatch(ElementCount(dims), |vals|))
    else
      var bytes := seq(|vals|, k requires 0 <= k < |vals| => ToByte(Saturate(t, vals[k])));
      var packed := Pack(bytes);
      Ok(Tensor(name, t, dims, Int32Data(seq(|packed|, k requires 0 <= k < |packed| => ToWord(packed[k])))))
  }

  /** `make_tensor` in raw mode: the packed bytes are stored verbatim; only
      their number is checked against the shape. */
  function MakeRawTensor(name: string, t: ElemType, dims: seq<nat>, raw: seq<bv8>): (r: Result<Tensor, CodecError>)
    ensures r.Ok? <==> |raw| == (ElementCount(dims) + 1) / 2
    ensures r.Ok? ==> r.value == Tensor(name, t, dims, RawData(raw))
  {
    var expected := (ElementCount(dims) + 1) / 2;
    if |raw| != expected then Err(ShapeMismatch(expected, |raw|))
    else Ok(Tensor(name, t, dims, RawData(raw)))
  }

  /** `to_array` for a 4-bit tensor: unpack the payload's nibbles, low nibble
      first, keep as many as the shape has elements and decode each. */
  function ToArray(x: Tensor): (r: Result<seq<int>, CodecError>)
    ensures r.Ok? ==> |r.value| == ElementCount(x.dims)
    ensures r.Ok? ==> forall k :: 0 <= k < |r.value| ==> InRange(x.elemType, r.value[k])
  {
    var n := ElementCount(x.dims);
    var bytes :- PayloadBytes(x.payload);
    if |bytes| != (n + 1) / 2 then Err(ShapeMismatch((n + 1) / 2, |bytes|))
    else Ok(seq(n, k requires 0 <= k < n => DecodeCode(x.elemType, NibbleAt(bytes, k))))
  }

  /** The `int32_data` entries written for a packed buffer read back as that buffer. */
  lemma WordsOfBytes(packed: seq<bv8>)
    ensures PayloadBytes(Int32Data(seq(|packed|, k requires 0 <= k < |packed| => ToWord(packed[k]))))
            == Ok(packed)
  {
    var words := seq(|packed|, k requires 0 <= k < |packed| => ToWord(packed[k]));
    var got := PayloadBytes(Int32Data(words));
    assert got.Ok?;
    assert got.value == packed;
  }

  /** Building a tensor and reading it back returns every value saturated to
      the type's range, in the same order; in-range values come back as given. */
  lemma {:induction false} MakeThenRead(name: string, t: ElemType, dims: seq<nat>, vals: seq<int>)
    requires |vals| == ElementCount(dims)
    ensures MakeTensor(name, t, dims, vals).Ok?
    ensures ToArray(MakeTensor(name, t, dims, vals).value)
            == Ok(seq(|vals|, k requires 0 <= k < |vals| => Saturate(t, vals[k])))
    ensures (forall k :: 0 <= k < |vals| ==> InRange(t, vals[k])) ==>
              ToArray(MakeTensor(name, t, dims, vals).value) == Ok(vals)
  {
    var x := MakeTensor(name, t, dims, vals).value;
    var bytes := seq(|vals|, k requires 0 <= k < |vals| => ToByte(Saturate(t, vals[k])));
    var packed := Pack(bytes);
    var want := seq(|vals|, k requires 0 <= k < |vals| => Saturate(t, vals[k]));
    WordsOfBytes(packed);
    assert PayloadBytes(x.payload) == Ok(packed);
    var r := ToArray(x);
    assert r.Ok?;
    forall k | 0 <= k < |vals|
      ensures r.value[k] == want[k]
    {
      assert NibbleAt(packed, k) == Low(bytes[k]);
      CodeRoundTrip(t, Saturate(t, vals[k]));
    }
    assert r.value == want;
    if forall k :: 0 <= k < |vals| ==> InRange(t, vals[k]) {
      assert want == vals;
    }
  }

  /** Reading back a built tensor gives any sequence that agrees, element by
      element, with the saturated values. */
  lemma ReadsSaturated(name: string, t: ElemType, dims: seq<nat>, vals: seq<int>, want: seq<int>)
    requires |vals| == ElementCount(dims) && |want| == |vals|
    requires forall k :: 0 <= k < |vals| ==> want[k] == Saturate(t, vals[k])
    ensures MakeTensor(name, t, dims, vals).Ok?
    ensures ToArray(MakeTensor(name, t, dims, vals).value) == Ok(want)
  {
    MakeThenRead(name, t, dims, vals);
    assert seq(|vals|, k requires 0 <= k < |vals| => Saturate(t, vals[k])) == want;
  }

  /** Out-of-range INT4 values saturate: 9 and -9 read back as 7 and -8. */
  lemma Int4SaturationVector()
    ensures MakeTensor("s", Int4, [3], [9, -9, 3]).Ok?
    ensures ToArray(MakeTensor("s", Int4, [3], [9, -9, 3]).value) == Ok([7, -8, 3])
  {
    assert ElementCount([3]) == 3;
    ReadsSaturated("s", Int4, [3], [9, -9, 3], [7, -8, 3]);
  }

  /** Out-of-range UINT4 values saturate: -1 and 16 read back as 0 and 15. */
  lemma UInt4SaturationVector()
    ensures MakeTensor("u", UInt4, [2], [-1, 16]).Ok?
    ensures ToArray(MakeTensor("u", UInt4, [2], [-1, 16]).value) == Ok([0, 15])
  {
    assert ElementCount([2]) == 2;
    ReadsSaturated("u", UInt4, [2], [-1, 16], [0, 15]);
  }

  /** A raw buffer made by the packer from 4-bit codes reads back as values
      whose 4-bit codes are the original codes, for both element types. */
  lemma {:induction false} RawPackThenRead(name: string, t: ElemType, dims: seq<nat>, codes: seq<bv8>)
    requires |codes| == ElementCount(dims)
    requires forall k :: 0 <= k < |codes| ==> codes[k] < 16
    ensures MakeRawTensor(name, t, dims, Pack(codes)).Ok?
    ensures ToArray(MakeRawTensor(name, t, dims, Pack(codes)).value).Ok?
    ensures var vals := ToArray(MakeRawTensor(name, t, dims, Pack(codes)).value).value;
            |vals| == |codes| && forall k :: 0 <= k < |codes| ==> vals[k] % 16 == codes[k] as int
  {
    var packed := Pack(codes);
    var x := MakeRawTensor(name, t, dims, packed).value;
    var r := ToArray(x);
    assert r.Ok?;
    forall k | 0 <= k < |codes|
      ensures r.value[k] % 16 == codes[k] as int
    {
      assert NibbleAt(packed, k) == Low(codes[k]);
      LowOfCode(codes[k]);
    }
  }

  /** Negative INT4 values take one byte each before packing, so a tensor of
      n copies of -4 has ceil(n / 2) entries, each full byte being 0xCC. */
  lemma {:induction false} NegativeValuesDoNotInflate(dims: seq<nat>)
    ensures var n := ElementCount(dims);
            var r := MakeTensor("y", Int4, dims, seq(n, k => -4));
            && r.Ok?
            && |r.value.payload.words| == (n + 1) / 2
            && forall k :: 0 <= k < n / 2 ==> r.value.payload.words[k] == 0xCC
  {
    var n := ElementCount(dims);
    var vals := seq(n, k => -4);
    var r := MakeTensor("y", Int4, dims, vals);
    var bytes := seq(|vals|, k requires 0 <= k < |vals| => ToByte(Saturate(Int4, vals[k])));
    assert Saturate(Int4, -4) == -4 && ToByte(-4) == 0xFC;
    assert PackPair(0xFC, 0xFC) == 0xCC;
    PackUniform(bytes, 0xFC);
  }

  /** Pairs of equal bytes pack to that byte's pair. */
  lemma PackUniform(bytes: seq<bv8>, b: bv8)
    requires forall k :: 0 <= k < |bytes| ==> bytes[k] == b
    ensures forall k :: 0 <= k < |bytes| / 2 ==> Pack(bytes)[k] == PackPair(b, b)
  {
    forall k | 0 <= k < |bytes| / 2
      ensures Pack(bytes)[k] == PackPair(b, b)
    {
      assert Padded(bytes)[2 * k] == bytes[2 * k] == b;
      assert Padded(bytes)[2 * k + 1] == bytes[2 * k + 1] == b;
    }
  }
}
