/**
  Sub-byte packing of 4-bit element codes (INT4, UINT4, FLOAT4E2M1): two codes
  per byte, the element with the even index in the low nibble and the element
  with the odd index in the high nibble; an odd count is padded with one zero
  code that is not part of the logical tensor.
 */
module Nibbles {
  import opened Bytes

  /** The low four bits of a byte: the `& 0x0F` mask. */
  function Low(b: bv8): (r: bv8)
    ensures r < 16
  {
    b & 0x0F
  }

  /** The high four bits of a byte, moved down to a code in [0, 15]. */
  function High(b: bv8): (r: bv8)
    ensures r < 16
  {
    b >> 4
  }

  /** One packed byte: the masked even element in the low nibble, OR the
      masked odd element shifted left by four. */
  function PackPair(lo: bv8, hi: bv8): (r: bv8)
    ensures Low(r) == Low(lo) && High(r) == Low(hi)
  {
    (lo & 0x0F) | ((hi & 0x0F) << 4)
  }

  /** The single byte that an int8 element occupies once the array is
      viewed as unsigned bytes: its two's-complement bit pattern. */
  function ToByte(v: int): (r: bv8)
    requires -128 <= v < 256
    ensures r as int == v % 256
  {
    ByteOf(if v < 0 then v + 256 else v)
  }

  /** The nibble code with index `i` of a packed buffer, read the way the
      unpacker reads it: even index from the low nibble, odd from the high. */
  function NibbleAt(packed: seq<bv8>, i: nat): (r: bv8)
    ensures r < 16
    requires i < 2 * |packed|
  {
    if i % 2 == 0 then Low(packed[i / 2]) else High(packed[i / 2])
  }

  /** The flattened array, resized to an even length with one zero element. */
  function Padded(a: seq<bv8>): (p: seq<bv8>)
    ensures |p| % 2 == 0 && |p| == 2 * ((|a| + 1) / 2)
    ensures p[..|a|] == a
    ensures |a| % 2 == 1 ==> p[|a|] == 0
  {
    if |a| % 2 == 1 then a + [0] else a
  }

  /** The packer: pad an odd-sized array with one zero, then pack each
      even-indexed element with the odd-indexed element that follows it. */
  function Pack(a: seq<bv8>): (r: seq<bv8>)
    ensures |r| == (|a| + 1) / 2
    ensures forall i :: 0 <= i < |a| ==> NibbleAt(r, i) == Low(a[i])
    ensures |a| % 2 == 1 ==> High(r[|r| - 1]) == 0
  {
    var flat := Padded(a);
    seq(|flat| / 2, j requires 0 <= j < |flat| / 2 => PackPair(flat[2 * j], flat[2 * j + 1]))
  }

  /** The unpacker: every byte yields its low nibble first, then its high nibble. */
  function Unpack(packed: seq<bv8>): (r: seq<bv8>)
    ensures |r| == 2 * |packed|
    ensures forall j :: 0 <= j < |packed| ==> r[2 * j] == Low(packed[j]) && r[2 * j + 1] == High(packed[j])
    decreases |packed|
  {
    if |packed| == 0 then []
    else [Low(packed[0]), High(packed[0])] + Unpack(packed[1..])
  }

  /** Masking every element to its 4-bit code. */
  function MaskAll(a: seq<bv8>): (r: seq<bv8>)
    ensures |r| == |a|
    ensures forall i :: 0 <= i < |a| ==> r[i] == Low(a[i])
  {
    seq(|a|, i requires 0 <= i < |a| => Low(a[i]))
  }

  /** Unpacking a packed buffer gives back the masked codes in order and the
      original count; the pad code, if any, is the one extra zero at the end. */
  lemma {:induction false} UnpackPack(a: seq<bv8>)
    ensures Unpack(Pack(a))[..|a|] == MaskAll(a)
    ensures |a| % 2 == 1 ==> Unpack(Pack(a))[|a|] == 0
  {
    var r := Pack(a);
    var u := Unpack(r);
    forall i | 0 <= i < |a|
      ensures u[i] == Low(a[i])
    {
      var k := i / 2;
      assert NibbleAt(r, i) == Low(a[i]);
      if i % 2 == 0 {
        assert i == 2 * k;
        assert u[2 * k] == Low(r[k]);
      } else {
        assert i == 2 * k + 1;
        assert u[2 * k + 1] == High(r[k]);
      }
    }
    assert u[..|a|] == MaskAll(a);
    if |a| % 2 == 1 {
      var k := |r| - 1;
      assert |a| == 2 * k + 1;
      assert u[2 * k + 1] == High(r[k]);
    }
  }

  /** The other direction: any byte buffer is the packing of its own nibbles. */
  lemma {:induction false} PackUnpack(packed: seq<bv8>)
    ensures Pack(Unpack(packed)) == packed
  {
    var u := Unpack(packed);
    var r := Pack(u);
    assert |r| == |packed|;
    forall j | 0 <= j < |packed|
      ensures r[j] == packed[j]
    {
      assert u[2 * j] == Low(packed[j]) && u[2 * j + 1] == High(packed[j]);
      assert NibbleAt(r, 2 * j) == Low(u[2 * j]);
      assert NibbleAt(r, 2 * j + 1) == Low(u[2 * j + 1]);
      LowOfCode(High(packed[j]));
      ByteFromNibbles(r[j], packed[j]);
    }
  }

  /** Masking a 4-bit code leaves it unchanged. */
  lemma LowOfCode(c: bv8)
    requires c < 16
    ensures Low(c) == c
  {
  }

  /** A byte is determined by its two nibbles. */
  lemma ByteFromNibbles(x: bv8, y: bv8)
    requires Low(x) == Low(y) && High(x) == High(y)
    ensures x == y
  {
  }
}
