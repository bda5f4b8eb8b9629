/**
  UTF-8, the encoding a text attribute value is stored in: every Unicode
  scalar value becomes one to four bytes, and a strict decoder accepts
  exactly the byte strings the encoder can produce. The arithmetic works on
  byte values as integers; `Encode` and `Decode` move them to and from bytes.
 */
module Utf8 {
  import opened Wrappers
  import opened Bytes

  /** The number of bytes UTF-8 spends on a scalar value. */
  function Width(cp: int): nat {
    if cp < 0x80 then 1 else if cp < 0x800 then 2 else if cp < 0x10000 then 3 else 4
  }

  predicate AllBytes(us: seq<int>) {
    forall k :: 0 <= k < |us| ==> 0 <= us[k] < 256
  }

  /** The byte values encoding one character: the lead byte carries the
      high bits, each continuation byte 10xxxxxx six more. */
  function EncodeChar(c: char): (us: seq<int>)
    ensures |us| == Width(c as int) && AllBytes(us)
    ensures c as int < 0x80 ==> us == [c as int]
  {
    var cp := c as int;
    if cp < 0x80 then [cp]
    else if cp < 0x800 then [0xC0 + cp / 64, 0x80 + cp % 64]
    else if cp < 0x10000 then [0xE0 + cp / 4096, 0x80 + cp / 64 % 64, 0x80 + cp % 64]
    else [0xF0 + cp / 262144, 0x80 + cp / 4096 % 64, 0x80 + cp / 64 % 64, 0x80 + cp % 64]
  }

  /** The byte values encoding a text: its characters' encodings, in order. */
  function EncodeUnits(s: string): (us: seq<int>)
    ensures |s| <= |us| <= 4 * |s| && AllBytes(us)
    ensures (forall i :: 0 <= i < |s| ==> s[i] as int < 0x80) ==>
              |us| == |s| && forall i :: 0 <= i < |s| ==> us[i] == s[i] as int
    decreases |s|
  {
    if |s| == 0 then [] else EncodeChar(s[0]) + EncodeUnits(s[1..])
  }

  /** A continuation byte, 10xxxxxx. */
  predicate IsCont(u: int) {
    0x80 <= u < 0xC0
  }

  /** Decodes the character at the front of `us` and its width, rejecting
      truncated sequences, stray continuation bytes, overlong forms,
      surrogates and values past U+10FFFF. */
  function DecodeFirst(us: seq<int>): (r: Option<(char, nat)>)
    ensures r.Some? ==> 1 <= r.value.1 <= |us|
  {
    if |us| == 0 then None
    else
      var u0 := us[0];
      if 0 <= u0 < 0x80 then Some((u0 as char, 1))
      else if 0xC0 <= u0 < 0xE0 then
        if |us| < 2 || !IsCont(us[1]) then None
        else
          var cp := (u0 - 0xC0) * 64 + (us[1] - 0x80);
          if cp < 0x80 then None else Some((cp as char, 2))
      else if 0xE0 <= u0 < 0xF0 then
        if |us| < 3 || !IsCont(us[1]) || !IsCont(us[2]) then None
        else
          var cp := (u0 - 0xE0) * 4096 + (us[1] - 0x80) * 64 + (us[2] - 0x80);
          if cp < 0x800 || 0xD800 <= cp < 0xE000 then None else Some((cp as char, 3))
      else if 0xF0 <= u0 < 0xF8 then
        if |us| < 4 || !IsCont(us[1]) || !IsCont(us[2]) || !IsCont(us[3]) then None
        else
          var cp := (u0 - 0xF0) * 262144 + (us[1] - 0x80) * 4096 + (us[2] - 0x80) * 64 + (us[3] - 0x80);
          if cp < 0x10000 || cp >= 0x110000 then None else Some((cp as char, 4))
      else None
  }

  /** The strict decoder on byte values. */
  function DecodeUnits(us: seq<int>): (r: Option<string>)
    decreases |us|
  {
    if |us| == 0 then Some([])
    else match DecodeFirst(us)
      case None => None
      case Some((c, n)) =>
        match DecodeUnits(us[n..])
        case None => None
        case Some(rest) => Some([c] + rest)
  }

  /** The encoding of a text as bytes. */
  function Encode(s: string): (bs: seq<bv8>)
    ensures |bs| == |EncodeUnits(s)| && forall k :: 0 <= k < |bs| ==> bs[k] as int == EncodeUnits(s)[k]
  {
    var us := EncodeUnits(s);
    seq(|us|, k requires 0 <= k < |us| => ByteOf(us[k]))
  }

  /** The values of a byte string's bytes. */
  function Values(bs: seq<bv8>): (us: seq<int>)
    ensures |us| == |bs| && AllBytes(us)
    ensures forall k :: 0 <= k < |bs| ==> us[k] == bs[k] as int
  {
    seq(|bs|, k requires 0 <= k < |bs| => bs[k] as int)
  }

  /** ASCII text encodes as its own character codes. */
  lemma AsciiValues(s: string)
    requires forall i :: 0 <= i < |s| ==> s[i] as int < 0x80
    ensures Values(Encode(s)) == seq(|s|, i requires 0 <= i < |s| => s[i] as int)
  {
  }

  /** The strict decoder: a text when `bs` is well-formed UTF-8, else None. */
  function Decode(bs: seq<bv8>): Option<string> {
    DecodeUnits(Values(bs))
  }

  /** Base-64 digits of a two-byte scalar value. */
  lemma TwoDigits(cp: int)
    requires 0x80 <= cp < 0x800
    ensures 2 <= cp / 64 < 32 && 0 <= cp % 64 < 64
    ensures cp == (cp / 64) * 64 + cp % 64
  {
  }

  /** Base-64 digits of a three-byte scalar value. */
  lemma ThreeDigits(cp: int)
    requires 0x800 <= cp < 0x10000
    ensures 0 <= cp / 4096 < 16 && 0 <= cp / 64 % 64 < 64 && 0 <= cp % 64 < 64
    ensures cp == (cp / 4096) * 4096 + (cp / 64 % 64) * 64 + cp % 64
  {
    assert cp / 64 == (cp / 4096) * 64 + cp / 64 % 64;
  }

  /** Base-64 digits of a four-byte scalar value. */
  lemma FourDigits(cp: int)
    requires 0x10000 <= cp < 0x110000
    ensures 0 <= cp / 262144 < 5 && 0 <= cp / 4096 % 64 < 64
    ensures 0 <= cp / 64 % 64 < 64 && 0 <= cp % 64 < 64
    ensures cp == (cp / 262144) * 262144 + (cp / 4096 % 64) * 4096 + (cp / 64 % 64) * 64 + cp % 64
  {
    assert cp / 4096 == (cp / 262144) * 64 + cp / 4096 % 64;
    assert cp / 64 == (cp / 4096) * 64 + cp / 64 % 64;
  }

  /** The decoder reads back the first character of any encoding. */
  lemma DecodeFirstOfEncodeChar(c: char, rest: seq<int>)
    ensures DecodeFirst(EncodeChar(c) + rest) == Some((c, Width(c as int)))
  {
    var cp := c as int;
    if 0x80 <= cp < 0x800 {
      TwoDigits(cp);
    } else if 0x800 <= cp < 0x10000 {
      ThreeDigits(cp);
    } else if 0x10000 <= cp {
      FourDigits(cp);
    }
  }

  /** Splitting `q * 64 + r` back into its base-64 digits. */
  lemma Digits64(q: int, r: int)
    requires 0 <= q && 0 <= r < 64
    ensures (q * 64 + r) / 64 == q && (q * 64 + r) % 64 == r
  {
  }

  lemma EncodeOfTwo(u0: int, u1: int)
    requires 0xC0 <= u0 < 0xE0 && IsCont(u1)
    requires 0x80 <= (u0 - 0xC0) * 64 + (u1 - 0x80)
    ensures EncodeChar(((u0 - 0xC0) * 64 + (u1 - 0x80)) as char) == [u0, u1]
  {
    Digits64(u0 - 0xC0, u1 - 0x80);
  }

  lemma EncodeOfThree(u0: int, u1: int, u2: int)
    requires 0xE0 <= u0 < 0xF0 && IsCont(u1) && IsCont(u2)
    requires var cp := (u0 - 0xE0) * 4096 + (u1 - 0x80) * 64 + (u2 - 0x80);
             0x800 <= cp && !(0xD800 <= cp < 0xE000)
    ensures EncodeChar(((u0 - 0xE0) * 4096 + (u1 - 0x80) * 64 + (u2 - 0x80)) as char) == [u0, u1, u2]
  {
    var hi := (u0 - 0xE0) * 64 + (u1 - 0x80);
    Digits64(hi, u2 - 0x80);
    Digits64(u0 - 0xE0, u1 - 0x80);
    var cp := hi * 64 + (u2 - 0x80);
    assert cp / 64 == hi;
    assert cp / 4096 == hi / 64;
  }

  lemma EncodeOfFour(u0: int, u1: int, u2: int, u3: int)
    requires 0xF0 <= u0 < 0xF8 && IsCont(u1) && IsCont(u2) && IsCont(u3)
    requires var cp := (u0 - 0xF0) * 262144 + (u1 - 0x80) * 4096 + (u2 - 0x80) * 64 + (u3 - 0x80);
             0x10000 <= cp < 0x110000
    ensures EncodeChar(((u0 - 0xF0) * 262144 + (u1 - 0x80) * 4096 + (u2 - 0x80) * 64 + (u3 - 0x80)) as char)
            == [u0, u1, u2, u3]
  {
    var top := (u0 - 0xF0) * 64 + (u1 - 0x80);
    var mid := top * 64 + (u2 - 0x80);
    Digits64(u0 - 0xF0, u1 - 0x80);
    Digits64(top, u2 - 0x80);
    Digits64(mid, u3 - 0x80);
    var cp := mid * 64 + (u3 - 0x80);
    assert cp / 64 == mid;
    assert cp / 4096 == mid / 64 == top;
    assert cp / 262144 == top / 64;
  }

  /** Whatever the decoder accepts at the front is the encoding of the
      character it returns. */
  lemma EncodeCharOfDecodeFirst(us: seq<int>)
    requires DecodeFirst(us).Some?
    ensures var (c, n) := DecodeFirst(us).value;
            n == Width(c as int) && us[..n] == EncodeChar(c)
  {
    var n := DecodeFirst(us).value.1;
    if n == 2 {
      EncodeOfTwo(us[0], us[1]);
    } else if n == 3 {
      EncodeOfThree(us[0], us[1], us[2]);
    } else if n == 4 {
      EncodeOfFour(us[0], us[1], us[2], us[3]);
    }
  }

  /** Decoding the byte values of an encoded text gives the text back. */
  lemma {:induction false} DecodeEncodeUnits(s: string)
    ensures DecodeUnits(EncodeUnits(s)) == Some(s)
    decreases |s|
  {
    if |s| > 0 {
      var head := EncodeChar(s[0]);
      var tail := EncodeUnits(s[1..]);
      DecodeFirstOfEncodeChar(s[0], tail);
      assert (head + tail)[|head|..] == tail;
      DecodeEncodeUnits(s[1..]);
      assert [s[0]] + s[1..] == s;
    }
  }

  /** Every byte-value string the decoder accepts is the encoding of what it
      decodes to. */
  lemma {:induction false} EncodeDecodeUnits(us: seq<int>)
    requires DecodeUnits(us).Some?
    ensures EncodeUnits(DecodeUnits(us).value) == us
    decreases |us|
  {
    if |us| > 0 {
      var c, n := DecodeStep(us);
      var rest := DecodeUnits(us[n..]).value;
      EncodeDecodeUnits(us[n..]);
      EncodeCons(c, rest);
      SplitJoin(us, n, EncodeChar(c), EncodeUnits(rest));
    }
  }

  lemma SplitJoin(us: seq<int>, n: nat, a: seq<int>, b: seq<int>)
    requires n <= |us| && us[..n] == a && us[n..] == b
    ensures a + b == us
  {
    assert us == us[..n] + us[n..];
  }

  /** One step of an accepted decoding: a first character, encoded by the
      first `n` byte values, and an accepted rest. */
  lemma DecodeStep(us: seq<int>) returns (c: char, n: nat)
    requires |us| > 0 && DecodeUnits(us).Some?
    ensures 1 <= n <= |us| && us[..n] == EncodeChar(c)
    ensures DecodeUnits(us[n..]).Some? && DecodeUnits(us).value == [c] + DecodeUnits(us[n..]).value
  {
    c := DecodeFirst(us).value.0;
    n := DecodeFirst(us).value.1;
    EncodeCharOfDecodeFirst(us);
  }

  /** Encoding a text that starts with `c` starts with the encoding of `c`. */
  lemma EncodeCons(c: char, rest: string)
    ensures EncodeUnits([c] + rest) == EncodeChar(c) + EncodeUnits(rest)
  {
    assert ([c] + rest)[0] == c && ([c] + rest)[1..] == rest;
  }

  /** Decoding an encoded text gives the text back. */
  lemma DecodeEncode(s: string)
    ensures Decode(Encode(s)) == Some(s)
  {
    assert Values(Encode(s)) == EncodeUnits(s);
    DecodeEncodeUnits(s);
  }

  /** Every byte string the decoder accepts is the encoding of what it
      decodes to, so the encoding is a bijection onto well-formed UTF-8. */
  lemma EncodeDecode(bs: seq<bv8>)
    requires Decode(bs).Some?
    ensures Encode(Decode(bs).value) == bs
  {
    var us := Values(bs);
    EncodeDecodeUnits(us);
    var e := Encode(Decode(bs).value);
    assert |e| == |bs|;
    forall k | 0 <= k < |bs|
      ensures e[k] == bs[k]
    {
      assert e[k] as int == bs[k] as int;
    }
  }
}
