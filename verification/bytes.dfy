/**
  Bytes are `bv8` values throughout the model, so that masks, shifts and ORs
  read as they do on unsigned bytes. This module holds the one conversion
  from an integer known to fit into a byte.
 */
module Bytes {

  /** An integer known to lie in [0, 255], as the byte with that value. */
  function ByteOf(w: int): (b: bv8)
    requires 0 <= w < 256
    ensures b as int == w
  {
    assert w % 256 == w;
    w as bv8
  }
}
