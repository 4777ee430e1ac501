/** Unsigned 32- and 64-bit C arithmetic (wrap-around modulo 2^32 or 2^64)
    on mathematical integers. */
module Unsigned {

  const TwoTo32: nat := 0x1_0000_0000
  const TwoTo64: nat := 0x1_0000_0000_0000_0000

  type U32 = x: int | 0 <= x < 0x1_0000_0000

  /** the value an `unsigned` holds after an assignment of `x` */
  function Wrap32(x: int): (r: U32)
    ensures 0 <= x < TwoTo32 ==> r == x
    ensures (x - r) % TwoTo32 == 0
  {
    x % TwoTo32
  }

  /** taking a multiple of 2^32 away does not change the wrapped value */
  lemma WrapMultiple(x: int, k: int)
    ensures Wrap32(x - TwoTo32 * k) == Wrap32(x)
  {
  }

  /** wrapping an intermediate sum does not change the wrapped total */
  lemma WrapAdd(x: int, y: int)
    ensures Wrap32(Wrap32(x) + y) == Wrap32(x + y)
  {
    WrapMultiple(x + y, x / TwoTo32);
  }

  /** wrapping a subtrahend does not change the wrapped difference */
  lemma WrapSub(x: int, y: int)
    ensures Wrap32(x - Wrap32(y)) == Wrap32(x - y)
  {
    WrapMultiple(x - y, -(y / TwoTo32));
  }

  /** wrapping the factors does not change the wrapped product */
  lemma WrapMul(x: int, y: int)
    ensures Wrap32(Wrap32(x) * Wrap32(y)) == Wrap32(x * y)
  {
    var qx, qy := x / TwoTo32, y / TwoTo32;
    var rx, ry := Wrap32(x), Wrap32(y);
    assert x == TwoTo32 * qx + rx;
    assert y == TwoTo32 * qy + ry;
    var k := qx * y + rx * qy;
    assert x * y == rx * ry + TwoTo32 * k by {
      calc {
        x * y;
        (TwoTo32 * qx + rx) * y;
        TwoTo32 * qx * y + rx * y;
        TwoTo32 * qx * y + rx * (TwoTo32 * qy + ry);
        TwoTo32 * (qx * y + rx * qy) + rx * ry;
      }
    }
    WrapMultiple(x * y, k);
  }
}
