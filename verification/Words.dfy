/** Fixed-width integers of the source, as unbounded integers reduced to their range. */
module Words {
  const TWO_31: int := 0x8000_0000
  const TWO_32: int := 0x1_0000_0000
  const TWO_63: int := 0x8000_0000_0000_0000
  const TWO_64: int := 0x1_0000_0000_0000_0000

  /** Conversion to `uint32_t`. */
  function UInt32(x: int): (r: int)
    ensures 0 <= r < TWO_32
  {
    x % TWO_32
  }

  /** Conversion to `uint64_t`, `uintptr_t` and `size_t`. */
  function UInt64(x: int): (r: int)
    ensures 0 <= r < TWO_64
  {
    x % TWO_64
  }

  /** Conversion to `int64_t`. */
  function Int64(x: int): (r: int)
    ensures -TWO_63 <= r < TWO_63
  {
    (x + TWO_63) % TWO_64 - TWO_63
  }

  /** Conversion to `int32_t`. */
  function Int32(x: int): (r: int)
    ensures -TWO_31 <= r < TWO_31
  {
    (x + TWO_31) % TWO_32 - TWO_31
  }

  lemma UInt32Exact(x: int)
    requires 0 <= x < TWO_32
    ensures UInt32(x) == x
  {
  }

  lemma Int64Absorbs(a: int, b: int)
    ensures Int64(Int64(a) + b) == Int64(a + b)
  {
    var k := (a + TWO_63) / TWO_64;
    assert a + TWO_63 == k * TWO_64 + (a + TWO_63) % TWO_64;
    assert Int64(a) + b == a + b - k * TWO_64;
    assert (a + b + TWO_63 - k * TWO_64) % TWO_64 == (a + b + TWO_63) % TWO_64;
  }

  lemma UInt32Absorbs(a: int, b: int)
    ensures UInt32(UInt32(a) + b) == UInt32(a + b)
  {
    var k := a / TWO_32;
    assert a == k * TWO_32 + a % TWO_32;
    assert (a + b - k * TWO_32) % TWO_32 == (a + b) % TWO_32;
  }

  lemma UInt64Absorbs(a: int, b: int)
    ensures UInt64(UInt64(a) + b) == UInt64(a + b)
  {
    var k := a / TWO_64;
    assert a == k * TWO_64 + a % TWO_64;
    assert (a + b - k * TWO_64) % TWO_64 == (a + b) % TWO_64;
  }
}
