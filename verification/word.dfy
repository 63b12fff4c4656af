/** Fixed-width unsigned integers as the Arduino core uses them: `uint8_t`
    bytes and the 32-bit `uint32_t`/`unsigned long` of `millis()` and of the
    NTP timestamp fields, with C's wrap-around written out. */
module Word {

  const TWO32: int := 0x1_0000_0000

  type Byte = b: int | 0 <= b < 0x100
  type U32 = n: int | 0 <= n < 0x1_0000_0000
  /** The `int8_t` of the rule and time-zone parameters. */
  type I8 = n: int | -0x80 <= n < 0x80

  /** `a - b` on unsigned 32-bit operands: the distance from `b` forward to
      `a` around the 2^32 circle, which is how elapsed ticks are measured. */
  function Sub32(a: U32, b: U32): (r: U32)
    ensures (b + r) % TWO32 == a
    ensures a >= b ==> r == a - b
    ensures a < b ==> r == a - b + TWO32
  {
    (a - b) % TWO32
  }

  /** `a + b` on unsigned 32-bit operands. */
  function Add32(a: U32, b: U32): (r: U32)
    ensures Sub32(r, b) == a
    ensures Sub32(r, a) == b
    ensures a + b < TWO32 ==> r == a + b
    ensures a + b >= TWO32 ==> r == a + b - TWO32
  {
    (a + b) % TWO32
  }

  /** Euclidean division is determined by its quotient and remainder. */
  lemma DivModUnique(x: int, k: int, q: int, r: int)
    requires 0 <= r < k
    requires x == q * k + r
    ensures x / k == q && x % k == r
  {
    var q', r' := x / k, x % k;
    assert q' * k + r' == q * k + r;
    if q' < q {
      assert (q - q') * k >= k by { MulAtLeast(q - q', k); }
    } else if q' > q {
      assert (q' - q) * k >= k by { MulAtLeast(q' - q, k); }
    }
  }

  lemma MulAtLeast(a: int, k: int)
    requires a >= 1 && k >= 0
    ensures a * k >= k
  {
  }

  /** Four bytes read as one big-endian (network order) 32-bit value. */
  function BigEndian(b0: Byte, b1: Byte, b2: Byte, b3: Byte): (r: U32)
    ensures r / 0x100_0000 == b0
    ensures r / 0x1_0000 % 0x100 == b1
    ensures r / 0x100 % 0x100 == b2
    ensures r % 0x100 == b3
  {
    var r := b0 * 0x100_0000 + b1 * 0x1_0000 + b2 * 0x100 + b3;
    DivModUnique(r, 0x100_0000, b0, b1 * 0x1_0000 + b2 * 0x100 + b3);
    DivModUnique(r, 0x1_0000, b0 * 0x100 + b1, b2 * 0x100 + b3);
    DivModUnique(b0 * 0x100 + b1, 0x100, b0, b1);
    DivModUnique(r, 0x100, b0 * 0x1_0000 + b1 * 0x100 + b2, b3);
    DivModUnique(b0 * 0x1_0000 + b1 * 0x100 + b2, 0x100, b0 * 0x100 + b1, b2);
    r
  }

  /** The four network-order bytes of a 32-bit value. */
  function ToBigEndian(x: U32): (r: seq<Byte>)
    ensures |r| == 4
    ensures BigEndian(r[0], r[1], r[2], r[3]) == x
  {
    var b0, b1, b2, b3 := x / 0x100_0000, x / 0x1_0000 % 0x100, x / 0x100 % 0x100, x % 0x100;
    assert x == (x / 0x100) * 0x100 + b3;
    assert x / 0x100 == (x / 0x1_0000) * 0x100 + b2;
    assert x / 0x1_0000 == b0 * 0x100 + b1;
    [b0, b1, b2, b3]
  }

  /** Decoding the bytes of an encoding gives back the bytes: together with
      the ensures of `ToBigEndian`, the two are inverse bijections. */
  lemma ToBigEndianOfBigEndian(b0: Byte, b1: Byte, b2: Byte, b3: Byte)
    ensures ToBigEndian(BigEndian(b0, b1, b2, b3)) == [b0, b1, b2, b3]
  {
  }

  /** A big-endian field is zero exactly when all four of its bytes are. */
  lemma BigEndianZero(b0: Byte, b1: Byte, b2: Byte, b3: Byte)
    ensures BigEndian(b0, b1, b2, b3) == 0 <==> b0 == 0 && b1 == 0 && b2 == 0 && b3 == 0
  {
  }
}
