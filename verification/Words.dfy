/** Machine words: 32-bit unsigned wrap-around, the wrap-aware time comparison, and little-endian byte order. */
module Words {
  const U32 := 0x1_0000_0000

  type byte = x: int | 0 <= x < 256

  datatype Option<+T> = None | Some(value: T)

  /** The value an unsigned 32-bit expression holds when its mathematical value is x. */
  function Wrap(x: int): (w: nat)
    ensures w < U32
  {
    x % U32
  }

  /** Wrapping is a homomorphism for sums: intermediate wraps can be dropped. */
  lemma WrapOfWrap(x: int, y: int)
    ensures Wrap(Wrap(x) + y) == Wrap(x + y)
    ensures Wrap(Wrap(x) - y) == Wrap(x - y)
    ensures Wrap(y - Wrap(x)) == Wrap(y - x)
  {
    var q := x / U32;
    assert x == q * U32 + Wrap(x);
    AddMultiple(Wrap(x) + y, q);
    AddMultiple(Wrap(x) - y, q);
    AddMultiple(y - x, q);
  }

  /** Congruent values stay congruent when shifted. */
  lemma WrapShift(a: int, b: int, k: int)
    requires Wrap(a) == Wrap(b)
    ensures Wrap(a + k) == Wrap(b + k)
  {
    WrapOfWrap(a, k);
    WrapOfWrap(b, k);
  }

  lemma AddMultiple(x: int, q: int)
    ensures Wrap(x + q * U32) == Wrap(x)
  {
  }

  /** Two wrapped instants closer together than one turn of the counter are as far apart as they look. */
  lemma WrapDifference(later: int, earlier: int)
    requires 0 <= later - earlier < U32
    ensures Wrap(Wrap(later) - Wrap(earlier)) == later - earlier
  {
    WrapOfWrap(later, Wrap(earlier));
    WrapOfWrap(earlier, later);
  }

  /** pbio_util_time_has_passed: sample - base < UINT32_MAX / 2 in unsigned arithmetic. */
  predicate HasPassed(sample: int, base: int) {
    Wrap(sample - base) < 0x7FFF_FFFF
  }

  /** On instants less than half a turn apart the wrapped comparison orders them as true time does. */
  lemma HasPassedIsTrueOrder(sample: int, base: int)
    requires -0x8000_0001 <= sample - base < 0x7FFF_FFFF
    ensures HasPassed(Wrap(sample), Wrap(base)) <==> sample >= base
  {
    WrapOfWrap(sample, Wrap(base));
    WrapOfWrap(base, sample);
    assert Wrap(Wrap(sample) - Wrap(base)) == Wrap(sample - base);
    if sample < base {
      AddMultiple(sample - base, 1);
      SmallIsWrapped(sample - base + U32);
    } else {
      SmallIsWrapped(sample - base);
    }
  }

  lemma SmallIsWrapped(x: nat)
    requires x < U32
    ensures Wrap(x) == x
  {
  }

  /** Unsigned little-endian encoding of x in n bytes. */
  function LE(x: nat, n: nat): (s: seq<byte>)
    ensures |s| == n
  {
    if n == 0 then [] else [x % 256] + LE(x / 256, n - 1)
  }

  /** The number read back from little-endian bytes (pbio_get_uint16_le, pbio_get_uint32_le). */
  function FromLE(s: seq<byte>): nat {
    if s == [] then 0 else s[0] + 256 * FromLE(s[1..])
  }

  /** The first byte is the lowest. */
  lemma LittleEndianBytes(x: nat)
    ensures LE(x, 1) == [x % 256] && LE(x, 2) == [x % 256, x / 256 % 256]
    ensures |LE(x, 4)| == 4 && LE(x, 4)[0] == x % 256 && LE(x, 4)[1] == x / 256 % 256
  {
  }

  lemma FromTwoBytes(a: byte, b: byte)
    ensures FromLE([a]) == a && FromLE([a, b]) == a as int + 256 * b as int
  {
    assert [a][1..] == [] && [b][1..] == [] && [a, b][1..] == [b];
  }

  /** A number is read from its low byte and the number in the others. */
  lemma FromLowByte(a: byte, s: seq<byte>)
    ensures FromLE([a] + s) == a as int + 256 * FromLE(s)
  {
    assert ([a] + s)[1..] == s;
  }

  function Pow256(n: nat): nat {
    if n == 0 then 1 else 256 * Pow256(n - 1)
  }

  lemma PowerValues()
    ensures Pow256(1) == 0x100 && Pow256(2) == 0x1_0000 && Pow256(4) == U32
  {
    assert Pow256(3) == 0x100_0000;
  }

  lemma {:induction false} LERoundTrip(x: nat, n: nat)
    requires x < Pow256(n)
    ensures FromLE(LE(x, n)) == x
  {
    if n > 0 {
      LERoundTrip(x / 256, n - 1);
      assert LE(x, n)[1..] == LE(x / 256, n - 1);
    }
  }

  /** Two's complement: the signed value of an n-byte pattern. */
  function Signed(u: nat, n: nat): int
    requires u < Pow256(n)
  {
    if 2 * u < Pow256(n) then u else u - Pow256(n)
  }

  /** The bit pattern of x in n bytes. */
  function Pattern(x: int, n: nat): (u: nat)
    requires -(Pow256(n) as int) <= 2 * x < Pow256(n)
    ensures u < Pow256(n)
    ensures Signed(u, n) == x
  {
    if x >= 0 then x else x + Pow256(n)
  }
}
