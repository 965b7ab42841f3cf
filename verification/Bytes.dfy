/** Bytes, little-endian fields and the fixed-width arithmetic of the C sources. */
module Bytes {
  newtype Byte = b: int | 0 <= b < 256

  datatype Option<+T> = None | Some(value: T)

  const TWO_31 := 0x8000_0000
  const TWO_32 := 0x1_0000_0000
  const TWO_64 := 0x1_0000_0000_0000_0000

  /** Conversion to `unsigned int`. */
  function U32(x: int): (r: nat)
    ensures r < TWO_32
    ensures 0 <= x < TWO_32 ==> r == x
  {
    x % TWO_32
  }

  /** Conversion to `unsigned long long`. */
  function U64(x: int): (r: nat)
    ensures r < TWO_64
    ensures 0 <= x < TWO_64 ==> r == x
  {
    x % TWO_64
  }

  predicate IsPrefix(a: seq<Byte>, b: seq<Byte>) {
    a <= b
  }

  lemma U32Shift(h: nat, lo: nat)
    ensures U32(h * TWO_32 + lo) == U32(lo)
  {
  }

  function Le16(b: seq<Byte>, o: nat): (r: nat)
    requires o + 2 <= |b|
    ensures r < 0x1_0000
  {
    b[o] as int + 0x100 * (b[o + 1] as int)
  }

  function Le32(b: seq<Byte>, o: nat): (r: nat)
    requires o + 4 <= |b|
    ensures r < TWO_32
  {
    b[o] as int + 0x100 * (b[o + 1] as int) + 0x1_0000 * (b[o + 2] as int) + 0x100_0000 * (b[o + 3] as int)
  }

  function ToLe16(x: nat): (b: seq<Byte>)
    requires x < 0x1_0000
    ensures |b| == 2 && Le16(b, 0) == x
  {
    [(x % 0x100) as Byte, (x / 0x100) as Byte]
  }

  function ToLe32(x: nat): (b: seq<Byte>)
    requires x < TWO_32
    ensures |b| == 4 && Le32(b, 0) == x
  {
    var q1 := x / 0x100;
    var q2 := q1 / 0x100;
    var q3 := q2 / 0x100;
    [(x % 0x100) as Byte, (q1 % 0x100) as Byte, (q2 % 0x100) as Byte, q3 as Byte]
  }

  /** ceil(a / b) for b > 0, in the form the sources compute it. */
  function CeilDiv(a: nat, b: nat): (r: nat)
    requires b > 0
  {
    (a + b - 1) / b
  }

  function Times(a: nat, b: nat): nat {
    a * b
  }

  lemma MulMono(c: nat, a: int, b: int)
    ensures a <= b ==> c * a <= c * b
    ensures c > 0 && a < b ==> c * a < c * b
  {
  }

  /** The quotient is the least count of b-sized pieces that reaches a. */
  lemma CeilDivBounds(a: nat, b: nat)
    requires b > 0
    ensures CeilDiv(a, b) * b >= a
    ensures a > 0 ==> CeilDiv(a, b) > 0 && (CeilDiv(a, b) - 1) * b < a
    ensures a == 0 ==> CeilDiv(a, b) == 0
  {
  }

  /** Division with remainder is unique. */
  lemma DivModUnique(m: nat, a: nat, q: nat, r: nat)
    requires a > 0 && r < a && m == q * a + r
    ensures m / a == q && m % a == r
  {
    var q' := m / a;
    assert m == q' * a + m % a;
    MulMono(a, q' + 1, q);
    MulMono(a, q + 1, q');
    assert (q' + 1) * a == q' * a + a && (q + 1) * a == q * a + a;
  }

  lemma DivLess(m: nat, a: nat, c: nat)
    requires a > 0 && m < c * a
    ensures m / a < c
  {
  }
}
