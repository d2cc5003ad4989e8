/** Small integer helpers the emitter borrows from its support libraries
    (Log2Ceiling, NextPowerOfTwo64, CeilOfRatio, RoundUpToNearest, IsInt32),
    restated here as specification functions. */
module Arith {

  function Pow2(k: nat): (r: nat)
    ensures r >= 1
  {
    if k == 0 then 1 else 2 * Pow2(k - 1)
  }

  predicate IsPowerOfTwo(v: int)
    decreases if v < 0 then 0 else v
  {
    v == 1 || (v >= 2 && v % 2 == 0 && IsPowerOfTwo(v / 2))
  }

  lemma {:induction false} Pow2IsPowerOfTwo(k: nat)
    ensures IsPowerOfTwo(Pow2(k))
  {
    if k > 0 {
      Pow2IsPowerOfTwo(k - 1);
      assert Pow2(k) / 2 == Pow2(k - 1);
    }
  }

  lemma {:induction false} Pow2Monotone(a: nat, b: nat)
    requires a <= b
    ensures Pow2(a) <= Pow2(b)
  {
    if a < b {
      Pow2Monotone(a, b - 1);
    }
  }

  lemma {:induction false} Pow2Add(a: nat, b: nat)
    ensures Pow2(a + b) == Pow2(a) * Pow2(b)
  {
    if b > 0 {
      Pow2Add(a, b - 1);
    }
  }

  /** Two distinct powers of two are at least a factor of two apart. */
  lemma {:induction false} PowerOfTwoGap(p: int, q: int)
    requires IsPowerOfTwo(p) && IsPowerOfTwo(q) && p < q
    ensures 2 * p <= q
    decreases q
  {
    if p != 1 {
      PowerOfTwoGap(p / 2, q / 2);
    }
  }

  /** ceil(log2 n): the least k with n <= 2^k.  The library returns -1 for
      n == 0; every caller here passes n >= 1. */
  function Log2Ceiling(n: nat): (k: nat)
    requires n >= 1
    ensures n <= Pow2(k)
    ensures k >= 1 ==> Pow2(k - 1) < n
    decreases n
  {
    if n == 1 then 0 else 1 + Log2Ceiling((n + 1) / 2)
  }

  /** 1 << Log2Ceiling(v): the least power of two that is at least v. */
  function NextPowerOfTwo(v: nat): (r: nat)
    requires v >= 1
    ensures IsPowerOfTwo(r)
    ensures v <= r < 2 * v
  {
    var k := Log2Ceiling(v);
    Pow2IsPowerOfTwo(k);
    Pow2(k)
  }

  /** The product of two naturals, as a natural. */
  function MulNat(a: nat, b: nat): nat {
    a * b
  }

  function CeilOfRatio(a: nat, b: nat): (r: nat)
    requires b > 0
    ensures a <= r * b < a + b
  {
    var q := a / b;
    assert a == q * b + a % b;
    if a % b == 0 then q else q + 1
  }

  function RoundUpToNearest(a: nat, b: nat): (r: nat)
    requires b > 0
    ensures r % b == 0
    ensures a <= r < a + b
  {
    var c := CeilOfRatio(a, b);
    MultipleModZero(c, b);
    c * b
  }

  lemma MultipleModZero(c: nat, b: nat)
    requires b > 0
    ensures (c * b) % b == 0
    ensures (c * b) / b == c
  {
    DivModUnique(c * b, b, c, 0);
  }

  /** Euclidean division is determined by any quotient/remainder pair. */
  lemma DivModUnique(a: int, b: int, q: int, r: int)
    requires b > 0
    requires 0 <= r < b
    requires a == q * b + r
    ensures a / b == q
    ensures a % b == r
  {
    var d := q - a / b;
    assert d * b == a % b - r by {
      assert a == (a / b) * b + a % b;
      assert (q - a / b) * b == q * b - (a / b) * b;
    }
    if d >= 1 {
      MulMonotone(d, 1, b);
    } else if d <= -1 {
      MulMonotone(-d, 1, b);
    }
  }

  lemma MulMonotone(x: int, y: int, b: int)
    requires x >= y
    requires b >= 0
    ensures x * b >= y * b
  {
    assert x * b - y * b == (x - y) * b;
  }

  const Int32Max: int := 0x7fff_ffff
  const Int32Min: int := -0x8000_0000

  predicate IsInt32(x: int) {
    Int32Min <= x <= Int32Max
  }

  /** Width of the integer type kernel indices are computed in. */
  datatype IndexWidth = Index32 | Index64

  function Modulus(w: IndexWidth): (m: nat)
    ensures m >= 2
  {
    match w
    case Index32 => 0x1_0000_0000
    case Index64 => 0x1_0000_0000_0000_0000
  }

  function HalfModulus(w: IndexWidth): (h: nat)
    ensures 2 * h == Modulus(w)
  {
    match w
    case Index32 => 0x8000_0000
    case Index64 => 0x8000_0000_0000_0000
  }

  /** x truncated to the low bits of a two's-complement integer whose
      sign bit is worth h, read back as a signed number. */
  function TwosComplement(x: int, h: nat): (r: int)
    requires h > 0
    ensures -(h as int) <= r < h
    ensures (r - x) % (2 * h) == 0
  {
    var m := 2 * h;
    var r := (x + h) % m - h;
    assert x + h == ((x + h) / m) * m + (x + h) % m;
    assert r - x == -((x + h) / m) * m;
    MultipleModZero2(-((x + h) / m), m);
    r
  }

  /** The value an integer of width w holds after a signed cast (truncation
      to w bits, read as two's complement). */
  function SignedWrap(x: int, w: IndexWidth): (r: int)
    ensures -(HalfModulus(w) as int) <= r < HalfModulus(w)
    ensures (r - x) % Modulus(w) == 0
  {
    TwosComplement(x, HalfModulus(w))
  }

  /** Bit width of the integral element type of an index array. */
  datatype ElementWidth = Bits8 | Bits16 | Bits32 | Bits64

  /** The value of the element type's sign bit: 2^(bits - 1). */
  function ElementHalf(e: ElementWidth): (h: nat)
    ensures h >= 128
  {
    match e
    case Bits8 => 0x80
    case Bits16 => 0x8000
    case Bits32 => 0x8000_0000
    case Bits64 => 0x8000_0000_0000_0000
  }

  /** An element's bits read as a signed integer of the element's own
      width, whatever the element type's signedness. */
  function AsSignedElement(x: int, e: ElementWidth): (r: int)
    ensures -(ElementHalf(e) as int) <= r < ElementHalf(e)
    ensures (r - x) % (2 * ElementHalf(e)) == 0
  {
    TwosComplement(x, ElementHalf(e))
  }

  lemma MultipleModZero2(c: int, m: nat)
    requires m > 0
    ensures (c * m) % m == 0
  {
    DivModUnique(c * m, m, c, 0);
  }

  /** The bits of x read as an unsigned number of width w. */
  function Unsigned(x: int, w: IndexWidth): (u: nat)
    ensures u < Modulus(w)
  {
    x % Modulus(w)
  }

  /** An unsigned less-than compare of two width-w values. */
  predicate UnsignedLess(a: int, b: int, w: IndexWidth) {
    Unsigned(a, w) < Unsigned(b, w)
  }

  /** One unsigned compare against a non-negative bound checks both
      0 <= a and a < b, as long as a is a signed width-w value. */
  lemma UnsignedLessIsRangeCheck(a: int, b: int, w: IndexWidth)
    requires -(HalfModulus(w) as int) <= a < HalfModulus(w)
    requires 0 <= b <= HalfModulus(w)
    ensures UnsignedLess(a, b, w) <==> 0 <= a < b
  {
    var m := Modulus(w);
    DivModUnique(b, m, 0, b);
    if a >= 0 {
      DivModUnique(a, m, 0, a);
    } else {
      DivModUnique(a, m, -1, a + m);
    }
  }

  /** Product of a list of extents: the element count of an array shape. */
  function Product(dims: seq<nat>): nat {
    if |dims| == 0 then 1 else dims[0] * Product(dims[1..])
  }
}
