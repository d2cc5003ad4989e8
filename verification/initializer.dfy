/** How the initializer of a reduction or select-and-scatter output is
    realised when the initial value is a scalar constant: a memzero, a
    32-bit memset of a replicated pattern, or the slow initializer kernel.
    Bytes are read in little-endian order, as on every host the emitter
    targets. */
module Initializer {
  import Arith

  newtype uint8 = b: int | 0 <= b < 256

  const Word32: nat := 0x1_0000_0000

  datatype InitThunk =
    | Memzero
    | Memset32(word: nat)
    | KernelFallback

  predicate AllZero(bytes: seq<uint8>) {
    forall i :: 0 <= i < |bytes| ==> bytes[i] == 0
  }

  /** The little-endian value of four bytes. */
  function LittleEndianWord(b: seq<uint8>): (w: nat)
    requires |b| == 4
    ensures w < Word32
  {
    b[0] as nat + 0x100 * b[1] as nat + 0x1_0000 * b[2] as nat + 0x100_0000 * b[3] as nat
  }

  /** The four bytes a 32-bit memset writes for a word, lowest first. */
  function WordBytes(w: nat): (b: seq<uint8>)
    requires w < Word32
    ensures |b| == 4
  {
    [(w % 0x100) as uint8, (w / 0x100 % 0x100) as uint8,
     (w / 0x1_0000 % 0x100) as uint8, (w / 0x100_0000) as uint8]
  }

  lemma WordBytesRoundTrip(b: seq<uint8>)
    requires |b| == 4
    ensures WordBytes(LittleEndianWord(b)) == b
  {
    var w: int := LittleEndianWord(b);
    var b0, b1, b2, b3 := b[0] as int, b[1] as int, b[2] as int, b[3] as int;
    var hi1 := b1 + 0x100 * b2 + 0x1_0000 * b3;
    var hi2 := b2 + 0x100 * b3;
    Arith.DivModUnique(w, 0x100, hi1, b0);
    Arith.DivModUnique(hi1, 0x100, hi2, b1);
    Arith.DivModUnique(w, 0x1_0000, hi2, b0 + 0x100 * b1);
    Arith.DivModUnique(hi2, 0x100, b3, b2);
    Arith.DivModUnique(w, 0x100_0000, b3, b0 + 0x100 * b1 + 0x1_0000 * b2);
  }

  /** The 16-bit pattern of a 1- or 2-byte literal: the byte twice, or the
      two bytes as a little-endian half-word. */
  function Pattern16(literal: seq<uint8>): nat
    requires |literal| == 1 || |literal| == 2
  {
    if |literal| == 1 then literal[0] as nat + 0x100 * literal[0] as nat
    else literal[0] as nat + 0x100 * literal[1] as nat
  }

  /** pattern32 = pattern16 | pattern16 << 16. */
  function Pattern32(literal: seq<uint8>): (w: nat)
    requires |literal| == 1 || |literal| == 2
    ensures w < Word32
    ensures WordBytes(w) == if |literal| == 1 then literal + literal + literal + literal
                            else literal + literal
  {
    var p := Pattern16(literal);
    var w := p + 0x1_0000 * p;
    var four := if |literal| == 1 then literal + literal + literal + literal else literal + literal;
    assert w == LittleEndianWord(four);
    WordBytesRoundTrip(four);
    w
  }

  /** The 4-byte words of the literal are all equal: the literal without its
      last word equals the literal without its first word. */
  predicate RepeatsFirstWord(literal: seq<uint8>) {
    |literal| >= 4 && |literal| % 4 == 0 && literal[..|literal| - 4] == literal[4..]
  }

  /** The thunk chosen for a scalar initial value with the given bytes,
      written to an output of outputBytes bytes.  A non-constant initial
      value always takes the kernel. */
  function ChooseInitializer(isConstant: bool, literal: seq<uint8>, outputBytes: nat): (r: InitThunk)
    ensures r == Memzero <==> isConstant && AllZero(literal)
    ensures r.Memset32? ==> isConstant && !AllZero(literal) && r.word < Word32
    ensures r.Memset32? && |literal| <= 2 ==> outputBytes % 4 == 0
    ensures r.Memset32? && |literal| > 2 ==> RepeatsFirstWord(literal)
    ensures r == KernelFallback <==>
              !isConstant ||
              (!AllZero(literal) && !((|literal| == 1 || |literal| == 2) && outputBytes % 4 == 0)
               && !RepeatsFirstWord(literal))
  {
    if !isConstant then KernelFallback
    else if AllZero(literal) then Memzero
    else if (|literal| == 1 || |literal| == 2) && outputBytes % 4 == 0 then Memset32(Pattern32(literal))
    else if RepeatsFirstWord(literal) then Memset32(LittleEndianWord(literal[..4]))
    else KernelFallback
  }

  /** count copies of bytes back to back. */
  function Repeat(bytes: seq<uint8>, count: nat): (r: seq<uint8>)
    ensures |r| == count * |bytes|
  {
    if count == 0 then [] else bytes + Repeat(bytes, count - 1)
  }

  /** The bytes a thunk leaves in an output of outputBytes bytes. */
  function Filled(t: InitThunk, outputBytes: nat): seq<uint8>
    requires t.Memset32? ==> t.word < Word32 && outputBytes % 4 == 0
    requires !t.KernelFallback?
  {
    match t
    case Memzero => seq(outputBytes, _ => 0 as uint8)
    case Memset32(w) => Repeat(WordBytes(w), outputBytes / 4)
  }

  /** Whenever a memzero or memset is chosen, it writes exactly what
      storing the literal into every element of the output would: the
      literal repeated once per element. */
  lemma {:induction false} MemsetMatchesElementwiseInit(isConstant: bool, literal: seq<uint8>, outputBytes: nat)
    requires |literal| >= 1 && outputBytes % |literal| == 0
    requires ChooseInitializer(isConstant, literal, outputBytes) != KernelFallback
    ensures var t := ChooseInitializer(isConstant, literal, outputBytes);
            (t.Memset32? ==> outputBytes % 4 == 0) &&
            Filled(t, outputBytes) == Repeat(literal, outputBytes / |literal|)
  {
    var t := ChooseInitializer(isConstant, literal, outputBytes);
    var n := |literal|;
    var count := outputBytes / n;
    ExactQuotient(outputBytes, n);
    if t == Memzero {
      RepeatAllZero(literal, count);
    } else if n == 1 {
      SingleBytePattern(literal, outputBytes);
    } else if n == 2 {
      HalfWordPattern(literal, outputBytes);
    } else {
      WordPattern(literal, outputBytes);
    }
  }

  lemma ExactQuotient(a: nat, n: nat)
    requires n > 0 && a % n == 0
    ensures a == (a / n) * n
  {
  }

  /** A 1-byte literal: the memset word is the byte four times. */
  lemma SingleBytePattern(literal: seq<uint8>, outputBytes: nat)
    requires |literal| == 1 && outputBytes % 4 == 0
    ensures Repeat(WordBytes(Pattern32(literal)), outputBytes / 4) == Repeat(literal, outputBytes / 1)
  {
    var q := outputBytes / 4;
    Arith.DivModUnique(outputBytes, 1, 4 * q, 0);
    assert Repeat(literal, 1) == literal;
    assert Repeat(literal, 2) == literal + literal;
    assert Repeat(literal, 3) == literal + (literal + literal);
    assert literal + literal + literal + literal == Repeat(literal, 4);
    RepeatRepeat(literal, 4, q);
  }

  /** A 2-byte literal: the memset word is the half-word twice. */
  lemma HalfWordPattern(literal: seq<uint8>, outputBytes: nat)
    requires |literal| == 2 && outputBytes % 4 == 0
    ensures Repeat(WordBytes(Pattern32(literal)), outputBytes / 4) == Repeat(literal, outputBytes / 2)
  {
    var q := outputBytes / 4;
    Arith.DivModUnique(outputBytes, 4, q, 0);
    Arith.DivModUnique(outputBytes, 2, 2 * q, 0);
    assert Repeat(literal, 1) == literal;
    assert literal + literal == Repeat(literal, 2);
    RepeatRepeat(literal, 2, q);
  }

  /** A literal of equal words: the memset word is its first word. */
  lemma WordPattern(literal: seq<uint8>, outputBytes: nat)
    requires RepeatsFirstWord(literal) && outputBytes % |literal| == 0
    ensures outputBytes % 4 == 0
    ensures Repeat(WordBytes(LittleEndianWord(literal[..4])), outputBytes / 4) == Repeat(literal, outputBytes / |literal|)
  {
    var n := |literal|;
    var m := n / 4;
    var count := outputBytes / n;
    ExactQuotient(outputBytes, n);
    ExactQuotient(n, 4);
    assert outputBytes == (m * count) * 4 by {
      assert outputBytes == count * n;
      assert n == m * 4;
      assert count * (m * 4) == (m * count) * 4;
    }
    Arith.DivModUnique(outputBytes, 4, m * count, 0);
    RepeatedWords(literal);
    WordBytesRoundTrip(literal[..4]);
    RepeatRepeat(literal[..4], m, count);
  }

  lemma ModOfMultiple(c: nat, n: nat, k: nat)
    requires k > 0 && n % k == 0
    ensures (c * n) % k == 0
  {
    var q := n / k;
    assert n == q * k;
    assert c * n == (c * q) * k;
    Arith.MultipleModZero(c * q, k);
  }

  lemma {:induction false} RepeatAllZero(literal: seq<uint8>, count: nat)
    requires AllZero(literal)
    ensures Repeat(literal, count) == seq(count * |literal|, _ => 0 as uint8)
  {
    if count > 0 {
      RepeatAllZero(literal, count - 1);
    }
  }

  lemma {:induction false} RepeatAppend(bytes: seq<uint8>, a: nat, b: nat)
    ensures Repeat(bytes, a + b) == Repeat(bytes, a) + Repeat(bytes, b)
  {
    if a == 0 {
      assert Repeat(bytes, a) == [];
    } else {
      RepeatAppend(bytes, a - 1, b);
      assert a + b - 1 == (a - 1) + b;
      calc {
        Repeat(bytes, a + b);
        bytes + Repeat(bytes, (a - 1) + b);
        bytes + (Repeat(bytes, a - 1) + Repeat(bytes, b));
        (bytes + Repeat(bytes, a - 1)) + Repeat(bytes, b);
        Repeat(bytes, a) + Repeat(bytes, b);
      }
    }
  }

  lemma {:induction false} RepeatRepeat(bytes: seq<uint8>, a: nat, b: nat)
    ensures Repeat(Repeat(bytes, a), b) == Repeat(bytes, a * b)
  {
    if b > 0 {
      RepeatRepeat(bytes, a, b - 1);
      RepeatAppend(bytes, a, a * (b - 1));
      assert a * b == a + a * (b - 1);
    }
  }

  /** A literal whose words all equal its first word is that word repeated. */
  lemma {:induction false} RepeatedWords(literal: seq<uint8>)
    requires RepeatsFirstWord(literal)
    ensures literal == Repeat(literal[..4], |literal| / 4)
    decreases |literal|
  {
    var n := |literal|;
    if n > 4 {
      var rest := literal[4..];
      assert rest[..n - 8] == literal[4..n - 4];
      assert rest[4..] == literal[8..];
      assert literal[4..n - 4] == literal[8..] by {
        forall j | 4 <= j < n - 4
          ensures literal[j] == literal[j + 4]
        {
          assert literal[..n - 4][j] == literal[4..][j];
        }
      }
      assert rest[..4] == literal[..4] by {
        forall j | 0 <= j < 4
          ensures literal[j] == literal[j + 4]
        {
          assert literal[..n - 4][j] == literal[4..][j];
        }
      }
      RepeatedWords(rest);
      assert (n - 4) / 4 == n / 4 - 1;
    } else {
      assert literal == literal[..4];
    }
  }
}
