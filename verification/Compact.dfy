// The compact format of 256-bit numbers (src/commons/arith_uint256.cpp, SetCompact and GetCompact): a
// size in bytes, a sign bit and a mantissa of 23 bits.

module Compact {
  import opened Arithmetic
  import opened Bits
  import opened Words
  import opened ArithUint256

  type Code = c: nat | c < BASE

  const MANTISSA_END: nat := 0x80_0000       // 2^23, the sign bit
  const SIZE_UNIT: nat := 0x100_0000         // 2^24

  function Pow256(k: nat): (p: nat)
    ensures p > 0
  {
    Pow2(8 * k)
  }

  function TimesPow256(x: nat, k: nat): nat {
    MulNonNegative(x, Pow256(k));
    x * Pow256(k)
  }

  function OverPow256(x: nat, k: nat): nat {
    QuotientLe(x, Pow256(k));
    x / Pow256(k)
  }

  function Size(code: Code): nat {
    code / SIZE_UNIT
  }

  function Sign(code: Code): bool {
    (code / MANTISSA_END) % 2 == 1
  }

  function Mantissa(code: Code): nat {
    code % MANTISSA_END
  }

  // The mantissa, shifted for a size below three: the source's nWord.
  function Shifted(code: Code): nat {
    if Size(code) <= 3 then OverPow256(Mantissa(code), 3 - Size(code)) else Mantissa(code)
  }

  // The magnitude that a code stands for: mantissa * 256^(size - 3), rounded down.
  function Magnitude(code: Code): nat {
    if Size(code) <= 3 then OverPow256(Mantissa(code), 3 - Size(code))
    else TimesPow256(Mantissa(code), Size(code) - 3)
  }

  // The number of bytes of x.
  function ByteLength(x: nat): nat {
    if x == 0 then 0 else 1 + ByteLength(x / 256)
  }

  // The top three of n bytes.
  function TopBytes(x: nat, n: nat): nat {
    if n <= 3 then TimesPow256(x, 3 - n) else OverPow256(x, n - 3)
  }

  // The size and mantissa that GetCompact keeps of x: a mantissa that would reach the sign bit loses its
  // last byte.
  function KeptSize(x: nat): nat {
    ByteLength(x) + if TopBytes(x, ByteLength(x)) >= MANTISSA_END then 1 else 0
  }

  function KeptMantissa(x: nat): nat {
    var top := TopBytes(x, ByteLength(x));
    if top >= MANTISSA_END then top / 256 else top
  }

  function Encode(x: nat): nat {
    KeptSize(x) * SIZE_UNIT + KeptMantissa(x)
  }

  lemma Pow256Step(k: nat)
    ensures Pow256(0) == 1 && Pow256(1) == 256 && Pow256(2) == 0x1_0000 && Pow256(3) == SIZE_UNIT
    ensures Pow256(k + 1) == 256 * Pow256(k)
  {
    Pow2Of32();
    Pow2Adds(8, 8 * k);
    Pow2Adds(8, 8);
    Pow2Adds(8, 16);
  }

  lemma Pow256Adds(j: nat, k: nat)
    ensures Pow256(j + k) == Pow256(j) * Pow256(k)
  {
    Pow2Adds(8 * j, 8 * k);
  }

  lemma {:induction false} ByteLengthBounds(x: nat)
    ensures x > 0 ==> ByteLength(x) > 0 && Pow256(ByteLength(x) - 1) <= x
    ensures x < Pow256(ByteLength(x))
  {
    Pow256Step(0);
    if x > 0 {
      var n := ByteLength(x / 256);
      ByteLengthBounds(x / 256);
      Pow256Step(n);
      if n > 0 {
        Pow256Step(n - 1);
      }
      hide Pow256;
    }
  }

  lemma {:induction false} ByteLengthUnique(x: nat, n: nat)
    requires x < Pow256(n) && (n > 0 ==> Pow256(n - 1) <= x)
    ensures ByteLength(x) == n
  {
    Pow256Step(0);
    if n > 0 {
      Pow256Step(n - 1);
      if n > 1 {
        Pow256Step(n - 2);
      }
      hide Pow256;
      ByteLengthUnique(x / 256, n - 1);
    }
  }

  // The top three bytes of a nonzero number start with a nonzero byte.
  lemma TopBytesBounds(x: nat)
    requires x > 0
    ensures 0x1_0000 <= TopBytes(x, ByteLength(x)) < SIZE_UNIT
  {
    var n := ByteLength(x);
    ByteLengthBounds(x);
    Pow256Step(0);
    if n <= 3 {
      Pow256Adds(n - 1, 3 - n);
      Pow256Adds(n, 3 - n);
      hide Pow256, ByteLength;
      MulLe(Pow256(n - 1), x, Pow256(3 - n));
      MulLe(x + 1, Pow256(n), Pow256(3 - n));
      MulDistributes(x, 1, Pow256(3 - n));
    } else {
      Pow256Adds(2, n - 3);
      Pow256Adds(3, n - 3);
      hide Pow256, ByteLength;
      QuotientBound(x, Pow256(n - 3), SIZE_UNIT);
      QuotientAtLeast(x, Pow256(n - 3), 0x1_0000);
    }
  }

  lemma TopBytesFit(x: nat)
    ensures TopBytes(x, ByteLength(x)) < SIZE_UNIT
  {
    if x > 0 {
      TopBytesBounds(x);
    }
  }

  // A kept mantissa fits below the sign bit, and is not smaller than 2^15 unless the number is zero.
  lemma KeptBounds(x: nat)
    ensures KeptMantissa(x) < MANTISSA_END && (x > 0 ==> KeptMantissa(x) >= 0x8000)
    ensures x == 0 ==> Encode(x) == 0
    ensures KeptSize(x) == ByteLength(x) + 1 ==> KeptMantissa(x) < 0x1_0000
    ensures x > 0 && KeptSize(x) == ByteLength(x) ==> KeptMantissa(x) >= 0x1_0000
  {
    if x > 0 {
      TopBytesBounds(x);
    }
  }

  lemma {:induction false} ByteLengthMonotone(x: nat, y: nat)
    requires x <= y
    ensures ByteLength(x) <= ByteLength(y)
  {
    if x > 0 {
      ByteLengthMonotone(x / 256, y / 256);
    }
  }

  // GetCompact is monotone.
  lemma EncodeMonotone(x: nat, y: nat)
    requires x <= y
    ensures Encode(x) <= Encode(y)
  {
    ByteLengthMonotone(x, y);
    KeptBounds(x);
    KeptBounds(y);
    if x > 0 && ByteLength(x) == ByteLength(y) {
      var n := ByteLength(x);
      if n <= 3 {
        MulLe(x, y, Pow256(3 - n));
      } else {
        QuotientMonotone(x, y, Pow256(n - 3));
      }
      assert TopBytes(x, n) <= TopBytes(y, n);
    }
  }

  // The kept mantissa is x scaled to its kept size, rounded down.
  lemma KeptMantissaIs(x: nat)
    ensures KeptMantissa(x) == TopBytes(x, KeptSize(x))
  {
    var n := ByteLength(x);
    Pow256Step(0);
    if KeptSize(x) == n + 1 {
      if n < 3 {
        Pow256Step(2 - n);
        hide Pow256, ByteLength, KeptSize;
        ModUnique(x * Pow256(3 - n), 0, x * Pow256(2 - n), 256);
      } else {
        Pow256Step(n - 3);
        hide Pow256, ByteLength, KeptSize;
        QuotientOfQuotient(x, Pow256(n - 3), 256);
      }
    }
  }

  // x rounded down to its kept mantissa.
  function RoundDown(x: nat): nat {
    if KeptSize(x) <= 3 then x else TimesPow256(OverPow256(x, KeptSize(x) - 3), KeptSize(x) - 3)
  }

  // x below 256^n has at most n bytes.
  lemma ByteLengthAtMost(x: nat, n: nat)
    requires x < Pow256(n)
    ensures ByteLength(x) <= n
  {
    ByteLengthBounds(x);
    if ByteLength(x) > n {
      Pow2Monotone(8 * n, 8 * (ByteLength(x) - 1));
    }
  }

  lemma ModulusIsPow256()
    ensures Modulus() == Pow256(32)
  {
    ModulusIsPow2();
  }

  lemma CodeParts(size: nat, mantissa: nat)
    requires size < 256 && mantissa < MANTISSA_END
    ensures var code := size * SIZE_UNIT + mantissa;
            code < BASE && Size(code) == size && Mantissa(code) == mantissa && !Sign(code)
  {
  }

  lemma EncodeFits(x: nat)
    requires x < Modulus()
    ensures Encode(x) < BASE && KeptSize(x) <= 33
    ensures Size(Encode(x)) == KeptSize(x) && Mantissa(Encode(x)) == KeptMantissa(x) && !Sign(Encode(x))
  {
    hide Size, Mantissa, Sign, Pow256, ByteLength;
    ModulusIsPow256();
    ByteLengthAtMost(x, 32);
    KeptBounds(x);
    CodeParts(KeptSize(x), KeptMantissa(x));
  }

  // SetCompact(GetCompact(x)) is x rounded down to the kept mantissa, without sign.
  lemma MagnitudeOfEncode(x: nat)
    requires x < Modulus()
    ensures Encode(x) < BASE && !Sign(Encode(x))
    ensures Magnitude(Encode(x)) == RoundDown(x) <= x
  {
    EncodeFits(x);
    KeptMantissaIs(x);
    var s := KeptSize(x);
    hide Pow256, ByteLength, KeptSize, KeptMantissa, Encode, Size, Mantissa;
    if s <= 3 {
      var p := Pow256(3 - s);
      ModUnique(x * p, 0, x, p);
    } else {
      QuotientTimes(x, Pow256(s - 3));
    }
  }

  lemma SignedParts(size: nat, mantissa: nat)
    requires size < 256 && mantissa < MANTISSA_END
    ensures var code := size * SIZE_UNIT + MANTISSA_END + mantissa;
            code < BASE && Size(code) == size && Mantissa(code) == mantissa && Sign(code)
  {
  }

  // With the sign bit, which GetCompact sets if asked for: the same magnitude, and negative.
  lemma SignedCode(x: nat)
    requires x < Modulus() && KeptMantissa(x) != 0
    ensures var code := Encode(x) + 0x80_0000;
            code < BASE && Sign(code) && Magnitude(code) == RoundDown(x) && (x > 0 ==> Magnitude(code) > 0)
  {
    EncodeFits(x);
    KeptBounds(x);
    MagnitudeOfEncode(x);
    SignedParts(KeptSize(x), KeptMantissa(x));
    hide Size, Mantissa, Sign, Pow256, ByteLength, KeptSize, KeptMantissa, RoundDown, OverPow256, TimesPow256;
  }

  // The two examples in the format's description, with and without sign.
  lemma DocumentedCodes()
    ensures Magnitude(0x05123456) == 0x12_3456_0000 && Encode(0x12_3456_0000) == 0x05123456
    ensures Magnitude(0x0600c0de) == 0xc0de_00_0000 && Encode(0xc0de_00_0000) == 0x0600c0de
    ensures Sign(0x05923456) && !Sign(0x05123456) && Magnitude(0x05923456) == 0x12_3456_0000
  {
    Pow256Step(3);
    Pow256Step(4);
    Pow256Step(5);
    ByteLengthUnique(0x12_3456_0000, 5);
    ByteLengthUnique(0xc0de_00_0000, 5);
    hide Pow256, ByteLength;
  }

  lemma MultipleIsKept(x: nat, m: nat, i: nat, j: nat)
    requires m * Pow256(i + j) <= x
    ensures m * Pow256(i + j) <= TimesPow256(OverPow256(x, j), j)
  {
    Pow256Adds(i, j);
    hide Pow256;
    MulAssoc(m, Pow256(i), Pow256(j));
    QuotientAtLeast(x, Pow256(j), m * Pow256(i));
    MulLe(m * Pow256(i), x / Pow256(j), Pow256(j));
  }

  lemma SmallerSizeIsBelow(m: nat, size: nat, s: nat, kept: nat)
    requires size < s && s > 3 && m < MANTISSA_END && kept >= 0x8000
    ensures (if size <= 3 then OverPow256(m, 3 - size) else TimesPow256(m, size - 3)) <= TimesPow256(kept, s - 3)
  {
    Pow256Step(s - 4);
    if size > 3 {
      Pow2Monotone(8 * (size - 3), 8 * (s - 4));
    }
    hide Pow256;
    MulLe(0x8000, kept, Pow256(s - 3));
    if size <= 3 {
      QuotientLe(m, Pow256(3 - size));
    } else {
      MulLe(Pow256(size - 3), Pow256(s - 4), m);
      MulLe(m, 0x80_0000, Pow256(s - 4));
    }
  }

  // Nothing that the format can express lies strictly between the rounded number and x: what the format
  // can express is kept exactly.
  lemma RoundDownIsGreatest(x: nat, code: Code)
    requires x < Modulus() && Magnitude(code) <= x
    ensures Magnitude(code) <= RoundDown(x)
  {
    var s, size, m := KeptSize(x), Size(code), Mantissa(code);
    if s > 3 && size >= s {
      hide KeptSize, Size, Mantissa;
      MultipleIsKept(x, m, size - s, s - 3);
    } else if s > 3 {
      KeptBounds(x);
      KeptMantissaIs(x);
      hide Size, Mantissa;
      SmallerSizeIsBelow(m, size, s, OverPow256(x, s - 3));
    }
  }

  // A normalised mantissa is kept as it is.
  lemma EncodeNormalised(m: nat, s: nat)
    requires s > 3 && 0x8000 <= m < MANTISSA_END
    ensures Encode(TimesPow256(m, s - 3)) == s * SIZE_UNIT + m
  {
    var p := Pow256(s - 3);
    var y := m * p;
    Pow256Step(s - 4);
    Pow256Step(0);
    Pow256Adds(1, s - 3);
    Pow256Adds(2, s - 3);
    Pow256Adds(3, s - 3);
    MulLe(m + 1, if m >= 0x1_0000 then SIZE_UNIT else 0x1_0000, p);
    MulLe(if m >= 0x1_0000 then 0x1_0000 else 256, m, p);
    MulDistributes(m, 1, p);
    ModUnique(y, 0, m, p);
    if m >= 0x1_0000 {
      ByteLengthUnique(y, s);
    } else {
      ByteLengthUnique(y, s - 1);
      hide Pow256, ByteLength;
      MulAssoc(m, 256, Pow256(s - 4));
      ModUnique(y, 0, m * 256, Pow256(s - 4));
      assert TopBytes(y, s - 1) == m * 256;
    }
  }

  // GetCompact of what SetCompact reads from its code gives the same code.
  lemma EncodeOfRoundDown(x: nat)
    requires x < Modulus()
    ensures Encode(RoundDown(x)) == Encode(x)
  {
    if KeptSize(x) > 3 {
      KeptBounds(x);
      KeptMantissaIs(x);
      EncodeNormalised(KeptMantissa(x), KeptSize(x));
    }
  }

  // The overflow test of SetCompact, on the shifted mantissa.
  predicate OverflowTest(word: nat, size: nat) {
    word != 0 && (size > 34 || (word > 0xff && size > 33) || (word > 0xffff && size > 32))
  }

  lemma ReachesModulus(m: nat, s: nat)
    requires 3 < s <= 35
    ensures m * Pow256(s - 3) >= Pow256(32) <==> m >= Pow256(35 - s)
  {
    Pow256Adds(35 - s, s - 3);
    hide Pow256;
    if m < Pow256(35 - s) {
      MulLe(m + 1, Pow256(35 - s), Pow256(s - 3));
      MulDistributes(m, 1, Pow256(s - 3));
    } else {
      MulLe(Pow256(35 - s), m, Pow256(s - 3));
    }
  }

  lemma OverflowIsExact(code: Code)
    ensures OverflowTest(Shifted(code), Size(code)) <==> Magnitude(code) >= Modulus()
  {
    var s, m := Size(code), Mantissa(code);
    ModulusIsPow256();
    Pow256Step(0);
    if s <= 3 {
      QuotientLe(m, Pow256(3 - s));
      Pow2Monotone(24, 256);
    } else if s <= 35 {
      hide Size, Mantissa;
      ReachesModulus(m, s);
      if s <= 32 {
        Pow2Monotone(24, 8 * (35 - s));
      }
    } else {
      Pow2Monotone(256, 8 * (s - 3));
      hide Pow256, Size, Mantissa;
      if m > 0 {
        MulLe(1, m, Pow256(s - 3));
      }
    }
  }

  lemma ShiftedIsZero(code: Code)
    ensures Shifted(code) == 0 <==> Magnitude(code) == 0
  {
    if Size(code) > 3 {
      var m, p := Mantissa(code), Pow256(Size(code) - 3);
      hide Pow256, Size, Mantissa;
      if m > 0 {
        MulLe(1, m, p);
      }
    }
  }

  // SetCompact: x becomes the magnitude of the code, reduced to 256 bits.
  method SetCompact(x: Uint256, code: Code) returns (negative: bool, overflow: bool)
    requires x.Valid()
    modifies x.pn
    ensures x.Value() == Magnitude(code) % Modulus()
    ensures overflow <==> Magnitude(code) >= Modulus()
    ensures negative <==> Sign(code) && Magnitude(code) != 0
  {
    OverflowIsExact(code);
    ShiftedIsZero(code);
    hide Pow2, Modulus;
    var size := code / SIZE_UNIT;
    var word := code % MANTISSA_END;
    if size <= 3 {
      word := OverPow256(word, 3 - size);
      QuotientLe(code % MANTISSA_END, Pow256(3 - size));
      ModUnique(word, word, 0, Modulus());
      x.SetUint64(word);
    } else {
      x.SetUint64(word);
      x.ShiftLeft(8 * (size - 3));
    }
    negative := word != 0 && (code / MANTISSA_END) % 2 == 1;
    overflow := word != 0 && (size > 34 || (word > 0xff && size > 33) || (word > 0xffff && size > 32));
  }

  // The source finds the number of bytes and the top three of them.
  lemma TopBytesOfBits(x: nat, bits: nat)
    requires x < Modulus() && bits <= 256
    requires if bits == 0 then x == 0 else Pow2(bits - 1) <= x < Pow2(bits)
    ensures ByteLength(x) == (bits + 7) / 8 <= 32
    ensures TopBytes(x, ByteLength(x)) < SIZE_UNIT
    ensures ByteLength(x) <= 3 ==> x < SIZE_UNIT
  {
    var n := (bits + 7) / 8;
    Pow256Step(0);
    if bits > 0 {
      Pow2Monotone(bits, 8 * n);
      Pow2Monotone(8 * (n - 1), bits - 1);
      hide Pow2, ByteLength;
      ByteLengthUnique(x, n);
      TopBytesBounds(x);
      if n <= 3 {
        Pow2Monotone(8 * n, 24);
      }
    }
  }

  lemma {:induction false} BitAboveLowPart(high: nat, low: nat, k: nat)
    requires low < Pow2(k)
    ensures !TestBit(high * Pow2(k + 1) + low, k)
  {
    Pow2Doubles(k);
    assert k == 0 ==> Pow2(k) == 1;
    hide Pow2;
    MulNonNegative(high, Pow2(k));
    TwiceProduct(high, Pow2(k));
    var q: nat := high * Pow2(k);
    assert (2 * q + low) / 2 == q + low / 2;
    if k > 0 {
      Pow2Doubles(k - 1);
      BitAboveLowPart(high, low / 2, k - 1);
    }
  }

  lemma JoinedParts(mantissa: nat, size: nat)
    requires mantissa < MANTISSA_END && size < 256
    ensures var code := size * SIZE_UNIT + mantissa;
            BitOr(mantissa, size * SIZE_UNIT) == code && BitOr(code, MANTISSA_END) == code + MANTISSA_END
  {
    Pow256Step(0);
    assert Pow2(24) == SIZE_UNIT;
    Pow2Doubles(23);
    hide BitOr, Pow2, Pow256;
    OrOfParts(size, mantissa, 24);
    BitAboveLowPart(size, mantissa, 23);
    OrIsAdd(size * SIZE_UNIT + mantissa, 23);
  }

  // The first part of GetCompact: the number of bytes of x and the top three of them.
  method TopThreeBytes(x: Uint256) returns (n: nat, size: nat)
    requires x.Valid()
    ensures x.Value() < Modulus() && size == ByteLength(x.Value()) && n == TopBytes(x.Value(), size)
  {
    hide Pow2, ByteLength, Val, Weight;
    ghost var v := x.Value();
    ValBound(x.pn[..]);
    assert v < Modulus();
    hide Modulus;
    var bits := x.BitLength();
    size := (bits + 7) / 8;
    TopBytesOfBits(v, bits);
    if size <= 3 {
      var low := x.GetLow64();
      ModUnique(v, v, 0, BASE * BASE);
      assert low == v;
      n := TimesPow256(low, 3 - size) % BASE;
    } else {
      var bn := new Uint256.Copy(x);
      bn.ShiftRight(8 * (size - 3));
      ghost var top := TopBytes(v, size);
      assert bn.Value() == top;
      hide OverPow256, TopBytes, Pow256;
      n := bn.GetLow64();
      ModUnique(top, top, 0, BASE * BASE);
      n := n % BASE;
    }
  }

  // GetCompact: the code of this number, with the sign bit if asked for and if the mantissa is not zero.
  // The source's two assertions hold.
  method GetCompact(x: Uint256, fNegative: bool) returns (code: Code)
    requires x.Valid()
    ensures x.Value() < Modulus()
    ensures code == Encode(x.Value()) + if fNegative && x.Value() != 0 then 0x80_0000 else 0
  {
    hide Modulus, ByteLength, BitOr, TopBytes;
    ghost var v := x.Value();
    var n, size := TopThreeBytes(x);
    EncodeFits(v);
    KeptBounds(v);
    assert n < SIZE_UNIT by { TopBytesFit(v); }
    if (n / MANTISSA_END) % 2 == 1 {
      n := n / 256;
      size := size + 1;
    }
    assert n < MANTISSA_END;
    assert size < 256;
    JoinedParts(n, size);
    code := BitOr(n, size * SIZE_UNIT);
    if fNegative && n % MANTISSA_END != 0 {
      code := BitOr(code, MANTISSA_END);
    }
  }
}
