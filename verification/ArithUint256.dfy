// 256-bit unsigned integers (src/commons/arith_uint256.h, src/commons/arith_uint256.cpp): eight 32-bit
// words, changed in place.

module ArithUint256 {
  import opened Arithmetic
  import opened Bits
  import opened Words

  const WIDTH: nat := 8

  // 2^256
  ghost function Modulus(): nat {
    Weight(WIDTH)
  }

  lemma ModulusIsPow2()
    ensures Modulus() == Pow2(256)
  {
    WeightIsPow2(8);
  }

  // One position of an addition: the digit stays, the rest is carried.
  lemma AddStep(r: seq<Word>, x: seq<Word>, y: seq<Word>, i: nat, carry: nat)
    requires i < |r| && |r| == |x| == |y| && r[i] == (carry + x[i] + y[i]) % BASE
    requires Val(r[..i]) + carry * Weight(i) == Val(x[..i]) + Val(y[..i])
    ensures Val(r[..i + 1]) + ((carry + x[i] + y[i]) / BASE) * Weight(i + 1) == Val(x[..i + 1]) + Val(y[..i + 1])
  {
    var n, w := carry + x[i] + y[i], Weight(i);
    ValStep(r, i);
    ValStep(x, i);
    ValStep(y, i);
    hide *;
    SplitWord(n, w);
    MulDistributes(carry, x[i], w);
    MulDistributes(carry + x[i], y[i], w);
  }

  lemma RowStep(r: nat, r0: nat, n: nat, carry: nat, digit: nat, d: nat, b: nat, w: nat, wi: nat, wj: nat, x: nat)
    requires r + carry * w == r0 + d * wj * x && w == wi * wj && n == carry + digit + d * b
    ensures r + (n % BASE) * w + (n / BASE) * (BASE * w) == r0 + digit * w + d * wj * (x + b * wi)
  {
  }

  lemma WordProduct(d: nat, b: nat) returns (p: nat)
    requires d < BASE && b < BASE
    ensures p == d * b && p <= (BASE - 1) * (BASE - 1)
  {
    p := d * b;
    MulLe(d, BASE - 1, b);
  }

  lemma AccumulatorFits(carry: nat, x: nat, d: nat, b: nat)
    requires carry < BASE && x < BASE && d < BASE && b < BASE
    ensures 0 <= carry + x + d * b < BASE * BASE == 0x1_0000_0000_0000_0000
    ensures (carry + x + d * b) / BASE < BASE
  {
    var p := WordProduct(d, b);
    assert (carry + x + p) / BASE < BASE;
  }

  // One position of a row of the schoolbook product: the 64-bit accumulator does not overflow.
  lemma MulStep(r0: seq<Word>, r: seq<Word>, b: seq<Word>, d: Word, i: nat, j: nat, carry: nat)
    requires i < |b| && i + j < |r0| == |r|
    requires carry < BASE && r[i + j] == (carry + r0[i + j] + d * b[i]) % BASE
    requires Val(r[..i + j]) + carry * Weight(i + j) == Val(r0[..i + j]) + d * Weight(j) * Val(b[..i])
    ensures carry + r0[i + j] + d * b[i] < 0x1_0000_0000_0000_0000
    ensures (carry + r0[i + j] + d * b[i]) / BASE < BASE
    ensures Val(r[..i + j + 1]) + ((carry + r0[i + j] + d * b[i]) / BASE) * Weight(i + j + 1)
         == Val(r0[..i + j + 1]) + d * Weight(j) * Val(b[..i + 1])
  {
    AccumulatorFits(carry, r0[i + j], d, b[i]);
    var n: nat, w := carry + r0[i + j] + d * b[i], Weight(i + j);
    ValStep(r, i + j);
    ValStep(r0, i + j);
    ValStep(b, i);
    WeightAdds(i, j);
    hide *;
    RowStep(Val(r[..i + j]), Val(r0[..i + j]), n, carry, r0[i + j], d, b[i], w, Weight(i), Weight(j), Val(b[..i]));
    assert Val(b[..i + 1]) == Val(b[..i]) + b[i] * Weight(i);
  }

  lemma ValOfTwo(s: seq<Word>)
    requires |s| >= 2
    ensures Val(s) == s[0] + s[1] * BASE + BASE * BASE * Val(s[2..])
  {
    ValSplit(s, 2);
    ValStep(s, 0);
    ValStep(s, 1);
    assert s[..0] == [];
    assert Weight(0) == 1 && Weight(1) == BASE && Weight(2) == BASE * BASE;
  }

  lemma IncrementArith(r: nat, y: nat, x: Word, w: nat)
    requires r + w == y + 1
    ensures r + ((x + 1) % BASE) * w + (if (x + 1) % BASE == 0 then BASE * w else 0) == y + x * w + 1
  {
  }

  // One position of an increment: the carry goes on exactly if the word becomes zero.
  lemma IncrementStep(r: seq<Word>, x: seq<Word>, i: nat)
    requires i < |r| == |x| && r[i] == (x[i] + 1) % BASE
    requires Val(r[..i]) + Weight(i) == Val(x[..i]) + 1
    ensures Val(r[..i + 1]) + (if r[i] == 0 then Weight(i + 1) else 0) == Val(x[..i + 1]) + 1
  {
    ValStep(r, i);
    ValStep(x, i);
    hide Val, Weight;
    IncrementArith(Val(r[..i]), Val(x[..i]), x[i], Weight(i));
  }

  lemma DecrementArith(r: nat, y: nat, x: Word, w: nat)
    requires r + 1 == y + w
    ensures r + ((x + BASE - 1) % BASE) * w + 1 == y + x * w + if (x + BASE - 1) % BASE == BASE - 1 then BASE * w else 0
  {
    if x > 0 {
      MulDistributes(x - 1, 1, w);
    }
  }

  lemma DecrementStep(r: seq<Word>, x: seq<Word>, i: nat)
    requires i < |r| == |x| && r[i] == (x[i] + BASE - 1) % BASE
    requires Val(r[..i]) + 1 == Val(x[..i]) + Weight(i)
    ensures Val(r[..i + 1]) + 1 == Val(x[..i + 1]) + if r[i] == BASE - 1 then Weight(i + 1) else 0
  {
    ValStep(r, i);
    ValStep(x, i);
    hide Val, Weight;
    DecrementArith(Val(r[..i]), Val(x[..i]), x[i], Weight(i));
  }

  lemma RowSum(r: nat, r0: nat, carry: nat, k: nat, w: nat, d: nat, wj: nat, wr: nat, lo: nat, hi: nat, x: nat, b: nat)
    requires r0 + k * w == x * b && r + carry * w == r0 + d * wj * lo
    requires w == wj * wr && b == lo + wr * hi
    ensures r + (carry + k + d * hi) * w == (x + d * wj) * b
  {
  }

  // After row j the array holds the product of the first j + 1 words of a with b, up to multiples of
  // the modulus.
  lemma RowDone(r: seq<Word>, r0: seq<Word>, a: seq<Word>, b: seq<Word>, j: nat, carry: nat, k: nat)
    requires |r| == |r0| == |a| == |b| && j < |a|
    requires Val(r0) + k * Weight(|a|) == Val(a[..j]) * Val(b)
    requires Val(r) + carry * Weight(|a|) == Val(r0) + a[j] * Weight(j) * Val(b[..|a| - j])
    ensures Val(r) + (carry + k + a[j] * Val(b[|a| - j..])) * Weight(|a|) == Val(a[..j + 1]) * Val(b)
  {
    var n := |a|;
    ValStep(a, j);
    ValSplit(b, n - j);
    WeightAdds(j, n - j);
    hide *;
    RowSum(Val(r), Val(r0), carry, k, Weight(n), a[j], Weight(j), Weight(n - j), Val(b[..n - j]), Val(b[n - j..]),
           Val(a[..j]), Val(b));
  }

  // What the first e words of a, shifted left by k words and a factor t, push into the next word.
  ghost function PushedOut(a: seq<Word>, e: nat, t: nat): nat
    requires e <= |a|
  {
    if e == 0 then 0 else (a[e - 1] * t) / BASE
  }

  lemma ShiftedLeftArith(r: nat, out: nat, lo: nat, hi: nat, t: nat, w: nat, u: nat)
    requires r + out * (u * w) == lo * (t * w) && r < u * w
    ensures r == ((lo + u * hi) * (w * t)) % (u * w)
  {
    MulDistributes(lo, u * hi, w * t);
    FourFactors(u, hi, w, t);
    assert (u * hi) * (w * t) == (hi * t) * (u * w);
    MulDistributes(out, hi * t, u * w);
    assert t * w == w * t;
    ModUnique((lo + u * hi) * (w * t), r, out + hi * t, u * w);
  }

  // The left shift is complete once all words that stay in range are done.
  lemma ShiftedLeft(r: seq<Word>, a: seq<Word>, k: nat, s: nat, out: nat)
    requires |r| == |a| && k <= |a|
    requires Val(r) + out * Weight(|a|) == Val(a[..|a| - k]) * (Pow2(s) * Weight(k))
    ensures Val(r) == (Val(a) * Pow2(32 * k + s)) % Weight(|a|)
  {
    var n := |a|;
    ValSplit(a, n - k);
    WeightAdds(n - k, k);
    WeightIsPow2(k);
    Pow2Adds(32 * k, s);
    ValBound(r);
    hide *;
    ShiftedLeftArith(Val(r), out, Val(a[..n - k]), Val(a[n - k..]), Pow2(s), Weight(k), Weight(n - k));
  }

  lemma ShiftedAwayArith(x: nat, m: nat, rest: nat)
    requires x < m && rest > 0
    ensures (x * (m * rest)) % m == 0 && x / (m * rest) == 0
  {
    MulAssoc(x, rest, m);
    assert m * rest == rest * m;
    ModUnique(x * (m * rest), 0, x * rest, m);
    MulLe(1, rest, m);
    ModUnique(x, x, 0, m * rest);
  }

  // Nothing is left of a number shifted by its whole width.
  lemma ShiftedAway(a: seq<Word>, k: nat, s: nat)
    requires k >= |a|
    ensures (Val(a) * Pow2(32 * k + s)) % Weight(|a|) == 0
    ensures Val(a) / Pow2(32 * k + s) == 0
  {
    var n := |a|;
    WeightIsPow2(n);
    Pow2Adds(32 * n, 32 * k + s - 32 * n);
    ValBound(a);
    hide *;
    ShiftedAwayArith(Val(a), Weight(n), Pow2(32 * k + s - 32 * n));
  }

  lemma ShiftedRightArith(v: nat, rem: nat, t: nat, w: nat, lo: nat)
    requires rem < t && lo < w
    ensures (lo + w * (v * t + rem)) / (w * t) == v
  {
    assert w * (v * t + rem) == w * (v * t) + w * rem;
    MulAssoc(w, v, t);
    MulAssoc(v, w, t);
    assert w * v == v * w;
    MulLe(rem + 1, t, w);
    MulDistributes(rem, 1, w);
    ModUnique(lo + w * (v * t + rem), lo + w * rem, v, w * t);
  }

  lemma ShiftedRight(v: nat, a: seq<Word>, k: nat, s: nat, rem: nat)
    requires k <= |a| && rem < Pow2(s)
    requires v * Pow2(s) + rem == Val(a[k..])
    ensures v == Val(a) / Pow2(32 * k + s)
  {
    ValSplit(a, k);
    ValBound(a[..k]);
    WeightIsPow2(k);
    Pow2Adds(32 * k, s);
    hide *;
    ShiftedRightArith(v, rem, Pow2(s), Weight(k), Val(a[..k]));
  }

  // The state of the left shift when i words are done.
  ghost predicate LeftShifting(r: seq<Word>, a: seq<Word>, k: nat, t: nat, i: nat)
    requires |r| == |a| && i <= |a|
  {
    if k >= |a| then forall q | 0 <= q < |a| :: r[q] == 0
    else
      var e := if i + k <= |a| then i else |a| - k;
      && Val(r[..e + k]) + PushedOut(a, e, t) * Weight(e + k) == Val(a[..e]) * (t * Weight(k))
      && forall q | e + k <= q < |a| :: r[q] == if q == e + k then PushedOut(a, e, t) else 0
  }

  lemma LeftShiftStarts(r: seq<Word>, a: seq<Word>, k: nat, t: nat)
    requires |r| == |a| && forall q | 0 <= q < |r| :: r[q] == 0
    ensures LeftShifting(r, a, k, t, 0)
  {
    if k < |a| {
      ValOfZeros(r[..k]);
    }
  }

  lemma LeftDigit(a: seq<Word>, i: nat, s: nat)
    requires i < |a| && s < 32
    ensures var out := PushedOut(a, i, Pow2(s));
            BitOr(out, Shl(a[i], s)) == out + Shl(a[i], s)
    ensures PushedOut(a, i + 1, Pow2(s)) == if s == 0 then 0 else Shr(a[i], 32 - s)
    ensures PushedOut(a, i + 1, Pow2(s)) == (a[i] * Pow2(s)) / BASE
  {
    hide BitOr;
    var out := PushedOut(a, i, Pow2(s));
    ShiftParts(a[i], s);
    if i > 0 {
      ShiftParts(a[i - 1], s);
    }
    OrOfParts(a[i] % Pow2(32 - s), out, s);
  }

  // A word in range goes into its place next to what the word below pushed out.
  lemma LeftShiftGoesOn(r0: seq<Word>, r: seq<Word>, a: seq<Word>, k: nat, s: nat, i: nat)
    requires |r0| == |r| == |a| && i < |a| && s < 32 && LeftShifting(r0, a, k, Pow2(s), i)
    requires i + k >= |a| ==> r == r0
    requires i + k < |a| ==>
               && r[i + k] == BitOr(r0[i + k], Shl(a[i], s))
               && (i + k + 1 < |a| ==>
                     r[i + k + 1] == if s == 0 then r0[i + k + 1] else BitOr(r0[i + k + 1], Shr(a[i], 32 - s)))
               && forall q | 0 <= q < |a| && q != i + k && q != i + k + 1 :: r[q] == r0[q]
    ensures LeftShifting(r, a, k, Pow2(s), i + 1)
  {
    hide Val, Weight, Pow2, BitOr, PushedOut, BASE;
    if i + k < |a| {
      LeftDigit(a, i, s);
      BitOrZero(Shr(a[i], 32 - s));
      assert r[..i + k] == r0[..i + k];
      ShiftLeftStep(r0, r, a, i, k, Pow2(s), PushedOut(a, i, Pow2(s)));
    }
  }

  // The state of the right shift when i words are done: the words below i - k - 1 are final, and the one
  // at i - k - 1 still lacks the bits of word i.
  ghost predicate RightShifting(r: seq<Word>, a: seq<Word>, k: nat, s: nat, i: nat)
    requires |r| == |a| && i <= |a|
  {
    var m := if i <= k then 0 else i - k;
    && (m > 0 ==> Val(r[..m]) * Pow2(s) + a[k] % Pow2(s) == Val(a[k..i]))
    && (m > 0 ==> r[m - 1] == Shr(a[i - 1], s))
    && forall q | m <= q < |r| :: r[q] == 0
  }

  lemma RightShiftStarts(r: seq<Word>, a: seq<Word>, k: nat, s: nat)
    requires |r| == |a| && forall q | 0 <= q < |r| :: r[q] == 0
    ensures RightShifting(r, a, k, s, 0)
  {
  }

  lemma RightDigit(a: seq<Word>, i: nat, s: nat)
    requires i < |a| && s < 32
    ensures Pow2(s) * Pow2(32 - s) == BASE
    ensures s == 0 ==> (a[i] % Pow2(s)) * Pow2(32 - s) == 0
    ensures i > 0 ==> BitOr(Shr(a[i - 1], s), Shl(a[i], 32 - s))
                      == Shr(a[i - 1], s) + (a[i] % Pow2(s)) * Pow2(32 - s)
  {
    hide BitOr;
    Pow2Adds(s, 32 - s);
    Pow2Of32();
    ShiftParts(a[i], 32 - s);
    if i > 0 {
      ShiftParts(a[i - 1], s);
      OrOfParts(a[i] % Pow2(s), Shr(a[i - 1], s), 32 - s);
    }
  }

  lemma RightShiftGoesOn(r0: seq<Word>, r: seq<Word>, a: seq<Word>, k: nat, s: nat, i: nat)
    requires |r0| == |r| == |a| && i < |a| && s < 32 && RightShifting(r0, a, k, s, i)
    requires i < k ==> r == r0
    requires i >= k ==>
               && r[i - k] == BitOr(r0[i - k], Shr(a[i], s))
               && (i > k ==> r[i - k - 1] == if s == 0 then r0[i - k - 1]
                                             else BitOr(r0[i - k - 1], Shl(a[i], 32 - s)))
               && forall q | 0 <= q < |a| && q != i - k && q != i - k - 1 :: r[q] == r0[q]
    ensures RightShifting(r, a, k, s, i + 1)
  {
    hide Val, Weight, Pow2, BitOr, BASE;
    if i >= k {
      var m, t := i - k, Pow2(s);
      RightDigit(a, i, s);
      BitOrZero(Shr(a[i], s));
      ValStep(a[k..i + 1], m);
      assert a[k..i + 1][..m] == a[k..i] && a[k..i + 1][..m + 1] == a[k..i + 1];
      if m > 0 {
        assert r[..m] == r0[..m][m - 1 := r[m - 1]];
      }
      ShiftRightStep(r0, r, a[i], m, t, Pow2(32 - s), if m == 0 then 0 else a[k] % t, Val(a[k..i]));
    }
  }

  lemma RightShiftEnds(r: seq<Word>, a: seq<Word>, k: nat, s: nat)
    requires |r| == |a| && RightShifting(r, a, k, s, |a|)
    ensures Val(r) == Val(a) / Pow2(32 * k + s)
  {
    hide Val, Weight, Pow2;
    if k >= |a| {
      ValOfZeros(r);
      ShiftedAway(a, k, s);
    } else {
      var m := |a| - k;
      ValSplit(r, m);
      ValOfZeros(r[m..]);
      assert a[k..|a|] == a[k..];
      assert Val(r) == Val(r[..m]);
      ShiftedRight(Val(r), a, k, s, a[k] % Pow2(s));
    }
  }

  lemma HighestDigit(lo: nat, d: nat, w: nat, p: nat, p': nat)
    requires lo < w && p <= d < p'
    ensures w * p <= lo + d * w < w * p'
  {
    MulLe(p, d, w);
    MulLe(d + 1, p', w);
    MulDistributes(d, 1, w);
  }

  // The number of bits of a number whose highest nonzero word is word i with highest bit k.
  lemma BitLengthOf(a: seq<Word>, i: nat, k: nat)
    requires i < |a| && k < 32 && Pow2(k) <= a[i] < Pow2(k + 1)
    requires forall q | i < q < |a| :: a[q] == 0
    ensures Pow2(32 * i + k) <= Val(a) < Pow2(32 * i + k + 1)
  {
    hide Val, Weight, Pow2;
    ValSplit(a, i + 1);
    ValOfZeros(a[i + 1..]);
    assert Val(a) == Val(a[..i + 1]);
    ValStep(a, i);
    ValBound(a[..i]);
    WeightIsPow2(i);
    Pow2Adds(32 * i, k);
    Pow2Adds(32 * i, k + 1);
    hide *;
    HighestDigit(Val(a[..i]), a[i], Weight(i), Pow2(k), Pow2(k + 1));
  }

  // The bits of the quotient that are still to be found are zero.
  ghost predicate ZeroBelow(a: seq<Word>, shift: int) {
    forall p: nat | p <= shift && p < 32 * |a| :: !TestBit(a[p / 32], p % 32)
  }

  lemma SetQuotientBit(a: seq<Word>, b: seq<Word>, shift: nat)
    requires shift < 32 * |a| && |b| == |a| && ZeroBelow(a, shift) && b == a[shift / 32 := b[shift / 32]]
    requires b[shift / 32] == BitOr(a[shift / 32], Pow2(shift % 32))
    ensures ZeroBelow(b, shift - 1) && Val(b) == Val(a) + Pow2(shift)
  {
    var i, k := shift / 32, shift % 32;
    forall p: nat | p <= shift - 1 && p < 32 * |b|
      ensures !TestBit(b[p / 32], p % 32)
    {
      TestBitOfOr(a[i], Pow2(k), p % 32);
      TestBitOfPow2(k, p % 32);
    }
    OrIsAdd(a[i], k);
    ValUpdate(a, i, b[i]);
    WeightIsPow2(i);
    Pow2Adds(k, 32 * i);
  }

  // What a division knows before it looks at bit shift: the divisor stands shifted by that many bits,
  // and what is left of the number is below twice of it.
  ghost predicate Dividing(n: nat, d: nat, shift: int, quotient: nat, num: nat, div: nat) {
    && shift >= -1 && quotient * d + num == n && num < d * Pow2(shift + 1)
    && (shift >= 0 ==> div == d * Pow2(shift))
  }

  lemma DivisionStep(n: nat, d: nat, shift: nat, quotient: nat, num: nat, div: nat)
    requires Dividing(n, d, shift, quotient, num, div)
    ensures num >= div ==> Dividing(n, d, shift - 1, quotient + Pow2(shift), num - div, div / 2)
    ensures num < div ==> Dividing(n, d, shift - 1, quotient, num, div / 2)
  {
    Pow2Doubles(shift);
    var p := Pow2(shift);
    if shift > 0 {
      Pow2Doubles(shift - 1);
      var h := Pow2(shift - 1);
      TwiceProduct(d, h);
      assert div / 2 == d * h;
    }
    hide Pow2;
    TwiceProduct(d, p);
    MulDistributes(quotient, p, d);
  }

  lemma WordOr(x: Word, y: nat)
    requires y < BASE
    ensures BitOr(x, y) < BASE
  {
    Pow2Of32();
    BitOrBound(x, y, 32);
  }

  lemma LeftShiftEnds(r: seq<Word>, a: seq<Word>, k: nat, s: nat)
    requires |r| == |a| && LeftShifting(r, a, k, Pow2(s), |a|)
    ensures Val(r) == (Val(a) * Pow2(32 * k + s)) % Weight(|a|)
  {
    hide Val, Weight, Pow2;
    if k >= |a| {
      ValOfZeros(r);
      ShiftedAway(a, k, s);
    } else {
      assert r[..|a|] == r;
      ShiftedLeft(r, a, k, s, PushedOut(a, |a| - k, Pow2(s)));
    }
  }

  lemma Pow2Of0()
    ensures Pow2(0) == 1 && Pow2(1) == 2
  {
  }

  lemma SmallerHasNoQuotient(n: nat, d: nat, numBits: nat, divBits: nat)
    requires numBits < divBits && Pow2(divBits - 1) <= d
    requires if numBits == 0 then n == 0 else n < Pow2(numBits)
    ensures d > 0 && n / d == 0 && n % d == n
  {
    Pow2Monotone(numBits, divBits - 1);
    ModUnique(n, n, 0, d);
  }

  lemma FirstDividing(n: nat, d: nat, s: nat, div: nat)
    requires n < d * Pow2(s + 1) && div == d * Pow2(s)
    ensures Dividing(n, d, s, 0, n, div)
  {
  }

  lemma DivisionStarts(n: nat, d: nat, numBits: nat, divBits: nat)
    requires 0 < divBits <= numBits <= 256
    requires Pow2(divBits - 1) <= d < Pow2(divBits) && n < Pow2(numBits)
    ensures (d * Pow2(numBits - divBits)) % Modulus() == d * Pow2(numBits - divBits)
    ensures Dividing(n, d, numBits - divBits, 0, n, d * Pow2(numBits - divBits))
  {
    var s := numBits - divBits;
    Pow2Adds(divBits, s);
    Pow2Adds(divBits - 1, s + 1);
    Pow2Monotone(numBits, 256);
    ModulusIsPow2();
    hide Pow2, Modulus, Dividing;
    MulLe(d + 1, Pow2(divBits), Pow2(s));
    MulDistributes(d, 1, Pow2(s));
    MulLe(Pow2(divBits - 1), d, Pow2(s + 1));
    MulNonNegative(d, Pow2(s));
    var div: nat := d * Pow2(s);
    ModUnique(div, div, 0, Modulus());
    FirstDividing(n, d, s, div);
  }

  lemma DivisionEnds(n: nat, d: nat, quotient: nat, num: nat, div: nat)
    requires Dividing(n, d, -1, quotient, num, div) && d > 0
    ensures quotient == n / d && num == n % d
  {
    ModUnique(n, num, quotient, d);
  }

  lemma NoQuotientBits(a: seq<Word>, shift: int)
    requires forall q | 0 <= q < |a| :: a[q] == 0
    ensures ZeroBelow(a, shift)
  {
    forall p: nat | p <= shift && p < 32 * |a|
      ensures !TestBit(a[p / 32], p % 32)
    {
      TestBitOfZero(p % 32);
    }
  }

  lemma StillZeroBelow(a: seq<Word>, shift: int)
    requires ZeroBelow(a, shift)
    ensures ZeroBelow(a, shift - 1)
  {
  }

  class Uint256 {
    const pn: array<Word>

    ghost predicate Valid() {
      pn.Length == WIDTH
    }

    ghost function Value(): nat
      reads pn
    {
      Val(pn[..])
    }

    constructor ()
      ensures Valid() && fresh(pn) && Value() == 0
    {
      pn := new Word[WIDTH](_ => 0);
      new;
      ValOfZeros(pn[..]);
    }

    constructor Copy(b: Uint256)
      requires b.Valid()
      ensures Valid() && fresh(pn) && pn[..] == b.pn[..]
    {
      pn := new Word[WIDTH](i requires 0 <= i < WIDTH reads b.pn => b.pn[i]);
    }

    // The number b of 64 bits.
    method SetUint64(b: nat)
      requires Valid() && b < BASE * BASE
      modifies pn
      ensures Value() == b
    {
      hide Val, Weight;
      pn[0] := b % BASE;
      pn[1] := b / BASE;
      for i := 2 to WIDTH
        invariant pn[0] == b % BASE && pn[1] == b / BASE && forall k | 2 <= k < i :: pn[k] == 0
      {
        pn[i] := 0;
      }
      ValOfZeros(pn[2..]);
      ValOfTwo(pn[..]);
      assert pn[..][2..] == pn[2..];
    }

    // GetLow64
    method GetLow64() returns (low: nat)
      requires Valid()
      ensures low == Value() % (BASE * BASE)
    {
      hide Val, Weight;
      Pow2Of32();
      OrOfParts(pn[1], pn[0], 32);
      low := BitOr(pn[0], pn[1] * BASE);
      ValOfTwo(pn[..]);
      ModUnique(Value(), low, Val(pn[..][2..]), BASE * BASE);
    }

    // operator+=
    method AddAssign(b: Uint256)
      requires Valid() && b.Valid()
      modifies pn
      ensures Value() == (old(Value()) + old(b.Value())) % Modulus()
    {
      hide Val, Weight;
      ghost var x, y := pn[..], b.pn[..];
      var carry: nat := 0;
      for i := 0 to WIDTH
        invariant carry <= 1
        invariant pn[i..] == x[i..] && b.pn[i..] == y[i..]
        invariant Val(pn[..i]) + carry * Weight(i) == Val(x[..i]) + Val(y[..i])
      {
        ghost var before := pn[..];
        var n := carry + pn[i] + b.pn[i];
        pn[i] := n % BASE;
        assert pn[..][..i] == before[..i];
        AddStep(pn[..], x, y, i, carry);
        carry := n / BASE;
      }
      assert pn[..WIDTH] == pn[..] && x[..WIDTH] == x && y[..WIDTH] == y;
      ValBound(pn[..]);
      ModUnique(Val(x) + Val(y), Val(pn[..]), carry, Modulus());
    }

    // operator++
    method Increment()
      requires Valid()
      modifies pn
      ensures Value() == (old(Value()) + 1) % Modulus()
    {
      hide Val, Weight;
      ghost var x := pn[..];
      var i := 0;
      pn[0] := (pn[0] + 1) % BASE;
      IncrementStep(pn[..], x, 0);
      while pn[i] == 0 && i < WIDTH - 1
        invariant 0 <= i < WIDTH && pn[i + 1..] == x[i + 1..]
        invariant Val(pn[..i + 1]) + (if pn[i] == 0 then Weight(i + 1) else 0) == Val(x[..i + 1]) + 1
      {
        ghost var before := pn[..];
        i := i + 1;
        pn[i] := (pn[i] + 1) % BASE;
        assert pn[..][..i] == before[..i];
        IncrementStep(pn[..], x, i);
      }
      ValSplit(pn[..], i + 1);
      ValSplit(x, i + 1);
      ValBound(pn[..]);
      assert pn[..][..i + 1] == pn[..i + 1] && pn[..][i + 1..] == pn[i + 1..];
      if pn[i] == 0 {
        assert pn[..i + 1] == pn[..] && x[..i + 1] == x;
        ModUnique(Val(x) + 1, Val(pn[..]), 1, Modulus());
      } else {
        ModUnique(Val(x) + 1, Val(pn[..]), 0, Modulus());
      }
    }

    // The unary minus.
    method Negate() returns (r: Uint256)
      requires Valid()
      ensures r.Valid() && fresh(r) && fresh(r.pn) && r.Value() == (Modulus() - Value()) % Modulus()
    {
      hide Val, Weight;
      r := new Uint256();
      for i := 0 to WIDTH
        invariant forall k | 0 <= k < i :: r.pn[k] == BASE - 1 - pn[k]
      {
        r.pn[i] := BASE - 1 - pn[i];
      }
      ValComplement(pn[..], r.pn[..]);
      r.Increment();
    }

    // operator--
    method Decrement()
      requires Valid()
      modifies pn
      ensures Value() == (old(Value()) + Modulus() - 1) % Modulus()
    {
      hide Val, Weight;
      ghost var x := pn[..];
      var i := 0;
      pn[0] := (pn[0] + BASE - 1) % BASE;
      DecrementStep(pn[..], x, 0);
      while pn[i] == BASE - 1 && i < WIDTH - 1
        invariant 0 <= i < WIDTH && pn[i + 1..] == x[i + 1..]
        invariant Val(pn[..i + 1]) + 1 == Val(x[..i + 1]) + if pn[i] == BASE - 1 then Weight(i + 1) else 0
      {
        ghost var before := pn[..];
        i := i + 1;
        pn[i] := (pn[i] + BASE - 1) % BASE;
        assert pn[..][..i] == before[..i];
        DecrementStep(pn[..], x, i);
      }
      ValSplit(pn[..], i + 1);
      ValSplit(x, i + 1);
      ValBound(pn[..]);
      assert pn[..][..i + 1] == pn[..i + 1] && pn[..][i + 1..] == pn[i + 1..];
      if pn[i] == BASE - 1 {
        assert pn[..i + 1] == pn[..] && x[..i + 1] == x;
        ModUnique(Val(x) + Modulus() - 1, Val(pn[..]), 0, Modulus());
      } else {
        ModUnique(Val(x) + Modulus() - 1, Val(pn[..]), 1, Modulus());
      }
    }

    // operator-=
    method SubAssign(b: Uint256)
      requires Valid() && b.Valid()
      modifies pn
      ensures Value() == (old(Value()) + Modulus() - old(b.Value())) % Modulus()
      ensures old(Value()) >= old(b.Value()) ==> Value() == old(Value()) - old(b.Value())
    {
      hide Val, Weight;
      ghost var x, y := Value(), b.Value();
      ValBound(b.pn[..]);
      ValBound(pn[..]);
      if x >= y {
        ModUnique(x + Modulus() - y, x - y, 1, Modulus());
      }
      var minus := b.Negate();
      AddAssign(minus);
      if y == 0 {
        ModUnique(Modulus(), 0, 1, Modulus());
        ModOfSum(x, 1, Modulus());
      } else {
        ModUnique(Modulus() - y, Modulus() - y, 0, Modulus());
      }
    }

    // CompareTo
    method CompareTo(b: Uint256) returns (r: int)
      requires Valid() && b.Valid()
      ensures r == if Value() < b.Value() then -1 else if Value() > b.Value() then 1 else 0
    {
      hide Val;
      var i := WIDTH - 1;
      while i >= 0
        invariant -1 <= i < WIDTH && pn[i + 1..] == b.pn[i + 1..]
      {
        if pn[i] < b.pn[i] {
          ValLess(pn[..], b.pn[..], i);
          return -1;
        }
        if pn[i] > b.pn[i] {
          ValLess(b.pn[..], pn[..], i);
          return 1;
        }
        i := i - 1;
      }
      assert pn[..] == b.pn[..];
      return 0;
    }

    // operator*= with a factor of one word.
    method MulAssignWord(b32: Word)
      requires Valid()
      modifies pn
      ensures Value() == (old(Value()) * b32) % Modulus()
    {
      hide Val, Weight;
      ghost var x := pn[..];
      ghost var zeros := seq(WIDTH, _ => 0);
      var carry: nat := 0;
      for i := 0 to WIDTH
        invariant carry < BASE && pn[i..] == x[i..]
        invariant Val(pn[..i]) + carry * Weight(i) == Val(zeros[..i]) + b32 * Weight(0) * Val(x[..i])
      {
        ghost var before := pn[..];
        var n := carry + b32 * pn[i];
        AccumulatorFits(carry, 0, b32, pn[i]);
        pn[i] := n % BASE;
        assert pn[..][..i] == before[..i];
        MulStep(zeros, pn[..], x, b32, i, 0, carry);
        carry := n / BASE;
      }
      ValOfZeros(zeros);
      assert pn[..WIDTH] == pn[..] && x[..WIDTH] == x && zeros[..WIDTH] == zeros;
      ValBound(pn[..]);
      ModUnique(Val(x) * b32, Val(pn[..]), carry, Modulus());
    }

    // The inner loop of operator*=.
    method AddRow(a: Uint256, b: Uint256, j: nat) returns (carry: nat)
      requires Valid() && b.Valid() && a.Valid() && a.pn != pn && j < WIDTH
      requires b.pn == pn ==> forall i | 0 <= i < WIDTH :: pn[i] == 0
      modifies pn
      ensures b.pn == pn ==> forall i | 0 <= i < WIDTH :: pn[i] == 0
      ensures b.pn != pn ==>
                Val(pn[..]) + carry * Weight(WIDTH)
                == old(Val(pn[..])) + a.pn[j] * Weight(j) * Val(b.pn[..WIDTH - j])
    {
      hide Val, Weight;
      ghost var r0, y, d := pn[..], b.pn[..], a.pn[j];
      carry := 0;
      for i := 0 to WIDTH - j
        invariant carry < BASE && pn[i + j..] == r0[i + j..]
        invariant b.pn == pn ==> carry == 0 && forall i | 0 <= i < WIDTH :: pn[i] == 0
        invariant b.pn != pn ==>
                    Val(pn[..i + j]) + carry * Weight(i + j) == Val(r0[..i + j]) + d * Weight(j) * Val(y[..i])
      {
        ghost var before := pn[..];
        var n := carry + pn[i + j] + (a.pn[j] as nat) * b.pn[i];
        AccumulatorFits(carry, pn[i + j], d, b.pn[i]);
        pn[i + j] := n % BASE;
        assert pn[..][..i + j] == before[..i + j];
        if b.pn != pn {
          MulStep(r0, pn[..], y, d, i, j, carry);
        }
        carry := n / BASE;
      }
      assert pn[..WIDTH] == pn[..] && r0[..WIDTH] == r0 && b.pn[..WIDTH - j] == y[..WIDTH - j];
    }

    // *this = 0
    method Clear()
      requires Valid()
      modifies pn
      ensures Value() == 0 && forall i | 0 <= i < WIDTH :: pn[i] == 0
    {
      for i := 0 to WIDTH
        invariant forall k | 0 <= k < i :: pn[k] == 0
      {
        pn[i] := 0;
      }
      ValOfZeros(pn[..]);
    }

    // operator*=. If b is this very number the source reads it after clearing it: the result is then 0.
    method MulAssign(b: Uint256)
      requires Valid() && b.Valid()
      modifies pn
      ensures Value() == if b.pn == pn then 0 else (old(Value()) * b.Value()) % Modulus()
    {
      hide Val, Weight;
      var a := new Uint256.Copy(this);
      ghost var x, y := pn[..], b.pn[..];
      Clear();
      ghost var k: nat := 0;
      for j := 0 to WIDTH
        invariant a.pn[..] == x
        invariant b.pn == pn ==> forall i | 0 <= i < WIDTH :: pn[i] == 0
        invariant b.pn != pn ==> Val(pn[..]) + k * Weight(WIDTH) == Val(x[..j]) * Val(y)
      {
        ghost var row0 := pn[..];
        var carry := AddRow(a, b, j);
        if b.pn != pn {
          RowDone(pn[..], row0, x, y, j, carry, k);
          k := carry + k + x[j] * Val(y[WIDTH - j..]);
        }
      }
      ValBound(pn[..]);
      if b.pn == pn {
        ValOfZeros(pn[..]);
      } else {
        assert x[..WIDTH] == x;
        ModUnique(Val(x) * Val(y), Val(pn[..]), k, Modulus());
      }
    }

    // operator<<=
    method ShiftLeft(shift: nat)
      requires Valid()
      modifies pn
      ensures Value() == (old(Value()) * Pow2(shift)) % Modulus()
    {
      hide Val, Weight, Pow2, BitOr, LeftShifting;
      var a := new Uint256.Copy(this);
      ghost var x := pn[..];
      Clear();
      var k, s := shift / 32, shift % 32;
      LeftShiftStarts(pn[..], x, k, Pow2(s));
      for i := 0 to WIDTH
        invariant a.pn[..] == x && LeftShifting(pn[..], x, k, Pow2(s), i)
      {
        ghost var before := pn[..];
        ShiftParts(a.pn[i], s);
        if i + k + 1 < WIDTH && s != 0 {
          var high := Shr(a.pn[i], 32 - s);
          WordOr(pn[i + k + 1], high);
          pn[i + k + 1] := BitOr(pn[i + k + 1], high);
        }
        if i + k < WIDTH {
          var low := Shl(a.pn[i], s);
          WordOr(pn[i + k], low);
          pn[i + k] := BitOr(pn[i + k], low);
        }
        LeftShiftGoesOn(before, pn[..], x, k, s, i);
      }
      LeftShiftEnds(pn[..], x, k, s);
    }

    // operator>>=
    method ShiftRight(shift: nat)
      requires Valid()
      modifies pn
      ensures Value() == old(Value()) / Pow2(shift)
    {
      hide Val, Weight, Pow2, BitOr, RightShifting;
      var a := new Uint256.Copy(this);
      ghost var x := pn[..];
      Clear();
      var k, s := shift / 32, shift % 32;
      RightShiftStarts(pn[..], x, k, s);
      for i := 0 to WIDTH
        invariant a.pn[..] == x && RightShifting(pn[..], x, k, s, i)
      {
        ghost var before := pn[..];
        ShiftParts(a.pn[i], 32 - s);
        if i - k - 1 >= 0 && s != 0 {
          var low := Shl(a.pn[i], 32 - s);
          WordOr(pn[i - k - 1], low);
          pn[i - k - 1] := BitOr(pn[i - k - 1], low);
        }
        if i - k >= 0 {
          var high := Shr(a.pn[i], s);
          WordOr(pn[i - k], high);
          pn[i - k] := BitOr(pn[i - k], high);
        }
        RightShiftGoesOn(before, pn[..], x, k, s, i);
      }
      RightShiftEnds(pn[..], x, k, s);
    }

    // bits: the position of the highest one bit plus one, or zero.
    method BitLength() returns (n: nat)
      requires Valid()
      ensures n <= 32 * WIDTH && (n == 0 <==> Value() == 0)
      ensures n > 0 ==> Pow2(n - 1) <= Value() < Pow2(n)
    {
      hide Val, Weight, Pow2, BitAnd;
      var pos := WIDTH - 1;
      while pos >= 0
        invariant -1 <= pos < WIDTH && forall q | pos < q < WIDTH :: pn[q] == 0
      {
        if pn[pos] != 0 {
          var bit := 31;
          Pow2Of32();
          while bit > 0
            invariant 0 <= bit <= 31 && pn[pos] < Pow2(bit + 1)
          {
            BitAndTestsBit(pn[pos], bit);
            TopBit(pn[pos], bit);
            if BitAnd(pn[pos], Pow2(bit)) != 0 {
              BitLengthOf(pn[..], pos, bit);
              return 32 * pos + bit + 1;
            }
            bit := bit - 1;
          }
          Pow2Of0();
          BitLengthOf(pn[..], pos, 0);
          return 32 * pos + 1;
        }
        pos := pos - 1;
      }
      ValOfZeros(pn[..]);
      return 0;
    }

    // operator/=: shift and subtract. A zero divisor makes the source throw, after this number has
    // been cleared. The ghost result is what the source's local num holds at the end.
    method DivAssign(b: Uint256) returns (ok: bool, ghost remainder: nat)
      requires Valid() && b.Valid()
      modifies pn
      ensures ok <==> old(b.Value()) != 0
      ensures ok ==> Value() == old(Value()) / old(b.Value()) && remainder == old(Value()) % old(b.Value())
      ensures !ok ==> Value() == 0
    {
      hide Val, Weight, Pow2, BitOr, Dividing, ZeroBelow;
      var div := new Uint256.Copy(b);
      var num := new Uint256.Copy(this);
      ghost var n, d := Value(), b.Value();
      Clear();
      var numBits := num.BitLength();
      var divBits := div.BitLength();
      remainder := n;
      if divBits == 0 {
        return false, n;
      }
      if divBits > numBits {
        SmallerHasNoQuotient(n, d, numBits, divBits);
        return true, n;
      }
      var shift := numBits - divBits;
      div.ShiftLeft(shift);
      DivisionStarts(n, d, numBits, divBits);
      NoQuotientBits(pn[..], shift);
      while shift >= 0
        invariant -1 <= shift < 32 * WIDTH
        invariant ZeroBelow(pn[..], shift) && Dividing(n, d, shift, Value(), num.Value(), div.Value())
      {
        ghost var q0, n0, d0 := Value(), num.Value(), div.Value();
        DivisionStep(n, d, shift, q0, n0, d0);
        var order := num.CompareTo(div);
        if order >= 0 {
          num.SubAssign(div);
          ghost var before := pn[..];
          Pow2Monotone(shift % 32, 31);
          Pow2Of32();
          WordOr(pn[shift / 32], Pow2(shift % 32));
          pn[shift / 32] := BitOr(pn[shift / 32], Pow2(shift % 32));
          SetQuotientBit(before, pn[..], shift);
        } else {
          StillZeroBelow(pn[..], shift);
        }
        div.ShiftRight(1);
        Pow2Of0();
        shift := shift - 1;
      }
      remainder := num.Value();
      DivisionEnds(n, d, Value(), remainder, div.Value());
      return true, remainder;
    }
  }
}
