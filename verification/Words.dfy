// Numbers as arrays of 32-bit words, least significant first: their values, and what the word-level
// operations of src/commons/arith_uint256.cpp do to them.

module Words {
  import opened Arithmetic
  import opened Bits

  const BASE: nat := 0x1_0000_0000

  type Word = x: nat | x < BASE

  // The weight of word i.
  function Weight(i: nat): (w: nat)
    ensures w > 0 && (i == 0 ==> w == 1)
  {
    if i == 0 then 1 else BASE * Weight(i - 1)
  }

  function Val(s: seq<Word>): (v: nat)
    ensures s == [] ==> v == 0
  {
    if s == [] then 0 else Val(s[..|s| - 1]) + s[|s| - 1] * Weight(|s| - 1)
  }

  lemma {:induction false} Pow2Adds(i: nat, j: nat)
    ensures Pow2(i + j) == Pow2(i) * Pow2(j)
  {
    if i > 0 {
      Pow2Adds(i - 1, j);
      MulAssoc(2, Pow2(i - 1), Pow2(j));
    }
  }

  lemma Pow2Of32()
    ensures Pow2(32) == BASE && Pow2(16) == 0x1_0000 && Pow2(31) == 0x8000_0000 && Pow2(8) == 256
  {
    assert Pow2(8) == 256;
    hide Pow2;
    Pow2Adds(8, 8);
    Pow2Adds(16, 16);
    Pow2Doubles(31);
  }

  lemma {:induction false} WeightIsPow2(i: nat)
    ensures Weight(i) == Pow2(32 * i)
  {
    if i > 0 {
      WeightIsPow2(i - 1);
      Pow2Adds(32, 32 * (i - 1));
      Pow2Of32();
    }
  }

  lemma {:induction false} WeightAdds(i: nat, j: nat)
    ensures Weight(i + j) == Weight(i) * Weight(j)
  {
    if i > 0 {
      WeightAdds(i - 1, j);
      MulAssoc(BASE, Weight(i - 1), Weight(j));
    }
  }

  // One more word.
  lemma ValStep(s: seq<Word>, i: nat)
    requires i < |s|
    ensures Val(s[..i + 1]) == Val(s[..i]) + s[i] * Weight(i)
    ensures Weight(i + 1) == BASE * Weight(i)
  {
    assert s[..i + 1][..i] == s[..i];
  }

  lemma {:induction false} ValBound(s: seq<Word>)
    ensures Val(s) < Weight(|s|)
  {
    if s != [] {
      var i := |s| - 1;
      ValBound(s[..i]);
      ValStep(s, i);
      assert s[..i + 1] == s;
      hide Val, Weight;
      MulLe(s[i], BASE - 1, Weight(i));
    }
  }

  lemma DigitUnderWeight(x: nat, d: nat, w: nat, v: nat)
    ensures w * x + d * (w * v) == w * (x + d * v)
  {
  }

  lemma {:induction false} ValConcat(s: seq<Word>, t: seq<Word>)
    ensures Val(s + t) == Val(s) + Weight(|s|) * Val(t)
  {
    if t == [] {
      assert s + t == s;
    } else {
      var i := |t| - 1;
      ValConcat(s, t[..i]);
      ValStep(t, i);
      ValStep(s + t, |s| + i);
      assert (s + t)[..|s| + i] == s + t[..i] && (s + t)[..|s| + i + 1] == s + t && t[..i + 1] == t;
      WeightAdds(|s|, i);
      hide *;
      DigitUnderWeight(Val(t[..i]), t[i], Weight(|s|), Weight(i));
    }
  }

  lemma {:induction false} ValOfZeros(s: seq<Word>)
    requires forall i | 0 <= i < |s| :: s[i] == 0
    ensures Val(s) == 0
  {
    if s != [] {
      ValOfZeros(s[..|s| - 1]);
    }
  }

  // A full word splits a number into digit and carry.
  lemma SplitWord(n: nat, w: nat)
    ensures n * w == (n % BASE) * w + (n / BASE) * (BASE * w)
  {
  }

  // A zero bit is set by adding its weight.
  lemma {:induction false} OrIsAdd(x: nat, k: nat)
    requires !TestBit(x, k)
    ensures BitOr(x, Pow2(k)) == x + Pow2(k)
  {
    if k > 0 {
      OrIsAdd(x / 2, k - 1);
      BitOrDigit(x, Pow2(k));
      assert BitOr(x, Pow2(k)) == 2 * BitOr(x / 2, Pow2(k - 1)) + BitOr(x, Pow2(k)) % 2;
    } else {
      BitOrDigit(x, 1);
      assert BitOr(x / 2, 0) == x / 2;
    }
  }

  lemma OrEven(half: nat, low: nat)
    requires BitOr(half, low / 2) == BitOr(low / 2, half) == half + low / 2
    ensures BitOr(2 * half, low) == BitOr(low, 2 * half) == 2 * half + low
  {
    BitOrDigit(2 * half, low);
    BitOrDigit(low, 2 * half);
    hide BitOr;
    assert (2 * half) / 2 == half;
  }

  // Disjoint parts are joined by adding them.
  lemma {:induction false} OrOfParts(high: nat, low: nat, s: nat)
    requires low < Pow2(s)
    ensures BitOr(high * Pow2(s), low) == BitOr(low, high * Pow2(s)) == high * Pow2(s) + low
    decreases s
  {
    if s == 0 {
      assert low == 0;
    } else {
      hide BitOr, Pow2;
      Pow2Doubles(s - 1);
      var p := Pow2(s - 1);
      OrOfParts(high, low / 2, s - 1);
      OrEven(high * p, low);
      TwiceProduct(high, p);
    }
  }

  // Replacing one word.
  lemma {:induction false} ValUpdate(s: seq<Word>, i: nat, x: Word)
    requires i < |s|
    ensures Val(s[i := x]) == Val(s) + (x - s[i]) * Weight(i)
  {
    var t := s[i := x];
    if i == |s| - 1 {
      assert t[..i] == s[..i];
      assert x * Weight(i) == s[i] * Weight(i) + (x - s[i]) * Weight(i);
    } else {
      var n := |s| - 1;
      ValUpdate(s[..n], i, x);
      assert t[..n] == s[..n][i := x];
    }
  }

  // A number in two parts.
  lemma ValSplit(s: seq<Word>, i: nat)
    requires i <= |s|
    ensures Val(s) == Val(s[..i]) + Weight(i) * Val(s[i..])
  {
    hide Val, Weight;
    ValConcat(s[..i], s[i..]);
    assert s[..i] + s[i..] == s;
  }

  // The highest differing word decides.
  lemma ValLess(s: seq<Word>, t: seq<Word>, i: nat)
    requires i < |s| == |t| && s[i] < t[i] && s[i + 1..] == t[i + 1..]
    ensures Val(s) < Val(t)
  {
    ValSplit(s, i + 1);
    ValSplit(t, i + 1);
    ValStep(s, i);
    ValStep(t, i);
    ValBound(s[..i]);
    hide Val, Weight;
    MulLe(s[i] + 1, t[i], Weight(i));
    MulDistributes(s[i], 1, Weight(i));
  }

  lemma {:induction false} ValComplement(s: seq<Word>, t: seq<Word>)
    requires |s| == |t| && forall i | 0 <= i < |s| :: t[i] == BASE - 1 - s[i]
    ensures Val(s) + Val(t) == Weight(|s|) - 1
  {
    if s != [] {
      var i := |s| - 1;
      ValComplement(s[..i], t[..i]);
      ValStep(s, i);
      ValStep(t, i);
      assert s[..i + 1] == s && t[..i + 1] == t;
      hide Val, Weight, BASE;
      assert s[i] + t[i] == BASE - 1;
      MulDistributes(s[i], t[i], Weight(i));
      MulDistributes(BASE - 1, 1, Weight(i));
    }
  }

  // x >> s and x << s on 32-bit words.
  function Shr(x: Word, s: nat): (y: Word) {
    QuotientLe(x, Pow2(s));
    x / Pow2(s)
  }

  function Shl(x: Word, s: nat): Word {
    MulNonNegative(x, Pow2(s));
    (x * Pow2(s)) % BASE
  }

  lemma ShiftPartsArith(x: nat, t: nat, p: nat)
    requires t > 0 && p > 0 && p * t == BASE
    ensures (x * t) % BASE == (x % p) * t && (x * t) / BASE == x / p
  {
    hide BASE;
    var q, r := x / p, x % p;
    MulLe(r + 1, p, t);
    MulDistributes(r, 1, t);
    MulDistributes(q * p, r, t);
    MulAssoc(q, p, t);
    ModUnique(x * t, r * t, q, BASE);
  }

  // The low bits of a word, shifted up within the word, and the high bits, shifted out of it.
  lemma ShiftParts(x: Word, s: nat)
    requires s <= 32
    ensures Shl(x, s) == (x % Pow2(32 - s)) * Pow2(s)
    ensures (x * Pow2(s)) / BASE == Shr(x, 32 - s) < Pow2(s)
    ensures Shr(x, s) < Pow2(32 - s)
  {
    Pow2Adds(s, 32 - s);
    Pow2Of32();
    hide Pow2;
    ShiftPartsArith(x, Pow2(s), Pow2(32 - s));
    QuotientBound(x, Pow2(32 - s), Pow2(s));
    QuotientBound(x, Pow2(s), Pow2(32 - s));
  }

  // Bit k is the highest one of x exactly if x is not below its weight.
  lemma {:induction false} TopBit(x: nat, k: nat)
    requires x < Pow2(k + 1)
    ensures TestBit(x, k) <==> x >= Pow2(k)
  {
    if k > 0 {
      TopBit(x / 2, k - 1);
    }
  }

  lemma ShiftLeftArith(out: nat, x: nat, t: nat, n: nat, wi: nat, wk: nat, low: nat, done: nat)
    requires n == x * t && low + out * (wi * wk) == done * (t * wk)
    ensures low + (out + n % BASE) * (wi * wk) + (n / BASE) * (BASE * (wi * wk)) == (done + x * wi) * (t * wk)
  {
  }

  // One position of a left shift by whole words k and by a factor t: the digit takes the bits that the
  // word below shifted out.
  lemma ShiftLeftStep(r0: seq<Word>, r: seq<Word>, a: seq<Word>, i: nat, k: nat, t: nat, out: nat)
    requires i < |a| && i + k < |r0| == |r| && r[..i + k] == r0[..i + k]
    requires r[i + k] == out + (a[i] * t) % BASE
    requires Val(r0[..i + k]) + out * Weight(i + k) == Val(a[..i]) * (t * Weight(k))
    ensures Val(r[..i + k + 1]) + ((a[i] * t) / BASE) * Weight(i + k + 1) == Val(a[..i + 1]) * (t * Weight(k))
  {
    hide Val, Weight;
    ValStep(r, i + k);
    ValStep(a, i);
    WeightAdds(i, k);
    hide *;
    ShiftLeftArith(out, a[i], t, a[i] * t, Weight(i), Weight(k), Val(r0[..i + k]), Val(a[..i]));
  }

  lemma ShiftRightArith(r0: nat, x: nat, t: nat, p: nat, v: nat)
    requires t > 0 && t * p == BASE
    ensures (r0 + (x % t) * p * v + (x / t) * (BASE * v)) * t == r0 * t + x * (BASE * v)
  {
  }

  // One position of a right shift: the word below takes the bits that this one shifted out.
  lemma ShiftRightStep(r0: seq<Word>, r: seq<Word>, x: Word, m: nat, t: nat, p: nat, rem: nat, sum: nat)
    requires t > 0 && t * p == BASE && m < |r0| == |r|
    requires if m == 0 then r[0] == x / t && rem == 0 && sum == 0
             else r[..m] == r0[..m][m - 1 := r[m - 1]] && r[m - 1] == r0[m - 1] + (x % t) * p && r[m] == x / t
    requires m > 0 ==> Val(r0[..m]) * t + rem == sum
    ensures Val(r[..m + 1]) * t + (if m == 0 then x % t else rem) == sum + x * Weight(m)
  {
    hide Val, Weight;
    ValStep(r, m);
    if m == 0 {
      assert r[..1][..0] == [];
      assert x == (x / t) * t + x % t;
    } else {
      ValUpdate(r0[..m], m - 1, r[m - 1]);
      ValStep(r, m - 1);
      hide *;
      ShiftRightArith(Val(r0[..m]), x, t, p, Weight(m - 1));
    }
  }
}
