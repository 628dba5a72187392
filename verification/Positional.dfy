// Positional notation: sequences of digits, most significant first, in two bases. A leading zero digit
// stands for itself, so a sequence of digits in one base and its conversion to the other determine each
// other (src/commons/base58.cpp).

module Positional {
  import opened Arithmetic

  function Power(b: nat, k: nat): nat {
    if k == 0 then 1 else b * Power(b, k - 1)
  }

  ghost predicate AreDigits(b: nat, d: seq<nat>) {
    forall i | 0 <= i < |d| :: d[i] < b
  }

  // The number that the digits stand for.
  ghost function Num(b: nat, d: seq<nat>): nat {
    if d == [] then 0 else Num(b, d[..|d| - 1]) * b + d[|d| - 1]
  }

  lemma SmallQuotient(x: nat, b: nat)
    requires b > 1
    ensures 0 <= x % b < b && (x / b) * b + x % b == x
    ensures 0 <= x / b && (x > 0 ==> x / b < x) && (x / b == 0 ==> x % b == x)
  {
    var q := x / b;
    assert q * b + x % b == x;
    if q >= 0 {
      assert q * 2 <= q * b;
    }
  }

  // The digits of x without leading zeros.
  ghost function Minimal(b: nat, x: nat): seq<nat>
    requires b > 1
  {
    SmallQuotient(x, b);
    if x == 0 then [] else Minimal(b, x / b) + [x % b]
  }

  ghost function Zeros(n: nat): (z: seq<nat>)
    ensures |z| == n && forall i | 0 <= i < n :: z[i] == 0
  {
    seq(n, _ => 0)
  }

  ghost function LeadingZeros(d: seq<nat>): (n: nat)
    ensures n <= |d| && d[..n] == Zeros(n) && (n < |d| ==> d[n] != 0)
  {
    if d == [] || d[0] != 0 then 0 else 1 + LeadingZeros(d[1..])
  }

  // The digits d of one base written in another one.
  ghost function Convert(from: nat, to: nat, d: seq<nat>): seq<nat>
    requires from > 1 && to > 1
  {
    Zeros(LeadingZeros(d)) + Minimal(to, Num(from, d))
  }

  lemma {:induction false} LeadingZerosAre(d: seq<nat>, n: nat)
    requires n <= |d| && (forall i | 0 <= i < n :: d[i] == 0) && (n < |d| ==> d[n] != 0)
    ensures LeadingZeros(d) == n
  {
  }

  lemma ZerosStay(n: nat, d: seq<nat>)
    requires d != [] ==> d[0] != 0
    ensures LeadingZeros(Zeros(n) + d) == n
  {
    LeadingZerosAre(Zeros(n) + d, n);
  }

  lemma {:induction false} ZerosInFront(b: nat, n: nat, d: seq<nat>)
    ensures Num(b, Zeros(n) + d) == Num(b, d)
  {
    var all := Zeros(n) + d;
    if d != [] {
      ZerosInFront(b, n, d[..|d| - 1]);
      assert all[..|all| - 1] == Zeros(n) + d[..|d| - 1];
    } else if n > 0 {
      ZerosInFront(b, n - 1, d);
      assert all[..n - 1] == Zeros(n - 1) + d;
    }
  }

  lemma {:induction false} MinimalIsCanonical(b: nat, x: nat)
    requires b > 1
    ensures Num(b, Minimal(b, x)) == x && AreDigits(b, Minimal(b, x))
    ensures x > 0 ==> Minimal(b, x) != [] && Minimal(b, x)[0] != 0
  {
    SmallQuotient(x, b);
    if x > 0 {
      var q, r := x / b, x % b;
      var d := Minimal(b, q);
      MinimalIsCanonical(b, q);
      var all := Minimal(b, x);
      assert all == d + [r];
      hide Minimal;
      assert all[..|d|] == d;
    }
  }

  lemma {:induction false} CanonicalIsMinimal(b: nat, d: seq<nat>)
    requires b > 1 && AreDigits(b, d) && (d != [] ==> d[0] != 0)
    ensures Minimal(b, Num(b, d)) == d && (d != [] ==> Num(b, d) > 0)
  {
    if d != [] {
      var n := |d| - 1;
      CanonicalIsMinimal(b, d[..n]);
      ModUnique(Num(b, d), d[n], Num(b, d[..n]), b);
      ProductMonotone(Num(b, d[..n]), 1, Num(b, d[..n]), b);
      assert d == d[..n] + [d[n]];
    }
  }

  // The conversion keeps the number and its leading zeros; converting back gives the digits again.
  lemma ConvertBack(from: nat, to: nat, d: seq<nat>)
    requires from > 1 && to > 1 && AreDigits(from, d)
    ensures AreDigits(to, Convert(from, to, d))
    ensures Num(to, Convert(from, to, d)) == Num(from, d) && LeadingZeros(Convert(from, to, d)) == LeadingZeros(d)
    ensures Convert(to, from, Convert(from, to, d)) == d
  {
    var z := LeadingZeros(d);
    var rest := d[z..];
    var x := Num(from, d);
    assert d == Zeros(z) + rest;
    hide Num, Minimal, LeadingZeros, Zeros;
    ZerosInFront(from, z, rest);
    CanonicalIsMinimal(from, rest);
    MinimalIsCanonical(to, x);
    var digits := Minimal(to, x);
    var c := Zeros(z) + digits;
    assert c == Convert(from, to, d);
    ZerosStay(z, digits);
    ZerosInFront(to, z, digits);
  }

  lemma {:induction false} PowerAdds(b: nat, i: nat, j: nat)
    ensures Power(b, i + j) == Power(b, i) * Power(b, j)
  {
    if i > 0 {
      PowerAdds(b, i - 1, j);
      MulAssoc(b, Power(b, i - 1), Power(b, j));
    }
  }

  lemma ProductGrows(b: nat, x: nat)
    requires b > 0
    ensures x <= b * x
  {
  }

  lemma {:induction false} PowerMonotone(b: nat, i: nat, j: nat)
    requires b > 0 && i <= j
    ensures 0 < Power(b, i) <= Power(b, j)
  {
    if i < j {
      PowerMonotone(b, i, j - 1);
      ProductGrows(b, Power(b, j - 1));
    } else if i > 0 {
      PowerMonotone(b, i - 1, j - 1);
      ProductGrows(b, Power(b, i - 1));
    }
  }

  lemma {:induction false} NumBound(b: nat, d: seq<nat>)
    requires AreDigits(b, d)
    ensures Num(b, d) < Power(b, |d|)
  {
    if d != [] {
      var n := |d| - 1;
      NumBound(b, d[..n]);
      ProductMonotone(Num(b, d[..n]) + 1, b, Power(b, n), b);
      assert (Num(b, d[..n]) + 1) * b == Num(b, d[..n]) * b + b;
    }
  }

  lemma FrontArith(x: nat, p: nat, y: nat, b: nat)
    ensures (x * p + y) * b == x * (b * p) + y * b
  {
  }

  // The digit in front.
  lemma {:induction false} NumFront(b: nat, d: seq<nat>)
    requires d != []
    ensures Num(b, d) == d[0] * Power(b, |d| - 1) + Num(b, d[1..])
  {
    var n := |d| - 1;
    if n > 0 {
      NumFront(b, d[..n]);
      assert d[1..][..n - 1] == d[..n][1..];
      FrontArith(d[0], Power(b, n - 1), Num(b, d[1..n]), b);
    }
  }

  // A block of i digits that fits into j digits of another base: so do many.
  lemma {:induction false} Blocks(from: nat, i: nat, to: nat, j: nat, q: nat)
    requires Power(from, i) <= Power(to, j)
    ensures Power(from, i * q) <= Power(to, j * q)
  {
    if q > 0 {
      Blocks(from, i, to, j, q - 1);
      assert i * q == i * (q - 1) + i && j * q == j * (q - 1) + j;
      PowerAdds(from, i * (q - 1), i);
      PowerAdds(to, j * (q - 1), j);
      ProductMonotone(Power(from, i * (q - 1)), Power(from, i), Power(to, j * (q - 1)), Power(to, j));
    }
  }

  lemma TwoBlocks(from: nat, i: nat, j: nat, to: nat, k: nat, l: nat)
    requires Power(from, i) <= Power(to, k) && Power(from, j) <= Power(to, l)
    ensures Power(from, i + j) <= Power(to, k + l)
  {
    PowerAdds(from, i, j);
    PowerAdds(to, k, l);
    ProductMonotone(Power(from, i), Power(from, j), Power(to, k), Power(to, l));
  }

  lemma SmallBytes(r: nat) returns (digits: nat)
    requires r < 8
    ensures digits == [0, 2, 3, 5, 6, 7, 9, 10][r] && Power(256, r) <= Power(58, digits)
  {
    digits := [0, 2, 3, 5, 6, 7, 9, 10][r];
    assert Power(256, 0) <= Power(58, 0) && Power(256, 1) <= Power(58, 2) && Power(256, 2) <= Power(58, 3)
        && Power(256, 3) <= Power(58, 5) && Power(256, 4) <= Power(58, 6) && Power(256, 5) <= Power(58, 7)
        && Power(256, 6) <= Power(58, 9) && Power(256, 7) <= Power(58, 10);
    hide Power;
  }

  lemma ByteBlocks(n: nat) returns (q: nat, r: nat, size: nat)
    ensures n == 8 * q + r && r < 8 && size == n * 138 / 100 + 1
    ensures 11 * q + [0, 2, 3, 5, 6, 7, 9, 10][r] <= size
  {
    q, r, size := n / 8, n % 8, n * 138 / 100 + 1;
    assert n * 138 == 1100 * q + 4 * q + 138 * r;
    assert n * 138 / 100 >= 11 * q + 138 * r / 100;
  }

  lemma EightBytes()
    ensures Power(256, 8) <= Power(58, 11)
  {
  }

  // n bytes fit into n * 138 / 100 + 1 digits of base 58.
  lemma BytesFit(n: nat)
    ensures Power(256, n) <= Power(58, n * 138 / 100 + 1)
  {
    hide *;
    var q, r, size := ByteBlocks(n);
    EightBytes();
    Blocks(256, 8, 58, 11, q);
    var digits := SmallBytes(r);
    TwoBlocks(256, 8 * q, r, 58, 11 * q, digits);
    PowerMonotone(58, 11 * q + digits, size);
  }

  // The bytes that x digits of base 58 need.
  function TextBytes(x: nat): nat
    requires x < 15
  {
    [0, 1, 2, 3, 3, 4, 5, 6, 6, 7, 8, 9, 9, 10, 11][x]
  }

  lemma TextFits(x: nat)
    requires x < 15
    ensures Power(58, x) <= Power(256, TextBytes(x))
  {
  }

  lemma PowerOfSum(b: nat, i: nat, j: nat, x: nat, y: nat)
    requires Power(b, i) == x && Power(b, j) == y
    ensures Power(b, i + j) == x * y
  {
    PowerAdds(b, i, j);
  }

  lemma LargeTexts()
    ensures Power(58, 15) <= Power(256, 11) && Power(58, 71) <= Power(256, 52)
  {
    assert Power(58, 1) == 58 && Power(58, 7) == 2207984167552 && Power(58, 8) == 128063081718016;
    assert Power(256, 1) == 256 && Power(256, 5) == 0x10000000000 && Power(256, 6) == 0x1000000000000;
    hide Power;
    PowerOfSum(58, 7, 8, 2207984167552, 128063081718016);
    PowerOfSum(58, 8, 8, 128063081718016, 128063081718016);
    PowerOfSum(58, 16, 1, 16400152899115243850138976256, 58);
    PowerOfSum(58, 17, 1, 951208868148684143308060622848, 58);
    PowerOfSum(58, 17, 18, 951208868148684143308060622848, 55170114352623680311867516125184);
    PowerOfSum(58, 18, 18, 55170114352623680311867516125184, 55170114352623680311867516125184);
    PowerOfSum(58, 35, 36, 52478302028992644968172978478148648556151605660894866578604032,
               3043741517681573408154032751732621616256793128331902261559033856);
    PowerOfSum(256, 5, 6, 0x10000000000, 0x1000000000000);
    PowerOfSum(256, 6, 6, 0x1000000000000, 0x1000000000000);
    PowerOfSum(256, 12, 1, 0x1000000000000000000000000, 0x100);
    PowerOfSum(256, 13, 13, 0x100000000000000000000000000, 0x100000000000000000000000000);
    PowerOfSum(256, 26, 26, 0x10000000000000000000000000000000000000000000000000000,
               0x10000000000000000000000000000000000000000000000000000);
  }

  lemma TextSize(m: nat, u: nat, w: nat, x: nat)
    requires m == 71 * u + 15 * w + x && w < 5 && x < 15
    ensures 52 * u + 11 * w + TextBytes(x) <= m * 733 / 1000 + 1
  {
  }

  lemma TextBlocks(m: nat) returns (u: nat, w: nat, x: nat, rest: nat, size: nat)
    ensures m == 71 * u + 15 * w + x && x < 15 && rest == TextBytes(x)
    ensures size == m * 733 / 1000 + 1 && 52 * u + 11 * w + rest <= size
  {
    u, w, x, size := m / 71, m % 71 / 15, m % 71 % 15, m * 733 / 1000 + 1;
    rest := TextBytes(x);
    TextSize(m, u, w, x);
  }

  // m digits of base 58 fit into m * 733 / 1000 + 1 bytes.
  lemma DigitsFit(m: nat)
    ensures Power(58, m) <= Power(256, m * 733 / 1000 + 1)
  {
    hide *;
    var u, w, x, rest, size := TextBlocks(m);
    LargeTexts();
    Blocks(58, 71, 256, 52, u);
    Blocks(58, 15, 256, 11, w);
    TextFits(x);
    TwoBlocks(58, 71 * u, 15 * w, 256, 52 * u, 11 * w);
    TwoBlocks(58, 71 * u + 15 * w, x, 256, 52 * u + 11 * w, rest);
    PowerMonotone(256, 52 * u + 11 * w + rest, size);
  }
}
