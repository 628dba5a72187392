// Overflow-checked 64-bit arithmetic and the decimal parser built on it (src/commons/SafeInt3.hpp, the
// path without compiler intrinsics).

module SafeInt {
  import opened Arithmetic
  import opened Bytes
  import opened Positional
  import opened Wrappers

  type Uint32 = x: nat | x < TWO_32
  type Uint64 = x: nat | x < TWO_64
  type Int64 = x: int | -TWO_63 <= x < TWO_63

  // The casts between signed and unsigned keep the 64 bits.
  function ToUnsigned(x: Int64): Uint64 {
    if x < 0 then x + TWO_64 else x
  }

  function ToSigned(x: Uint64): Int64 {
    if x < TWO_63 then x else x - TWO_64
  }

  // ~x + 1
  function Negated(x: Uint64): Uint64 {
    (TWO_64 - 1 - x + 1) % TWO_64
  }

  ghost predicate Fits(x: int) {
    -TWO_63 <= x < TWO_63
  }

  // The product of two numbers in halves of 32 bits.
  lemma ProductInHalves(aHigh: nat, aLow: nat, bHigh: nat, bLow: nat)
    ensures (aHigh * TWO_32 + aLow) * (bHigh * TWO_32 + bLow)
         == aHigh * bHigh * TWO_64 + (aHigh * bLow + aLow * bHigh) * TWO_32 + aLow * bLow
  {
  }

  // The 64-bit product of two halves does not wrap.
  function Times(x: Uint32, y: Uint32): Uint64 {
    (x as int * y as int) % TWO_64
  }

  lemma TimesIsExact(x: Uint32, y: Uint32)
    ensures Times(x, y) == x * y <= (TWO_32 - 1) * (TWO_32 - 1)
    ensures Times(x, y) == 0 <==> x == 0 || y == 0
  {
    var p: nat := x as int * y as int;
    ProductMonotone(x, y, TWO_32 - 1, TWO_32 - 1);
    if x > 0 && y > 0 {
      ProductMonotone(1, 1, x, y);
    }
    assert p < TWO_64;
  }

  lemma Halves(a: Uint64, b: Uint64) returns (product: nat)
    ensures product == a * b
    ensures product == Times(a / TWO_32, b / TWO_32) * TWO_64
                     + (Times(a / TWO_32, b % TWO_32) + Times(a % TWO_32, b / TWO_32)) * TWO_32
                     + Times(a % TWO_32, b % TWO_32)
  {
    hide Times;
    product := a as int * b as int;
    ProductInHalves(a / TWO_32, a % TWO_32, b / TWO_32, b % TWO_32);
    TimesIsExact(a / TWO_32, b / TWO_32);
    TimesIsExact(a / TWO_32, b % TWO_32);
    TimesIsExact(a % TWO_32, b / TWO_32);
    TimesIsExact(a % TWO_32, b % TWO_32);
  }

  // What the last steps make of a product r * 2^32 + low: the sum wraps exactly if it is smaller than what
  // was added.
  lemma LastSum(r: Uint64, low: Uint64, product: nat)
    requires product == r * TWO_32 + low
    ensures (r / TWO_32) % TWO_32 != 0 <==> r >= TWO_32
    ensures r >= TWO_32 ==> product >= TWO_64
    ensures r < TWO_32 ==>
              var sum := ((r * TWO_32) % TWO_64 + low) % TWO_64;
              if product < TWO_64 then sum == product else sum < low
  {
  }

  // LargeIntRegMultiply for two unsigned numbers: RegMultiply, and RegMultiplyThrow where None stands for the
  // exception.
  method RegMultiplyUint64(a: Uint64, b: Uint64) returns (r: Option<Uint64>)
    ensures r == if a * b < TWO_64 then Some(a * b) else None
  {
    hide Times;
    ghost var product := Halves(a, b);
    var aHigh, aLow := a / TWO_32, a % TWO_32;
    var bHigh, bLow := b / TWO_32, b % TWO_32;
    TimesIsExact(aHigh, bHigh);
    TimesIsExact(aHigh, bLow);
    TimesIsExact(aLow, bHigh);
    TimesIsExact(aLow, bLow);
    var ret: Uint64 := 0;
    if aHigh == 0 {
      if bHigh != 0 {
        ret := Times(aLow, bHigh);
      }
    } else if bHigh == 0 {
      if aHigh != 0 {
        ret := Times(aHigh, bLow);
      }
    } else {
      assert product >= TWO_64;
      return None;
    }
    assert Times(aHigh, bHigh) == 0 && ret == Times(aHigh, bLow) + Times(aLow, bHigh);
    assert product == ret * TWO_32 + Times(aLow, bLow);
    LastSum(ret, Times(aLow, bLow), product);
    if ret != 0 {
      if (ret / TWO_32) % TWO_32 != 0 {
        return None;
      }
      ret := (ret * TWO_32) % TWO_64;
      var tmp := Times(aLow, bLow);
      ret := (ret + tmp) % TWO_64;
      if ret < tmp {
        return None;
      }
      return Some(ret);
    }
    ret := Times(aLow, bLow);
    return Some(ret);
  }

  // The product of the magnitudes, without its sign.
  lemma SignedProduct(a: int, b: int, x: nat, y: nat) returns (product: int)
    requires x == (if a < 0 then -a else a) && y == if b < 0 then -b else b
    ensures product == a * b && x * y == if (a < 0) != (b < 0) then -product else product
  {
    product := a * b;
  }

  // A product with its sign fits exactly if its magnitude passes the test for that sign.
  lemma SignedResult(product: int, magnitude: nat, negative: bool)
    requires magnitude == if negative then -product else product
    ensures Fits(product) <==> magnitude <= if negative then TWO_63 else TWO_63 - 1
    ensures Fits(product) ==> product == ToSigned(if negative then Negated(magnitude) else magnitude)
  {
  }

  // LargeIntRegMultiply for two signed numbers.
  method RegMultiplyInt64(a: Int64, b: Int64) returns (r: Option<Int64>)
    ensures r == if -0x8000_0000_0000_0000 <= a * b <= 0x7fff_ffff_ffff_ffff then Some(a * b) else None
  {
    var aNegative, bNegative := false, false;
    var a1: Int64, b1: Int64 := a, b;
    if a1 < 0 {
      aNegative := true;
      a1 := ToSigned(Negated(ToUnsigned(a1)));
    }
    if b1 < 0 {
      bNegative := true;
      b1 := ToSigned(Negated(ToUnsigned(b1)));
    }
    ghost var exact := SignedProduct(a, b, ToUnsigned(a1), ToUnsigned(b1));
    var product := RegMultiplyUint64(ToUnsigned(a1), ToUnsigned(b1));
    SignedResult(exact, if aNegative != bNegative then -exact else exact, aNegative != bNegative);
    if product.Some? {
      var tmp := product.value;
      if aNegative != bNegative {
        if tmp <= ToUnsigned(-TWO_63) {
          return Some(ToSigned(Negated(tmp)));
        }
      } else {
        if tmp <= ToUnsigned(TWO_63 - 1) {
          return Some(ToSigned(tmp));
        }
      }
    }
    return None;
  }

  // AdditionHelper for two signed numbers.
  method AdditionInt64(lhs: Int64, rhs: Int64) returns (r: Option<Int64>)
    ensures r == if -0x8000_0000_0000_0000 <= lhs + rhs <= 0x7fff_ffff_ffff_ffff then Some(lhs + rhs) else None
  {
    var tmp := ToSigned((ToUnsigned(lhs) + ToUnsigned(rhs)) % TWO_64);
    if lhs >= 0 {
      if rhs >= 0 && tmp < lhs {
        return None;
      }
    } else {
      if rhs < 0 && tmp > lhs {
        return None;
      }
    }
    return Some(tmp);
  }

  // SubtractionHelper for two signed numbers.
  method SubtractInt64(lhs: Int64, rhs: Int64) returns (r: Option<Int64>)
    ensures r == if -0x8000_0000_0000_0000 <= lhs - rhs <= 0x7fff_ffff_ffff_ffff then Some(lhs - rhs) else None
  {
    var tmp := ToSigned((ToUnsigned(lhs) - ToUnsigned(rhs)) % TWO_64);
    if (lhs >= 0 && rhs < 0 && tmp < lhs) || (rhs >= 0 && tmp > lhs) {
      return None;
    }
    return Some(tmp);
  }

  predicate IsDigit(c: char) {
    '0' <= c <= '9'
  }

  // The digits in front of anything else.
  ghost function DigitsInFront(s: string): (d: seq<nat>)
    ensures |d| <= |s| && forall i | 0 <= i < |d| :: IsDigit(s[i]) && d[i] == s[i] as int - '0' as int
    ensures |d| < |s| ==> !IsDigit(s[|d|])
  {
    if s == [] || !IsDigit(s[0]) then [] else [s[0] as int - '0' as int] + DigitsInFront(s[1..])
  }

  ghost function WithoutSign(input: string): string {
    if input != "" && (input[0] == '-' || input[0] == '+') then input[1..] else input
  }

  ghost function Signed(negative: bool, n: nat): int {
    if negative then 0 - n else n
  }

  ghost predicate IsNegative(input: string) {
    input != "" && input[0] == '-'
  }

  // The number that a text stands for: its digits up to the first other character, with its sign.
  ghost function Number(input: string): int {
    Signed(IsNegative(input), Num(10, DigitsInFront(WithoutSign(input))))
  }

  lemma {:induction false} NumGrows(d: seq<nat>, i: nat)
    requires i <= |d|
    ensures Num(10, d[..i]) <= Num(10, d)
  {
    if i < |d| {
      var n := |d| - 1;
      NumGrows(d[..n], i);
      assert d[..n][..i] == d[..i];
    } else {
      assert d[..i] == d;
    }
  }

  // One more digit. If a step on the way does not fit, the whole number does not.
  lemma NumNext(negative: bool, d: seq<nat>, i: nat, s: int)
    requires i < |d| && s == Signed(negative, Num(10, d[..i]))
    ensures Signed(negative, Num(10, d[..i + 1])) == s * 10 + Signed(negative, d[i])
    ensures !Fits(s * 10) || !Fits(Signed(negative, Num(10, d[..i + 1]))) ==> !Fits(Signed(negative, Num(10, d)))
  {
    NumGrows(d, i + 1);
    assert d[..i + 1][..i] == d[..i];
    assert Num(10, d[..i + 1]) == Num(10, d[..i]) * 10 + d[i];
  }

  lemma SumOfNone(input: string, d: seq<nat>)
    ensures Num(10, d[..0]) == 0
    ensures Number(input) == Signed(IsNegative(input), Num(10, DigitsInFront(WithoutSign(input))))
  {
  }

  // SafeTtoI over signed 64-bit numbers; None stands for the exception. The text ends at its null character.
  method SafeTtoI(input: string) returns (r: Option<Int64>)
    ensures r == if input != "" && -0x8000_0000_0000_0000 <= Number(input) <= 0x7fff_ffff_ffff_ffff
                 then Some(Number(input)) else None
  {
    hide DigitsInFront, Num, Number;
    var s: Int64 := 0;
    if input == "" {
      return None;
    }
    var tmp, negative := 0, false;
    if input[0] == '-' {
      tmp, negative := 1, true;
    } else if input[0] == '+' {
      tmp := 1;
    }
    ghost var sign := tmp;
    ghost var d := DigitsInFront(WithoutSign(input));
    assert input[sign..] == WithoutSign(input) && negative == IsNegative(input);
    SumOfNone(input, d);
    hide WithoutSign, IsNegative;
    while tmp < |input|
      invariant sign <= tmp <= |input| && tmp - sign <= |d|
      invariant s == Signed(negative, Num(10, d[..tmp - sign]))
    {
      if input[tmp] < '0' || input[tmp] > '9' {
        break;
      }
      NumNext(negative, d, tmp - sign, s);
      if s != 0 {
        r := RegMultiplyInt64(s, 10);
        if r == None {
          return;
        }
        s := r.value;
      }
      var digit := input[tmp] as int - '0' as int;
      if !negative {
        r := AdditionInt64(s, digit);
      } else {
        r := SubtractInt64(s, digit);
      }
      if r == None {
        return;
      }
      s := r.value;
      tmp := tmp + 1;
    }
    assert d[..tmp - sign] == d;
    return Some(s);
  }

  ghost function DigitText(d: seq<nat>): string
    requires AreDigits(10, d)
  {
    seq(|d|, i requires 0 <= i < |d| => (d[i] + '0' as int) as char)
  }

  lemma {:induction false} DigitsOfDigitText(d: seq<nat>)
    requires AreDigits(10, d)
    ensures DigitsInFront(DigitText(d)) == d
  {
  }

  // The decimal text of a number.
  ghost function TextOf(n: int): string {
    var x := if n < 0 then 0 - n else n;
    MinimalIsCanonical(10, x);
    if n == 0 then "0" else (if n < 0 then "-" else "") + DigitText(Minimal(10, x))
  }

  lemma TextStartsWith(d: seq<nat>)
    requires AreDigits(10, d) && d != []
    ensures DigitText(d) != "" && IsDigit(DigitText(d)[0])
  {
  }

  lemma DigitTextIsParsed(d: seq<nat>, negative: bool)
    requires AreDigits(10, d) && d != []
    ensures var text := (if negative then "-" else "") + DigitText(d);
            text != "" && Number(text) == Signed(negative, Num(10, d))
  {
    hide Num, DigitsInFront;
    var text := (if negative then "-" else "") + DigitText(d);
    DigitsOfDigitText(d);
    TextStartsWith(d);
    hide DigitText;
    assert WithoutSign(text) == DigitText(d);
  }

  lemma {:induction false} DigitsBeforeTail(d: seq<nat>, tail: string)
    requires AreDigits(10, d) && (tail != "" ==> tail[0] < '0' || tail[0] > '9')
    ensures DigitsInFront(DigitText(d) + tail) == d
    decreases |d|
  {
    var s := DigitText(d) + tail;
    if d != [] {
      assert IsDigit(s[0]) && s[0] as int - '0' as int == d[0];
      assert s[1..] == DigitText(d[1..]) + tail;
      DigitsBeforeTail(d[1..], tail);
    } else {
      assert s == tail;
    }
  }

  lemma SignInFront(text: string)
    requires text != "" && IsDigit(text[0])
    ensures WithoutSign(text) == WithoutSign("+" + text) == WithoutSign("-" + text) == text
    ensures !IsNegative(text) && !IsNegative("+" + text) && IsNegative("-" + text)
  {
  }

  lemma DigitsOfTextOf(n: nat) returns (d: seq<nat>)
    ensures d != [] && AreDigits(10, d) && TextOf(n) == DigitText(d) && Num(10, d) == n
  {
    MinimalIsCanonical(10, n);
    d := if n == 0 then [0] else Minimal(10, n);
    hide Minimal;
  }

  // A plus sign in front changes nothing, and neither does what follows the digits.
  lemma SignAndTail(n: nat, tail: string)
    requires tail != "" ==> tail[0] < '0' || tail[0] > '9'
    ensures Number(TextOf(n) + tail) == Number("+" + (TextOf(n) + tail)) == n
    ensures Number("-" + (TextOf(n) + tail)) == 0 - n
  {
    hide Num, DigitsInFront, DigitText, TextOf, WithoutSign, IsNegative;
    var d := DigitsOfTextOf(n);
    DigitsBeforeTail(d, tail);
    TextStartsWith(d);
    SignInFront(TextOf(n) + tail);
  }

  lemma ZeroIsParsed()
    ensures Number("0") == 0
  {
  }

  // Every number is what its text stands for, so that every number that fits is parsed.
  lemma TextIsParsed(n: int)
    ensures TextOf(n) != "" && Number(TextOf(n)) == n
  {
    if n == 0 {
      ZeroIsParsed();
    } else {
      var x := if n < 0 then 0 - n else n;
      MinimalIsCanonical(10, x);
      hide Minimal, Num, DigitText, Number;
      DigitTextIsParsed(Minimal(10, x), n < 0);
    }
  }
}
