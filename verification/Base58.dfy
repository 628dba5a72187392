// Base 58 text (src/commons/base58.cpp): bytes converted to digits of base 58, with and without a
// four-byte checksum.

module Base58 {
  import opened Arithmetic
  import opened Bytes
  import opened Positional

  const ALPHABET: string :=
    "123456789" + "ABCDEFGH" + "JKLMN" + "PQRSTUVWXYZ" + "abcdefghijk" + "mnopqrstuvwxyz"

  // The characters that isspace accepts.
  predicate IsSpace(c: char) {
    c == ' ' || 9 <= c as int <= 13
  }

  // strchr: the position of the first c in s, or the length of s.
  function IndexOf(s: string, c: char): (k: nat)
    ensures k <= |s| && (k < |s| ==> s[k] == c) && forall i | 0 <= i < k :: s[i] != c
  {
    if s == [] || s[0] == c then 0 else 1 + IndexOf(s[1..], c)
  }

  ghost predicate IsLetter(c: char) {
    c in ALPHABET
  }

  ghost predicate InAlphabet(s: string) {
    forall i | 0 <= i < |s| :: IsLetter(s[i])
  }

  // The text of digits.
  ghost function Text(d: seq<nat>): string
    requires AreDigits(58, d)
  {
    seq(|d|, i requires 0 <= i < |d| => ALPHABET[d[i]])
  }

  // The digits of a text.
  ghost function Digits(s: string): seq<nat> {
    seq(|s|, i requires 0 <= i < |s| => IndexOf(ALPHABET, s[i]))
  }

  function SpacesInFront(s: string): (n: nat)
    ensures n <= |s| && (forall i | 0 <= i < n :: IsSpace(s[i])) && (n < |s| ==> !IsSpace(s[n]))
  {
    if s == [] || !IsSpace(s[0]) then 0 else 1 + SpacesInFront(s[1..])
  }

  function WithoutSpacesBehind(s: string): (n: nat)
    ensures n <= |s| && (forall i | n <= i < |s| :: IsSpace(s[i])) && (n > 0 ==> !IsSpace(s[n - 1]))
  {
    if s == [] || !IsSpace(s[|s| - 1]) then |s| else WithoutSpacesBehind(s[..|s| - 1])
  }

  // The text without the white space around it.
  ghost function Trim(s: string): string {
    if SpacesInFront(s) < WithoutSpacesBehind(s) then s[SpacesInFront(s)..WithoutSpacesBehind(s)] else []
  }

  lemma TrimIs(s: string, i: nat, j: nat)
    requires i <= j <= |s| && (forall k | 0 <= k < i || j <= k < |s| :: IsSpace(s[k]))
    requires forall k | i <= k < j :: !IsSpace(s[k])
    ensures Trim(s) == s[i..j]
  {
    var front, end := SpacesInFront(s), WithoutSpacesBehind(s);
    if i < j {
      assert !IsSpace(s[i]) && !IsSpace(s[j - 1]);
    }
  }

  // A letter that is not white space is not trimmed.
  lemma Untrimmed(s: string, i: nat, k: nat, j: nat)
    requires i <= k <= j < |s| && !IsSpace(s[i]) && !IsSpace(s[j])
    ensures s[k] in Trim(s)
  {
  }

  lemma LettersFrom1(i: nat)
    requires i < 9
    ensures "123456789"[i] as int == 49 + i
  {
  }

  lemma LettersFromA(i: nat)
    requires i < 8
    ensures "ABCDEFGH"[i] as int == 65 + i
  {
  }

  lemma LettersFromJ(i: nat)
    requires i < 5
    ensures "JKLMN"[i] as int == 74 + i
  {
  }

  lemma LettersFromP(i: nat)
    requires i < 11
    ensures "PQRSTUVWXYZ"[i] as int == 80 + i
  {
  }

  lemma LettersFromSmallA(i: nat)
    requires i < 11
    ensures "abcdefghijk"[i] as int == 97 + i
  {
  }

  lemma LettersFromM(i: nat)
    requires i < 14
    ensures "mnopqrstuvwxyz"[i] as int == 109 + i
  {
  }

  // The alphabet in ascending order: digits, capital letters without I and O, small letters without l.
  lemma AlphabetCodes(i: nat)
    requires i < 58
    ensures ALPHABET[i] as int
         == i + if i < 9 then 49 else if i < 17 then 56 else if i < 22 then 57 else if i < 33 then 58
                else if i < 44 then 64 else 65
  {
    if i < 9 {
      LettersFrom1(i);
    } else if i < 17 {
      LettersFromA(i - 9);
    } else if i < 22 {
      LettersFromJ(i - 17);
    } else if i < 33 {
      LettersFromP(i - 22);
    } else if i < 44 {
      LettersFromSmallA(i - 33);
    } else {
      LettersFromM(i - 44);
    }
  }

  lemma IndexOfDigit(i: nat)
    requires i < 58
    ensures IndexOf(ALPHABET, ALPHABET[i]) == i && !IsSpace(ALPHABET[i])
  {
    AlphabetCodes(i);
    AlphabetCodes(IndexOf(ALPHABET, ALPHABET[i]));
  }

  lemma IsLetterIfFound(c: char)
    ensures |ALPHABET| == 58 && (IsLetter(c) <==> IndexOf(ALPHABET, c) < 58)
  {
  }

  lemma LettersAreDigits(s: string, i: nat, j: nat)
    requires i <= j <= |s| && forall k | i <= k < j :: IsLetter(s[k])
    ensures |Digits(s[i..])| == |s| - i && AreDigits(58, Digits(s[i..])[0..j - i])
    ensures i < j ==> Digits(s[i..])[j - 1 - i] == IndexOf(ALPHABET, s[j - 1]) < 58
  {
    hide ALPHABET, IsLetter, IndexOf;
    if i < j {
      IsLetterIfFound(s[j - 1]);
    }
    forall k | 0 <= k < j - i
      ensures Digits(s[i..])[k] < 58
    {
      IsLetterIfFound(s[i + k]);
    }
  }

  lemma IsLetterOne()
    ensures IsLetter('1') && !IsSpace('1') && IndexOf(ALPHABET, '1') == 0
  {
  }

  lemma DigitsOfText(d: seq<nat>)
    requires AreDigits(58, d)
    ensures Digits(Text(d)) == d && InAlphabet(Text(d)) && Trim(Text(d)) == Text(d)
  {
    forall i | 0 <= i < |d|
      ensures IndexOf(ALPHABET, ALPHABET[d[i]]) == d[i] && !IsSpace(Text(d)[i])
    {
      IndexOfDigit(d[i]);
    }
    TrimIs(Text(d), 0, |d|);
  }

  lemma TextOfDigits(s: string)
    requires InAlphabet(s)
    ensures AreDigits(58, Digits(s)) && Text(Digits(s)) == s
  {
  }

  // What EncodeBase58 writes for the bytes, and what DecodeBase58 reads from a text.
  ghost function Encoded(bytes: seq<Byte>): string {
    ConvertBack(256, 58, bytes);
    Text(Convert(256, 58, bytes))
  }

  ghost predicate Accepted(s: string) {
    InAlphabet(Trim(s))
  }

  ghost function Decoded(s: string): seq<nat> {
    Convert(58, 256, Digits(Trim(s)))
  }

  // Decoding what was encoded gives the bytes.
  lemma DecodedOfEncoded(bytes: seq<Byte>)
    ensures Trim(Encoded(bytes)) == Encoded(bytes)
    ensures Accepted(Encoded(bytes)) && Decoded(Encoded(bytes)) == bytes
  {
    ConvertBack(256, 58, bytes);
    DigitsOfText(Convert(256, 58, bytes));
  }

  // Encoding what was decoded gives the text, without the white space around it.
  lemma EncodedOfDecoded(s: string)
    requires Accepted(s)
    ensures AreDigits(256, Decoded(s)) && Encoded(Decoded(s)) == Trim(s)
  {
    TextOfDigits(Trim(s));
    ConvertBack(58, 256, Digits(Trim(s)));
  }

  // The text stands for the same number, and has as many '1's in front as there are zero bytes.
  lemma EncodedMeans(bytes: seq<Byte>)
    ensures var d := Digits(Encoded(bytes));
            && AreDigits(58, d) && Encoded(bytes) == Text(d)
            && Num(58, d) == Num(256, bytes) && LeadingZeros(d) == LeadingZeros(bytes)
  {
    ConvertBack(256, 58, bytes);
    DigitsOfText(Convert(256, 58, bytes));
  }

  lemma ExamplesConverted()
    ensures Convert(256, 58, []) == [] && Convert(256, 58, [0]) == [0] && Convert(256, 58, [97]) == [1, 39]
  {
    assert Num(256, [97]) == 97 && 97 / 58 == 1 && 97 % 58 == 39;
    assert Minimal(58, 97) == Minimal(58, 1) + [39] && Minimal(58, 1) == [1];
  }

  // The examples "", "1" and "2g".
  lemma EncodedExamples()
    ensures Encoded([]) == "" && Encoded([0]) == "1" && Encoded([97]) == "2g"
  {
    hide Convert, ALPHABET;
    IsLetterIfFound('1');
    ExamplesConverted();
    AlphabetCodes(0);
    AlphabetCodes(1);
    AlphabetCodes(39);
    assert Encoded([97]) == [ALPHABET[1], ALPHABET[39]];
  }

  lemma NumOfNone(b: nat)
    ensures Num(b, []) == 0 && Power(b, 0) == 1
  {
  }

  lemma QuotientBelow(n: nat, from: nat, to: nat)
    requires to > 1 && n < from * to
    ensures 0 <= n % to < to && 0 <= n / to < from && (n / to) * to + n % to == n
  {
  }

  lemma CarryFits(carry: nat, from: nat, to: nat, digit: nat)
    requires carry < from <= 256 && 1 < to <= 256 && digit < to
    ensures 0 <= carry + from * digit < 0x8000_0000
    ensures var n := carry + from * digit;
            0 <= n % to < to && 0 <= n / to < from && (n / to) * to + n % to == n
  {
    var p := from * digit;
    ProductMonotone(from, digit, 256, 256);
    assert p + from <= from * to by {
      ProductMonotone(from, digit + 1, from, to);
      assert from * (digit + 1) == p + from;
    }
    QuotientBelow(carry + p, from, to);
  }

  lemma InFront(b: nat, digit: nat, d: seq<nat>)
    ensures Num(b, [digit] + d) == digit * Power(b, |d|) + Num(b, d)
    ensures Power(b, |d| + 1) == b * Power(b, |d|)
  {
    var all := [digit] + d;
    NumFront(b, all);
    assert all[1..] == d;
  }

  lemma AccumulateArith(q: nat, r: nat, carry: nat, from: nat, d: nat, to: nat, p: nat, v: nat, x: nat, digit: nat)
    requires q * to + r == carry + from * d && carry * p + v == from * x + digit
    ensures q * (to * p) + (r * p + v) == from * (d * p + x) + digit
  {
  }

  // One digit of the carry loop.
  lemma AccumulateStep(from: nat, to: nat, d: seq<nat>, after: seq<nat>, carry: nat, digit: nat, q: nat, r: nat)
    requires d != [] && |after| == |d| - 1 && q * to + r == carry + from * d[0]
    requires carry * Power(to, |after|) + Num(to, after) == from * Num(to, d[1..]) + digit
    ensures q * Power(to, |d|) + Num(to, [r] + after) == from * Num(to, d) + digit
  {
    hide Num, Power;
    InFront(to, d[0], d[1..]);
    InFront(to, r, after);
    assert d == [d[0]] + d[1..];
    hide *;
    AccumulateArith(q, r, carry, from, d[0], to, Power(to, |after|), Num(to, after), Num(to, d[1..]), digit);
  }

  // The carry loops of both directions, in place and from the last digit to the first: the number in the
  // buffer is multiplied by one base and increased by a digit.
  method Accumulate(buffer: array<Byte>, from: nat, to: nat, digit: nat) returns (carry: nat)
    requires 1 < from <= 256 && 1 < to <= 256 && digit < from
    requires AreDigits(to, buffer[..])
    modifies buffer
    ensures AreDigits(to, buffer[..]) && carry < from
    ensures carry * Power(to, buffer.Length) + Num(to, buffer[..]) == from * old(Num(to, buffer[..])) + digit
  {
    hide Num, Power;
    ghost var d := buffer[..];
    carry := digit;
    var i := buffer.Length;
    NumOfNone(to);
    assert d[i..] == [] && buffer[i..] == [];
    while i > 0
      invariant i <= buffer.Length && buffer[..i] == d[..i] && AreDigits(to, buffer[..]) && carry < from
      invariant carry * Power(to, buffer.Length - i) + Num(to, buffer[i..]) == from * Num(to, d[i..]) + digit
    {
      i := i - 1;
      ghost var after := buffer[i + 1..];
      var n := carry + from * buffer[i];
      CarryFits(carry, from, to, buffer[i]);
      AccumulateStep(from, to, d[i..], after, carry, digit, n / to, n % to);
      carry := n / to;
      buffer[i] := n % to;
      assert buffer[i..] == [n % to] + after;
    }
    assert buffer[..] == buffer[0..] && d[0..] == d;
  }

  // The buffers are long enough: no carry is left over.
  lemma NoCarryLeft(carry: nat, p: nat, rest: nat, x: nat)
    requires carry * p + rest == x && x < p
    ensures carry == 0
  {
  }

  lemma NextDigit(from: nat, d: seq<nat>, i: nat, j: nat)
    requires i <= j < |d|
    ensures Num(from, d[i..j + 1]) == from * Num(from, d[i..j]) + d[j]
  {
    assert d[i..j + 1][..j - i] == d[i..j];
  }

  lemma PartBound(from: nat, d: seq<nat>, m: nat, bound: nat)
    requires from > 0 && AreDigits(from, d) && |d| <= m && Power(from, m) <= bound
    ensures Num(from, d) < bound
  {
    NumBound(from, d);
    PowerMonotone(from, |d|, m);
  }

  // The digits in the buffer without its leading zeros are those of the conversion.
  lemma ConversionInBuffer(from: nat, to: nat, d: seq<nat>, zeroes: nat, buffer: seq<nat>, skipped: nat)
    requires from > 1 && to > 1 && AreDigits(to, buffer) && zeroes <= |d| && skipped <= |buffer|
    requires (forall i | 0 <= i < zeroes :: d[i] == 0) && (zeroes < |d| ==> d[zeroes] != 0)
    requires (forall i | 0 <= i < skipped :: buffer[i] == 0) && (skipped < |buffer| ==> buffer[skipped] != 0)
    requires Num(to, buffer) == Num(from, d[zeroes..])
    ensures Convert(from, to, d) == Zeros(zeroes) + buffer[skipped..]
  {
    LeadingZerosAre(d, zeroes);
    assert d == Zeros(zeroes) + d[zeroes..] && buffer == Zeros(skipped) + buffer[skipped..];
    ZerosInFront(from, zeroes, d[zeroes..]);
    ZerosInFront(to, skipped, buffer[skipped..]);
    CanonicalIsMinimal(to, buffer[skipped..]);
  }

  method SkipZeros(buffer: array<Byte>) returns (i: nat)
    ensures i <= buffer.Length && (forall k | 0 <= k < i :: buffer[k] == 0)
    ensures i < buffer.Length ==> buffer[i] != 0
  {
    i := 0;
    while i < buffer.Length && buffer[i] == 0
      invariant i <= buffer.Length && forall k | 0 <= k < i :: buffer[k] == 0
    {
      i := i + 1;
    }
  }

  lemma NumOfZeros(b: nat, d: seq<nat>)
    requires forall i | 0 <= i < |d| :: d[i] == 0
    ensures Num(b, d) == 0 && (b > 0 ==> AreDigits(b, d))
  {
  }

  method EncodeBase58(bytes: seq<Byte>) returns (str: string)
    ensures str == Encoded(bytes)
  {
    hide Num, Power, Convert, ALPHABET, LeadingZeros, IndexOf, IsLetter;
    IsLetterIfFound('1');
    IsLetterOne();
    var zeroes := 0;
    while zeroes < |bytes| && bytes[zeroes] == 0
      invariant zeroes <= |bytes| && forall i | 0 <= i < zeroes :: bytes[i] == 0
    {
      zeroes := zeroes + 1;
    }
    var m := |bytes| - zeroes;
    var b58 := new Byte[m * 138 / 100 + 1](_ => 0);
    BytesFit(m);
    NumOfZeros(58, b58[..]);
    NumOfNone(256);
    assert bytes[zeroes..zeroes] == [];
    for pos := zeroes to |bytes|
      invariant AreDigits(58, b58[..]) && Num(58, b58[..]) == Num(256, bytes[zeroes..pos])
    {
      NextDigit(256, bytes, zeroes, pos);
      PartBound(256, bytes[zeroes..pos + 1], m, Power(58, b58.Length));
      var carry := Accumulate(b58, 256, 58, bytes[pos]);
      NoCarryLeft(carry, Power(58, b58.Length), Num(58, b58[..]), Num(256, bytes[zeroes..pos + 1]));
      assert carry == 0;
    }
    assert bytes[zeroes..|bytes|] == bytes[zeroes..];
    var i := SkipZeros(b58);
    ConversionInBuffer(256, 58, bytes, zeroes, b58[..], i);
    str := seq(zeroes, _ => '1');
    ghost var skipped, d := i, Convert(256, 58, bytes);
    assert AreDigits(58, d) && |d| == zeroes + b58.Length - i;
    assert forall k | zeroes <= k < |d| :: d[k] == b58[skipped + k - zeroes];
    while i < b58.Length
      invariant skipped <= i <= b58.Length && |str| == zeroes + i - skipped
      invariant forall k | 0 <= k < |str| :: str[k] == ALPHABET[d[k]]
    {
      str := str + [ALPHABET[b58[i]]];
      i := i + 1;
    }
  }

  lemma DigitsOfBody(s: string, start: nat, zeroes: nat, end: nat)
    requires start + zeroes <= end <= |s|
    requires forall i | start <= i < start + zeroes :: s[i] == '1'
    requires zeroes < end - start ==> s[start + zeroes] != '1'
    ensures var d := Digits(s[start..end]);
            |d| == end - start && d[zeroes..] == Digits(s[start + zeroes..])[0..end - start - zeroes]
            && (forall i | 0 <= i < zeroes :: d[i] == 0) && (zeroes < |d| ==> d[zeroes] != 0)
  {
  }

  lemma LettersInside(s: string, i: nat, j: nat)
    requires i <= j <= |s| && (forall k | 0 <= k < i || j <= k < |s| :: IsSpace(s[k]))
    requires forall k | i <= k < j :: !IsSpace(s[k]) && IsLetter(s[k])
    ensures Trim(s) == s[i..j] && Accepted(s) && AreDigits(58, Digits(s[i..j]))
  {
    TrimIs(s, i, j);
    TextOfDigits(s[i..j]);
  }

  lemma NotALetter(s: string, i: nat)
    requires i < |s| && !IsSpace(s[i]) && !IsLetter(s[i])
    ensures !Accepted(s)
  {
    hide Trim, IsSpace, IsLetter;
    Untrimmed(s, i, i, i);
  }

  // White space inside the trimmed text.
  lemma SpaceInside(s: string, i: nat, k: nat, j: nat)
    requires i <= k < j < |s| && IsSpace(s[k]) && !IsSpace(s[i]) && !IsSpace(s[j])
    ensures !Accepted(s)
  {
    Untrimmed(s, i, k, j);
    if IsLetter(s[k]) {
      var n := IndexOf(ALPHABET, s[k]);
      IndexOfDigit(n);
    }
  }

  lemma EncodedHasNoSpace(bytes: seq<Byte>, i: nat)
    requires i < |Encoded(bytes)|
    ensures IsLetter(Encoded(bytes)[i]) && !IsSpace(Encoded(bytes)[i])
  {
    ConvertBack(256, 58, bytes);
    IndexOfDigit(Convert(256, 58, bytes)[i]);
  }

  // A text that is the encoding of some bytes is accepted and decoded to these bytes.
  lemma OnlyEncoding(s: string, bytes: seq<Byte>)
    requires Trim(s) == Encoded(bytes)
    ensures Accepted(s) && Decoded(s) == bytes
  {
    ConvertBack(256, 58, bytes);
    DigitsOfText(Convert(256, 58, bytes));
  }

  // Tab, line feed, vertical tab, form feed, carriage return and blank are ignored around an encoding, and refused
  // inside one.
  lemma SpaceAround(c: char, bytes: seq<Byte>)
    requires c as int in {9, 10, 11, 12, 13, 32}
    ensures Accepted([c] + Encoded(bytes) + [c]) && Decoded([c] + Encoded(bytes) + [c]) == bytes
    ensures !Accepted("1" + [c] + "1")
  {
    var e := Encoded(bytes);
    var s := [c] + e + [c];
    assert IsSpace(c);
    SpaceInside("1" + [c] + "1", 0, 1, 2);
    hide Encoded, IsLetter, IsSpace, Decoded;
    forall k | 1 <= k < |e| + 1
      ensures !IsSpace(s[k]) && IsLetter(s[k])
    {
      EncodedHasNoSpace(bytes, k - 1);
    }
    LettersInside(s, 1, |e| + 1);
    assert s[1..|e| + 1] == e;
    OnlyEncoding(s, bytes);
  }

  // Any other character that is no letter is refused in front of an encoding.
  lemma OthersAreRefused(c: char, bytes: seq<Byte>)
    requires c as int !in {9, 10, 11, 12, 13, 32} && c !in ALPHABET
    ensures !Accepted([c] + Encoded(bytes))
  {
    NotALetter([c] + Encoded(bytes), 0);
  }

  // The buffer without its leading zeros, behind as many zeros as there are '1's, is what the text decodes to.
  lemma DecodedInBuffer(s: string, start: nat, zeroes: nat, end: nat, buffer: seq<nat>, skipped: nat)
    requires start + zeroes <= end <= |s| && (forall k | 0 <= k < start || end <= k < |s| :: IsSpace(s[k]))
    requires forall k | start <= k < end :: !IsSpace(s[k]) && IsLetter(s[k])
    requires forall k | start <= k < start + zeroes :: s[k] == '1'
    requires zeroes < end - start ==> s[start + zeroes] != '1'
    requires AreDigits(256, buffer) && Num(256, buffer) == Num(58, Digits(s[start + zeroes..])[0..end - start - zeroes])
    requires skipped <= |buffer| && (forall k | 0 <= k < skipped :: buffer[k] == 0)
    requires skipped < |buffer| ==> buffer[skipped] != 0
    ensures Accepted(s) && Decoded(s) == seq(zeroes, _ => 0) + buffer[skipped..]
  {
    hide Num, Power, Convert, SpacesInFront, WithoutSpacesBehind, IndexOf, IsSpace, IsLetter, ALPHABET, AreDigits;
    hide Digits;
    LettersInside(s, start, end);
    DigitsOfBody(s, start, zeroes, end);
    ConversionInBuffer(58, 256, Digits(s[start..end]), zeroes, buffer, skipped);
  }

  // DecodeBase58 of the characters before the terminating null character. On failure the caller's vector
  // stays as it was given.
  method DecodeBase58(psz: string, given: seq<Byte>) returns (ok: bool, vch: seq<Byte>)
    ensures ok <==> Accepted(psz)
    ensures if ok then vch == Decoded(psz) else vch == given
  {
    hide Num, Power, Convert, SpacesInFront, WithoutSpacesBehind, IndexOf, Trim, IsSpace, IsLetter, ALPHABET, AreDigits;
    hide Digits, Accepted, InAlphabet;
    IsLetterOne();
    var start := 0;
    while start < |psz| && IsSpace(psz[start])
      invariant start <= |psz| && forall i | 0 <= i < start :: IsSpace(psz[i])
    {
      start := start + 1;
    }
    var zeroes := 0;
    while start + zeroes < |psz| && psz[start + zeroes] == '1'
      invariant start + zeroes <= |psz| && forall i | start <= i < start + zeroes :: psz[i] == '1'
    {
      zeroes := zeroes + 1;
    }
    var pos := start + zeroes;
    ghost var d := Digits(psz[pos..]);
    ghost var m := |psz| - pos;
    var b256 := new Byte[(|psz| - pos) * 733 / 1000 + 1](_ => 0);
    DigitsFit(m);
    NumOfZeros(256, b256[..]);
    NumOfNone(58);
    LettersAreDigits(psz, pos, pos);
    assert d[0..0] == [];
    while pos < |psz| && !IsSpace(psz[pos])
      invariant start + zeroes <= pos <= |psz|
      invariant forall i | start <= i < pos :: !IsSpace(psz[i]) && IsLetter(psz[i])
      invariant AreDigits(256, b256[..]) && Num(256, b256[..]) == Num(58, d[0..pos - start - zeroes])
    {
      var ch := IndexOf(ALPHABET, psz[pos]);
      IsLetterIfFound(psz[pos]);
      if ch == |ALPHABET| {
        NotALetter(psz, pos);
        return false, given;
      }
      ghost var k := pos - start - zeroes;
      LettersAreDigits(psz, start + zeroes, pos + 1);
      NextDigit(58, d, 0, k);
      PartBound(58, d[0..k + 1], m, Power(256, b256.Length));
      var carry := Accumulate(b256, 58, 256, ch);
      NoCarryLeft(carry, Power(256, b256.Length), Num(256, b256[..]), Num(58, d[0..k + 1]));
      assert carry == 0;
      pos := pos + 1;
    }
    ghost var end := pos;
    while pos < |psz| && IsSpace(psz[pos])
      invariant end <= pos <= |psz| && forall i | end <= i < pos :: IsSpace(psz[i])
    {
      pos := pos + 1;
    }
    if pos < |psz| {
      SpaceInside(psz, start, end, pos);
      return false, given;
    }
    var i := SkipZeros(b256);
    DecodedInBuffer(psz, start, zeroes, end, b256[..], i);
    vch := seq(zeroes, _ => 0) + b256[i..];
    ok := true;
  }

  type Digest = d: seq<Byte> | |d| == 32 witness seq(32, _ => 0)

  // The bytes with the first four bytes of their hash behind them.
  function WithChecksum(hash: seq<Byte> -> Digest, bytes: seq<Byte>): seq<Byte> {
    bytes + hash(bytes)[..4]
  }

  method EncodeBase58Check(hash: seq<Byte> -> Digest, bytes: seq<Byte>) returns (str: string)
    ensures str == Encoded(WithChecksum(hash, bytes)) && Accepted(str)
    ensures |Decoded(str)| == |bytes| + 4 && Decoded(str)[..|bytes|] == bytes
    ensures forall i | 0 <= i < 4 :: Decoded(str)[|bytes| + i] == hash(bytes)[i]
  {
    DecodedOfEncoded(WithChecksum(hash, bytes));
    str := EncodeBase58(WithChecksum(hash, bytes));
  }

  // A text is accepted exactly if it is the encoding of some bytes with their checksum, with white space
  // around it; these bytes are the result. Otherwise the caller's vector is cleared.
  method DecodeBase58Check(hash: seq<Byte> -> Digest, psz: string, given: seq<Byte>)
    returns (ok: bool, vch: seq<Byte>)
    ensures ok ==> Trim(psz) == Encoded(WithChecksum(hash, vch))
    ensures !ok ==> vch == [] && forall bytes :: Trim(psz) != Encoded(WithChecksum(hash, bytes))
    ensures ok ==>
              && Accepted(psz) && |Decoded(psz)| == |vch| + 4 && Decoded(psz)[..|vch|] == vch
              && forall i | 0 <= i < 4 :: Decoded(psz)[|vch| + i] == hash(vch)[i]
    ensures !ok && Accepted(psz) ==>
              forall bytes: seq<Byte> | |Decoded(psz)| == |bytes| + 4 && Decoded(psz)[..|bytes|] == bytes ::
                exists i :: 0 <= i < 4 && Decoded(psz)[|bytes| + i] != hash(bytes)[i]
  {
    hide Accepted, Decoded, Encoded, Trim;
    var decoded, all := DecodeBase58(psz, given);
    if decoded {
      EncodedOfDecoded(psz);
    }
    forall bytes | Trim(psz) == Encoded(bytes)
      ensures decoded && all == bytes
    {
      OnlyEncoding(psz, bytes);
    }
    if !decoded || |all| < 4 {
      return false, [];
    }
    var k := |all| - 4;
    if hash(all[..k])[..4] != all[k..] {
      forall bytes
        ensures all != WithChecksum(hash, bytes)
      {
        var w := WithChecksum(hash, bytes);
        assert w[..|bytes|] == bytes && w[|bytes|..] == hash(bytes)[..4];
      }
      return false, [];
    }
    assert all == all[..k] + all[k..];
    return true, all[..k];
  }

  // The checked text stands for one byte string only, so that decoding it gives these bytes.
  lemma CheckedTextIsUnique(hash: seq<Byte> -> Digest, bytes: seq<Byte>, other: seq<Byte>)
    ensures Trim(Encoded(WithChecksum(hash, bytes))) == Encoded(WithChecksum(hash, bytes))
    ensures Encoded(WithChecksum(hash, bytes)) == Encoded(WithChecksum(hash, other)) ==> bytes == other
  {
    var all, rest := WithChecksum(hash, bytes), WithChecksum(hash, other);
    DecodedOfEncoded(all);
    DecodedOfEncoded(rest);
    hide Encoded, Decoded, Trim, Accepted;
    assert |bytes| == |other| ==> all[..|bytes|] == bytes && rest[..|bytes|] == other;
  }
}
