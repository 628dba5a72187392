// Variable-length integers (src/commons/serialize.h, GetSizeOfVarInt, WriteVarInt and ReadVarInt): digits of
// base 128, the most significant one first, where every digit but the last is marked and stands for one more.

module VarInt {
  import opened Arithmetic
  import opened Bits
  import opened Bytes
  import opened Words
  import opened Wrappers

  // The number that the bytes stand for: a[len-1] & 0x7F plus the sum of 128^i * ((a[len-i-1] & 0x7F) + 1).
  ghost function Value(s: seq<Byte>): int {
    if s == [] then -1 else (Value(s[..|s| - 1]) + 1) * 128 + s[|s| - 1] % 128
  }

  // Every byte but the last is marked.
  ghost predicate IsCode(s: seq<Byte>) {
    s != [] && s[|s| - 1] < 128 && forall i | 0 <= i < |s| - 1 :: s[i] >= 128
  }

  // The bytes of n, the last of them marked on request.
  ghost function Digits(n: nat, marked: bool): (s: seq<Byte>)
    ensures s != []
  {
    var last := n % 128 + if marked then 128 else 0;
    if n < 128 then [last] else Digits(n / 128 - 1, true) + [last]
  }

  ghost function Encoded(n: nat): seq<Byte> {
    Digits(n, false)
  }

  lemma {:induction false} DigitsHold(n: nat, marked: bool)
    ensures Value(Digits(n, marked)) == n
    ensures forall i | 0 <= i < |Digits(n, marked)| ::
              Digits(n, marked)[i] >= 128 <==> marked || i < |Digits(n, marked)| - 1
  {
    var d := Digits(n, marked);
    if n >= 128 {
      var init, last := Digits(n / 128 - 1, true), d[|d| - 1];
      DigitsHold(n / 128 - 1, true);
      assert d == init + [last] && last % 128 == n % 128 && (last >= 128 <==> marked);
      hide Digits;
      assert d[..|d| - 1] == init;
    } else {
      assert d[..0] == [];
    }
  }

  // The bytes of n are a code for n.
  lemma EncodedStandsForIt(n: nat)
    ensures IsCode(Encoded(n)) && Value(Encoded(n)) == n
  {
    DigitsHold(n, false);
  }

  lemma {:induction false} ValueAtLeast(s: seq<Byte>)
    ensures Value(s) >= -1 && (s != [] ==> Value(s) >= 0)
  {
    if s != [] {
      ValueAtLeast(s[..|s| - 1]);
    }
  }

  lemma {:induction false} OnlyDigits(s: seq<Byte>, marked: bool)
    requires s != [] && forall i | 0 <= i < |s| :: s[i] >= 128 <==> marked || i < |s| - 1
    ensures Value(s) >= 0 && s == Digits(Value(s), marked)
  {
    ValueAtLeast(s);
    var init, last := s[..|s| - 1], s[|s| - 1];
    assert s == init + [last];
    if init != [] {
      OnlyDigits(init, true);
      var n := Value(init);
      assert ((n + 1) * 128 + last % 128) / 128 == n + 1 && ((n + 1) * 128 + last % 128) % 128 == last % 128;
    }
  }

  // Every code is what the writer makes of the number it stands for.
  lemma CodeIsEncoded(s: seq<Byte>)
    requires IsCode(s)
    ensures Value(s) >= 0 && s == Encoded(Value(s))
  {
    OnlyDigits(s, false);
  }

  // A code ends in its first unmarked byte.
  lemma CodesAreEqual(s: seq<Byte>, i: nat, j: nat)
    requires i <= |s| && j <= |s| && IsCode(s[..i]) && IsCode(s[..j])
    ensures i == j
  {
  }

  method GetSizeOfVarInt(n: nat) returns (size: nat)
    ensures size == |Encoded(n)|
  {
    var n := n;
    ghost var n0 := n;
    size := 0;
    while true
      invariant |Encoded(n0)| == size + |Digits(n, size > 0)|
      decreases n
    {
      size := size + 1;
      if n <= 0x7F {
        break;
      }
      n := n / 128 - 1;
    }
  }

  ghost function Reversed(s: seq<Byte>): (r: seq<Byte>)
    ensures |r| == |s|
  {
    if s == [] then [] else [s[|s| - 1]] + Reversed(s[..|s| - 1])
  }

  lemma NothingReversed()
    ensures Reversed([]) == []
  {
  }

  lemma ReversedStep(s: seq<Byte>, i: nat)
    requires i < |s|
    ensures Reversed(s[..i + 1]) == [s[i]] + Reversed(s[..i])
  {
    assert s[..i + 1][..i] == s[..i];
  }

  // A smaller number needs fewer bits than the buffer still has room for.
  lemma RoomLeft(n: nat, bits: nat, len: nat)
    requires 7 * len < bits && n < Pow2(bits - 7 * len)
    ensures len < (bits + 6) / 7
    ensures n >= 128 ==> 7 * (len + 1) < bits && n / 128 - 1 < Pow2(bits - 7 * (len + 1))
  {
    assert Pow2(7) == 128;
    if n >= 128 {
      var rest := bits - 7 * len;
      if rest <= 7 {
        Pow2Monotone(rest, 7);
      }
      assert rest > 7;
      Pow2Adds(7, rest - 7);
    }
  }

  // The number of an integer type with the given number of bits is appended to the stream; the temporary
  // buffer has room for all of its bytes.
  method WriteVarInt(bits: nat, n: nat, os: seq<Byte>) returns (os': seq<Byte>)
    requires bits > 0 && n < Pow2(bits)
    ensures os' == os + Encoded(n)
  {
    hide Pow2, Reversed;
    NothingReversed();
    var n: nat := n;
    ghost var n0 := n;
    var tmp := new Byte[(bits + 6) / 7];
    var len: nat := 0;
    while true
      invariant 7 * len < bits && n < Pow2(bits - 7 * len)
      invariant len <= tmp.Length && Encoded(n0) == Digits(n, len > 0) + Reversed(tmp[..len])
      decreases n
    {
      RoomLeft(n, bits, len);
      tmp[len] := n % 128 + if len > 0 then 128 else 0;
      ReversedStep(tmp[..], len);
      assert tmp[..][..len] == tmp[..len] && tmp[..][..len + 1] == tmp[..len + 1];
      if n <= 0x7F {
        break;
      }
      n := n / 128 - 1;
      len := len + 1;
    }
    hide Encoded, Digits;
    os' := os;
    while true
      invariant len < tmp.Length && os' + Reversed(tmp[..len + 1]) == os + Encoded(n0)
      decreases len
    {
      ReversedStep(tmp[..], len);
      assert tmp[..][..len] == tmp[..len] && tmp[..][..len + 1] == tmp[..len + 1];
      assert os' + ([tmp[len]] + Reversed(tmp[..len])) == (os' + [tmp[len]]) + Reversed(tmp[..len]);
      os' := os' + [tmp[len]];
      if len == 0 {
        break;
      }
      len := len - 1;
    }
  }

  lemma WrapsArith(q: nat, r: nat, f: nat, m: nat)
    ensures (q * m + r) * f == r * f + (q * f) * m
  {
  }

  lemma WrapsOnce(x: nat, f: nat, d: nat, m: nat)
    requires m > 0
    ensures ((x % m) * f + d) % m == (x * f + d) % m
  {
    var q, r := x / m, x % m;
    assert x == q * m + r;
    WrapsArith(q, r, f, m);
    MulNonNegative(r, f);
    MulNonNegative(q, f);
    ModOfSum(r * f + d, q * f, m);
  }

  // What n holds after marked bytes.
  ghost predicate ReadSoFar(s: seq<Byte>, n: nat, m: nat) {
    m > 0 && Value(s) >= -1 && n == (Value(s) + 1) % m
  }

  lemma ValueOfNone()
    ensures Value([]) == -1
  {
  }

  lemma NextRead(s: seq<Byte>, k: nat, n: nat, m: nat)
    requires k < |s| && ReadSoFar(s[..k], n, m)
    ensures Value(s[..k + 1]) >= 0 && (n * 128 + s[k] % 128) % m == Value(s[..k + 1]) % m
    ensures ReadSoFar(s[..k + 1], ((n * 128 + s[k] % 128) % m + 1) % m, m)
  {
    assert s[..k + 1][..k] == s[..k];
    var before := Value(s[..k]) + 1;
    ValueAtLeast(s[..k]);
    assert Value(s[..k + 1]) == before * 128 + s[k] % 128;
    hide Value;
    WrapsOnce(before, 128, s[k] % 128, m);
    WrapsOnce(before * 128 + s[k] % 128, 1, 1, m);
  }

  // The number that the first code in a stream stands for, wrapped to the bits of the type, and what is
  // behind it; nothing if the stream ends before.
  ghost function Decoded(bits: nat, input: seq<Byte>): Option<(nat, seq<Byte>)> {
    if k: nat :| k <= |input| && IsCode(input[..k]) then
      CodeIsEncoded(input[..k]);
      Some((Value(input[..k]) % Pow2(bits), input[k..]))
    else None
  }

  lemma DecodedAt(bits: nat, input: seq<Byte>, k: nat)
    requires k <= |input| && IsCode(input[..k])
    ensures Value(input[..k]) >= 0 && Decoded(bits, input) == Some((Value(input[..k]) % Pow2(bits), input[k..]))
  {
    CodeIsEncoded(input[..k]);
    forall j: nat | j <= |input| && IsCode(input[..j])
      ensures j == k
    {
      CodesAreEqual(input, j, k);
    }
  }

  lemma NothingDecoded(bits: nat, input: seq<Byte>)
    requires forall i | 0 <= i < |input| :: input[i] >= 128
    ensures Decoded(bits, input) == None
  {
  }

  // A stream that ends inside a code makes the source throw.
  method ReadVarInt(bits: nat, input: seq<Byte>) returns (r: Option<(nat, seq<Byte>)>)
    ensures r == Decoded(bits, input)
  {
    hide Pow2, Value, Decoded;
    ValueOfNone();
    assert input[..0] == [];
    var m := Pow2(bits);
    var n: nat := 0;
    var k: nat := 0;
    while k < |input|
      invariant k <= |input| && forall i | 0 <= i < k :: input[i] >= 128
      invariant ReadSoFar(input[..k], n, m)
    {
      var chData := input[k];
      NextRead(input, k, n, m);
      k := k + 1;
      n := (n * 128 + chData % 128) % m;
      if chData >= 128 {
        n := (n + 1) % m;
      } else {
        DecodedAt(bits, input, k);
        return Some((n, input[k..]));
      }
    }
    NothingDecoded(bits, input);
    return None;
  }

  // Reading what was written returns it and leaves what is behind, whatever the width of the type.
  lemma DecodedOfEncoded(bits: nat, n: nat, behind: seq<Byte>)
    requires n < Pow2(bits)
    ensures Decoded(bits, Encoded(n) + behind) == Some((n, behind))
  {
    hide Pow2, Value, Decoded, Encoded, IsCode;
    EncodedStandsForIt(n);
    var code := Encoded(n);
    assert (code + behind)[..|code|] == code;
    DecodedAt(bits, code + behind, |code|);
    ModUnique(n, n, 0, Pow2(bits));
  }

  // Reading a code and writing what was read gives the same bytes exactly if the value fits into the type.
  lemma RewrittenIfItFits(bits: nat, s: seq<Byte>)
    requires IsCode(s)
    ensures Value(s) >= 0 && (Encoded(Value(s) % Pow2(bits)) == s <==> Value(s) < Pow2(bits))
  {
    CodeIsEncoded(s);
    hide Value, Encoded, IsCode, Pow2;
    var n: nat, m := Value(s), Pow2(bits);
    EncodedStandsForIt(n % m);
    if n < m {
      ModUnique(n, n, 0, m);
    }
  }

  // Two rows of the table in the source's comment differ from what the loops compute.
  lemma RowsOfTheComment()
    ensures Encoded(16511) == [0xFF, 0x7F] && Value([0x80, 0xFF, 0x7F]) == 32895
    ensures Encoded(65535) == [0x82, 0xFE, 0x7F] && Value([0x82, 0xFD, 0x7F]) == 65407
  {
    assert [0x80, 0xFF, 0x7F][..2] == [0x80, 0xFF] && [0x82, 0xFD, 0x7F][..2] == [0x82, 0xFD];
    assert [0x80, 0xFF][..1] == [0x80] && [0x82, 0xFD][..1] == [0x82] && [0x80][..0] == [] && [0x82][..0] == [];
    assert Value([0x80, 0xFF]) == 255 && Value([0x82, 0xFD]) == 509;
  }

  // The bytes of a list of numbers.
  ghost function AllEncoded(list: seq<nat>): seq<Byte> {
    if list == [] then [] else Encoded(list[0]) + AllEncoded(list[1..])
  }

  // No redundancy: every byte string that does not break off inside a code is the encoding of a list.
  lemma {:induction false} EveryStreamIsEncoded(s: seq<Byte>) returns (list: seq<nat>)
    requires s != [] ==> s[|s| - 1] < 128
    ensures AllEncoded(list) == s
  {
    if s == [] {
      return [];
    }
    var k := 0;
    while s[k] >= 128
      invariant k < |s| && forall i | 0 <= i < k :: s[i] >= 128
      decreases |s| - k
    {
      k := k + 1;
    }
    CodeIsEncoded(s[..k + 1]);
    var rest := EveryStreamIsEncoded(s[k + 1..]);
    list := [Value(s[..k + 1])] + rest;
    assert list[1..] == rest;
    assert s == s[..k + 1] + s[k + 1..];
  }

  // And it is the encoding of one list only.
  lemma {:induction false} OnlyOneList(list: seq<nat>, other: seq<nat>)
    requires AllEncoded(list) == AllEncoded(other)
    ensures list == other
  {
    if list != [] && other != [] {
      var s, i, j := AllEncoded(list), |Encoded(list[0])|, |Encoded(other[0])|;
      EncodedStandsForIt(list[0]);
      EncodedStandsForIt(other[0]);
      hide Encoded, Value, IsCode;
      assert s[..i] == Encoded(list[0]) && s[..j] == Encoded(other[0]);
      CodesAreEqual(s, i, j);
      assert s[i..] == AllEncoded(list[1..]) == AllEncoded(other[1..]);
      OnlyOneList(list[1..], other[1..]);
    }
  }
}
