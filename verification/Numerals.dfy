/** The numerals the kernel prints, as text, and what they denote. */
module Numerals {
  import opened Arithmetic
  import opened KernelTypes

  const HEX: seq<Char> := "0123456789ABCDEF"

  /** The digits of n, most significant first; none for zero. */
  function Digits(n: nat, base: nat): seq<Char>
    requires 2 <= base <= 16
    decreases n
  {
    if n == 0 then []
    else
      DivLess(n, base);
      Digits(n / base, base) + [HEX[n % base]]
  }

  /** What `printInt` prints; an unusable base leaves nothing but the zero. */
  function IntText(x: int, base: nat): seq<Char> {
    if x == 0 then "0"
    else if !(2 <= base <= 16) then []
    else if x < 0 then "-" + Digits(-x, base)
    else Digits(x, base)
  }

  // ---------------------------------------------------------------- reading numerals

  function DigitValue(c: Char): int {
    if '0' <= c <= '9' then c as int - '0' as int
    else if 'A' <= c <= 'F' then c as int - 'A' as int + 10
    else -1
  }

  predicate IsDigits(s: seq<Char>, base: nat) {
    forall c <- s :: 0 <= DigitValue(c) < base
  }

  function DigitsValue(s: seq<Char>, base: nat): int {
    if s == [] then 0 else DigitsValue(s[..|s| - 1], base) * base + DigitValue(s[|s| - 1])
  }

  /** Digits without a leading zero. */
  predicate IsCanonicalNat(s: seq<Char>, base: nat) {
    s != [] && IsDigits(s, base) && s[0] != '0'
  }

  predicate IsCanonicalInt(s: seq<Char>, base: nat) {
    || s == "0"
    || IsCanonicalNat(s, base)
    || (s != [] && s[0] == '-' && IsCanonicalNat(s[1..], base))
  }

  function IntValue(s: seq<Char>, base: nat): int {
    if s != [] && s[0] == '-' then -DigitsValue(s[1..], base) else DigitsValue(s, base)
  }

  lemma HexDigit(d: nat)
    requires d < 16
    ensures DigitValue(HEX[d]) == d && (HEX[d] == '0' <==> d == 0) && HEX[d] != '-'
  {
  }

  lemma DigitHex(c: Char)
    requires 0 <= DigitValue(c) < 16
    ensures HEX[DigitValue(c)] == c
  {
  }

  lemma {:induction false} DigitsRoundTrip(n: nat, base: nat)
    requires 2 <= base <= 16
    ensures DigitsValue(Digits(n, base), base) == n && IsDigits(Digits(n, base), base)
    ensures n > 0 ==> IsCanonicalNat(Digits(n, base), base)
    decreases n
  {
    if n > 0 {
      DivLess(n, base);
      DigitsRoundTrip(n / base, base);
      HexDigit(n % base);
      assert Digits(n, base)[..|Digits(n, base)| - 1] == Digits(n / base, base);
      if n / base == 0 {
        assert Digits(n, base) == [HEX[n % base]];
      }
    }
  }

  lemma DigitsSnoc(n: nat, base: nat, d: nat)
    requires 2 <= base <= 16 && d < base && n + d > 0
    ensures n * base + d > 0 && Digits(n * base + d, base) == Digits(n, base) + [HEX[d]]
  {
    MulStep(0, n, base);
    DivUnique(n * base + d, base, n, d);
  }

  lemma DigitsValueSnoc(s: seq<Char>, c: Char, base: nat)
    ensures DigitsValue(s + [c], base) == DigitsValue(s, base) * base + DigitValue(c)
  {
    assert (s + [c])[..|s|] == s;
  }

  /** Digits without a leading zero are the digits of their value. */
  lemma {:induction false} CanonicalNatUnique(s: seq<Char>, base: nat)
    requires 2 <= base <= 16 && IsDigits(s, base) && (s != [] ==> s[0] != '0')
    ensures DigitsValue(s, base) >= 0 && s == Digits(DigitsValue(s, base), base)
    ensures s != [] ==> DigitsValue(s, base) > 0
    decreases |s|
  {
    hide DigitsValue, Digits, DigitValue;
    if s == [] {
      EmptyDigits(base);
    } else {
      var init, last := s[..|s| - 1], s[|s| - 1];
      assert s == init + [last];
      assert last in s && forall c <- init :: c in s;
      CanonicalNatUnique(init, base);
      var n, d := DigitsValue(init, base), DigitValue(last);
      DigitHex(last);
      HexDigit(d);
      DigitsValueSnoc(init, last, base);
      DigitsSnoc(n, base, d);
    }
  }

  lemma EmptyDigits(base: nat)
    requires 2 <= base <= 16
    ensures DigitsValue([], base) == 0 && Digits(0, base) == []
  {
  }

  /** What is printed is canonical and denotes x. */
  lemma IntTextReads(x: int, base: nat)
    requires 2 <= base <= 16
    ensures IsCanonicalInt(IntText(x, base), base) && IntValue(IntText(x, base), base) == x
  {
    hide Digits, DigitsValue;
    var s := IntText(x, base);
    if x > 0 {
      DigitsRoundTrip(x, base);
      assert s[0] in s;
    } else if x < 0 {
      DigitsRoundTrip(-x, base);
      assert s[1..] == Digits(-x, base);
    } else {
      ZeroValue(base);
    }
  }

  lemma ZeroValue(base: nat)
    ensures DigitsValue("0", base) == 0
  {
    var zero: seq<Char> := [];
    DigitsValueSnoc(zero, '0', base);
  }

  /** The printed text is the one canonical numeral that denotes x. */
  lemma IntTextRoundTrip(x: int, base: nat, s: seq<Char>)
    requires 2 <= base <= 16
    ensures s == IntText(x, base) <==> IsCanonicalInt(s, base) && IntValue(s, base) == x
  {
    hide Digits, DigitsValue;
    IntTextReads(x, base);
    ZeroValue(base);
    if IsCanonicalInt(s, base) && IntValue(s, base) == x && s != "0" {
      if s[0] == '-' {
        assert s[0] in s && !IsCanonicalNat(s, base);
        CanonicalNatUnique(s[1..], base);
        assert s == "-" + s[1..];
      } else {
        CanonicalNatUnique(s, base);
      }
    }
  }

  /** Numerals as they are read and written everywhere. */
  lemma NumeralExamples()
    ensures IntText(1905, 10) == "1905" && IntText(-42, 10) == "-42" && IntText(0, 10) == "0"
    ensures IntText(0xBEEF, 16) == "BEEF" && DigitsValue("1905", 10) == 1905
    ensures IntText(7, 17) == [] == IntText(-7, 1) && IntText(0, 17) == "0"
  {
    hide Digits, DigitsValue;
    EmptyDigits(10);
    EmptyDigits(16);
    NextDigit(0, 10, 1);
    NextDigit(1, 10, 9);
    NextDigit(19, 10, 0);
    NextDigit(190, 10, 5);
    NextDigit(0, 10, 4);
    NextDigit(4, 10, 2);
    NextDigit(0, 16, 11);
    NextDigit(0xB, 16, 14);
    NextDigit(0xBE, 16, 14);
    NextDigit(0xBEE, 16, 15);
    DigitsRoundTrip(1905, 10);
  }

  lemma NextDigit(n: nat, base: nat, d: nat)
    requires 2 <= base <= 16 && d < base && n + d > 0
    ensures Digits(n * base + d, base) == Digits(n, base) + ["0123456789ABCDEF"[d]]
  {
    DigitsSnoc(n, base, d);
  }

  // ---------------------------------------------------------------- binary

  function Min(a: int, b: int): int {
    if a < b then a else b
  }

  function BitChar(value: int, k: nat): Char {
    if value / Pow2(k) % 2 == 1 then '1' else '0'
  }

  /** The first i of n bits of a value, with a dot after each full group of eight when n > 8. */
  function BinPrefix(value: int, n: nat, i: nat): seq<Char>
    requires i <= n
  {
    if i == 0 then []
    else
      BinPrefix(value, n, i - 1)
      + (if n > 8 && (i - 1) % 8 == 0 && i - 1 != 0 then "." else "")
      + [BitChar(value, n - i)]
  }

  /** What `printBin` prints. */
  function BinText(value: int, nbBits: int): seq<Char> {
    (if nbBits > 0 then BinPrefix(value, Min(nbBits, 32), Min(nbBits, 32)) else []) + "b"
  }

  /** How many characters the first i of n bits take. */
  function BinLength(n: nat, i: nat): nat {
    if n > 8 && i > 0 then i + (i - 1) / 8 else i
  }

  /** One more bit: a dot in front of it exactly at the start of a new group, and where both stand. */
  lemma GroupStep(i: nat)
    ensures var length, p := BinLength(9, i), BinLength(9, i + 1) - 1;
            && p == length + (if i % 8 == 0 && i != 0 then 1 else 0)
            && p % 9 != 8 && p - p / 9 == i
            && (i % 8 == 0 && i != 0 ==> length % 9 == 8)
  {
    var q, r := i / 8, i % 8;
    assert i == 8 * q + r;
    assert BinLength(9, i + 1) - 1 == 9 * q + r;
    if i > 0 && r == 0 {
      assert i - 1 == 8 * (q - 1) + 7;
      assert BinLength(9, i) == 9 * (q - 1) + 8;
    } else if i > 0 {
      assert i - 1 == 8 * q + (r - 1);
    }
  }

  /** Character p of a text of n bits is a dot, or the bit that belongs there. */
  predicate CharacterAt(value: int, n: nat, p: nat, c: Char) {
    if n > 8 && p % 9 == 8 then c == '.'
    else var j := if n > 8 then p - p / 9 else p;
         j < n && c == BitChar(value, n - 1 - j)
  }

  /** Where the bits and the dots are: a dot behind each full group of eight, if there are more than eight bits. */
  lemma BinPrefixShape(value: int, n: nat, i: nat)
    requires i <= n
    ensures |BinPrefix(value, n, i)| == if n > 8 && i > 0 then i + (i - 1) / 8 else i
    ensures forall p :: 0 <= p < |BinPrefix(value, n, i)| ==>
              if n > 8 && p % 9 == 8 then BinPrefix(value, n, i)[p] == '.'
              else var j := if n > 8 then p - p / 9 else p;
                   j < n && BinPrefix(value, n, i)[p] == if value / Pow2(n - 1 - j) % 2 == 1 then '1' else '0'
  {
    hide BinPrefix;
    BinPrefixCharacters(value, n, i);
    forall p | 0 <= p < |BinPrefix(value, n, i)|
      ensures CharacterAt(value, n, p, BinPrefix(value, n, i)[p])
    {
    }
  }

  lemma {:induction false} BinPrefixCharacters(value: int, n: nat, i: nat)
    requires i <= n
    ensures |BinPrefix(value, n, i)| == BinLength(n, i)
    ensures forall p :: 0 <= p < |BinPrefix(value, n, i)| ==> CharacterAt(value, n, p, BinPrefix(value, n, i)[p])
    decreases i
  {
    hide CharacterAt, BinLength, BitChar;
    if i == 0 {
      NoBits(value, n);
    } else {
      BinPrefixCharacters(value, n, i - 1);
      var s, t := BinPrefix(value, n, i - 1), BinPrefix(value, n, i);
      if n > 8 {
        GroupedBit(value, n, i);
      } else {
        PlainBit(value, n, i);
      }
      forall p | 0 <= p < |t|
        ensures CharacterAt(value, n, p, t[p])
      {
        assert p < |s| ==> t[p] == s[p];
      }
    }
  }

  lemma NoBits(value: int, n: nat)
    ensures BinPrefix(value, n, 0) == [] && BinLength(n, 0) == 0
  {
  }

  lemma PlainBit(value: int, n: nat, i: nat)
    requires 0 < i <= n <= 8
    ensures BinPrefix(value, n, i) == BinPrefix(value, n, i - 1) + [BitChar(value, n - i)]
    ensures BinLength(n, i - 1) == i - 1 && BinLength(n, i) == i && CharacterAt(value, n, i - 1, BitChar(value, n - i))
  {
  }

  lemma GroupedBit(value: int, n: nat, i: nat)
    requires 0 < i <= n && n > 8
    ensures var length, dot := BinLength(n, i - 1), (i - 1) % 8 == 0 && i - 1 != 0;
            && BinPrefix(value, n, i)
               == BinPrefix(value, n, i - 1) + (if dot then "." else "") + [BitChar(value, n - i)]
            && BinLength(n, i) == length + (if dot then 2 else 1)
            && (dot ==> CharacterAt(value, n, length, '.'))
            && CharacterAt(value, n, BinLength(n, i) - 1, BitChar(value, n - i))
  {
    GroupStep(i - 1);
  }

  function WithoutDots(s: seq<Char>): seq<Char> {
    if s == [] then []
    else WithoutDots(s[..|s| - 1]) + if s[|s| - 1] == '.' then [] else [s[|s| - 1]]
  }

  lemma WithoutDotsSnoc(s: seq<Char>, c: Char)
    ensures WithoutDots(s + [c]) == WithoutDots(s) + if c == '.' then [] else [c]
  {
    assert (s + [c])[..|s|] == s;
  }

  lemma {:induction false} BinPrefixValue(value: int, n: nat, i: nat)
    requires i <= n
    ensures DigitsValue(WithoutDots(BinPrefix(value, n, i)), 2) == value / Pow2(n - i) % Pow2(i)
    decreases i
  {
    hide DigitsValue, WithoutDots, Pow2;
    if i == 0 {
      EmptyBits(value, n);
    } else {
      BinPrefixValue(value, n, i - 1);
      var head, bit := BinPrefix(value, n, i - 1), BitChar(value, n - i);
      if n > 8 && (i - 1) % 8 == 0 && i - 1 != 0 {
        assert BinPrefix(value, n, i) == head + ['.'] + [bit];
        WithoutDotsSnoc(head, '.');
        WithoutDotsSnoc(head + ['.'], bit);
      } else {
        assert BinPrefix(value, n, i) == head + [bit];
        WithoutDotsSnoc(head, bit);
      }
      assert WithoutDots(BinPrefix(value, n, i)) == WithoutDots(head) + [bit];
      DigitsValueSnoc(WithoutDots(head), bit, 2);
      assert DigitValue(bit) == value / Pow2(n - i) % 2;
      BitStep(value, n - i, i - 1);
    }
  }

  lemma EmptyBits(value: int, n: nat)
    ensures DigitsValue(WithoutDots([]), 2) == 0 == value / Pow2(n) % Pow2(0)
  {
  }

  /** No bits and a b. */
  lemma NoBitsText(value: int, nbBits: int)
    requires nbBits <= 0
    ensures BinText(value, nbBits) == "b"
  {
    assert [] + ['b'] == ['b'];
  }

  /** Without its dots and its final 'b', the text is the value's low bits read in binary. */
  lemma BinTextRoundTrip(value: int, nbBits: int)
    requires nbBits > 0
    ensures var s := BinText(value, nbBits);
            s[|s| - 1] == 'b'
            && DigitsValue(WithoutDots(s[..|s| - 1]), 2) == value % Pow2(Min(nbBits, 32))
  {
    var n := Min(nbBits, 32);
    var s := BinText(value, nbBits);
    assert s[..|s| - 1] == BinPrefix(value, n, n);
    BinPrefixValue(value, n, n);
    assert value / Pow2(0) == value;
  }
}
