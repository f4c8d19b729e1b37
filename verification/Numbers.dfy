/** Printing numbers (`int_to_str`, kernel/tty.c) and reading hexadecimal addresses (the parser
    inside `physdump` and `virtdump`, kernel/shell.c). */
module Numbers {
  import opened Words

  const NUL: Byte := 0
  const LOWER_H: Byte := 104
  const LOWER_X: Byte := 120
  const ZERO: Byte := 48

  /** The table "0123456789ABCDEF". */
  function Digit(d: nat): Byte
    requires d < 16
  {
    if d < 10 then ZERO + d else 55 + d
  }

  /** The digits of `value`, most significant first. */
  function Digits(value: nat, base: nat): (r: seq<Byte>)
    requires 2 <= base <= 16
    ensures r != []
  {
    if value < base then [Digit(value)] else Digits(value / base, base) + [Digit(value % base)]
  }

  // ----- numerals

  /** The number that digits stand for in a base, most significant first. */
  ghost function Number(digits: seq<nat>, base: nat): nat {
    if digits == [] then 0 else Number(digits[..|digits| - 1], base) * base + digits[|digits| - 1]
  }

  /** Digits below the base, without a leading 0 in front of others. */
  ghost predicate Numeral(digits: seq<nat>, base: nat) {
    && digits != [] && (forall k | 0 <= k < |digits| :: digits[k] < base)
    && (|digits| > 1 ==> digits[0] != 0)
  }

  /** Each character is the one for its digit in "0123456789ABCDEF". */
  ghost predicate Upper(s: seq<Byte>, digits: seq<nat>) {
    && |s| == |digits|
    && forall k | 0 <= k < |s| :: digits[k] < 16 &&
         s[k] == [48, 49, 50, 51, 52, 53, 54, 55, 56, 57, 65, 66, 67, 68, 69, 70][digits[k]]
  }

  /** In each base a number has only one numeral. */
  lemma {:induction false} OneNumeral(a: seq<nat>, b: seq<nat>, base: nat)
    requires 2 <= base && Numeral(a, base) && Numeral(b, base) && Number(a, base) == Number(b, base)
    ensures a == b
    decreases |a|
  {
    LastOf(a, base);
    LastOf(b, base);
    var m, n := |a| - 1, |b| - 1;
    Cancel(Number(a[..m], base), a[m], Number(b[..n], base), b[n], base);
    if m > 0 && n > 0 { OneNumeral(a[..m], b[..n], base); }
  }

  lemma LastOf(a: seq<nat>, base: nat)
    requires 2 <= base && Numeral(a, base)
    ensures var m := |a| - 1;
            && Number(a, base) == Number(a[..m], base) * base + a[m] && (m > 0 ==> Numeral(a[..m], base))
            && (m == 0 <==> Number(a[..m], base) == 0)
  {
    var m := |a| - 1;
    if m > 0 { NotZero(a[..m], base); }
  }

  lemma {:induction false} NotZero(a: seq<nat>, base: nat)
    requires 2 <= base && a != [] && a[0] != 0
    ensures Number(a, base) > 0
    decreases |a|
  {
    if |a| > 1 {
      NotZero(a[..|a| - 1], base);
      Scale(Number(a[..|a| - 1], base), 1, base);
    }
  }

  lemma Cancel(x: nat, c: nat, y: nat, d: nat, base: nat)
    requires c < base && d < base && x * base + c == y * base + d
    ensures x == y && c == d
  {
    if x < y {
      Scale(base, x + 1, y);
    } else if y < x {
      Scale(base, y + 1, x);
    }
  }

  /** The printed digits are the numeral of the value, in the characters of the table. */
  lemma {:induction false} DigitsAreNumeral(value: nat, base: nat) returns (digits: seq<nat>)
    requires 2 <= base <= 16
    ensures Numeral(digits, base) && Number(digits, base) == value && Upper(Digits(value, base), digits)
    decreases value
  {
    hide Upper, Numeral, Number, Digit;
    if value < base {
      digits := [value];
      SingleDigit(value, base);
    } else {
      QuotientNotZero(value, base);
      var rest := DigitsAreNumeral(value / base, base);
      digits := rest + [value % base];
      AppendDigit(Digits(value / base, base), rest, value % base, base);
    }
  }

  lemma SingleDigit(d: nat, base: nat)
    requires d < base <= 16
    ensures Numeral([d], base) && Number([d], base) == d && Upper([Digit(d)], [d])
  {
    assert [d][..0] == [];
    assert Number([], base) == 0;
  }

  lemma AppendDigit(s: seq<Byte>, rest: seq<nat>, d: nat, base: nat)
    requires Numeral(rest, base) && Number(rest, base) > 0 && Upper(s, rest) && d < base <= 16
    ensures Numeral(rest + [d], base) && Number(rest + [d], base) == Number(rest, base) * base + d
    ensures Upper(s + [Digit(d)], rest + [d])
  {
    assert (rest + [d])[..|rest|] == rest;
    assert rest[..0] == [];
  }

  lemma QuotientNotZero(value: nat, base: nat)
    requires 2 <= base <= value
    ensures 0 < value / base < value && value == value / base * base + value % base
  {}

  function Pow(b: nat, n: nat): nat { if n == 0 then 1 else b * Pow(b, n - 1) }

  lemma {:induction false} Halved(value: nat, base: nat, n: nat)
    requires 2 <= base && 0 < n && value < Pow(2, n)
    ensures value / base < Pow(2, n - 1) && (n == 1 ==> value / base == 0)
  {
    assert value < 2 * Pow(2, n - 1);
    assert value / base * base <= value;
    assert value / base * 2 <= value / base * base by { Scale(value / base, 2, base); }
  }

  lemma Scale(x: nat, a: nat, b: nat)
    requires a <= b
    ensures x * a <= x * b
  {
    assert x * b == x * a + x * (b - a);
  }

  lemma LastDigit(value: nat, base: nat)
    requires 2 <= base <= 16
    ensures 0 <= value % base < 16
    ensures Digits(value, base) ==
            (if value / base == 0 then [] else Digits(value / base, base)) + [Digit(value % base)]
  {
    assert value == value / base * base + value % base;
    if value < base {
      BelowBase(value, base);
    }
  }

  lemma BelowBase(value: nat, base: nat)
    requires value < base
    ensures value / base == 0 && value % base == value
  {}

  method SplitDigit(value: nat, base: nat, ghost n: nat) returns (quotient: nat, digit: nat)
    requires 2 <= base <= 16 && 0 < n && value < Pow(2, n)
    ensures digit < 16 && quotient < Pow(2, n - 1) && (n == 1 ==> quotient == 0)
    ensures Digits(value, base) == (if quotient == 0 then [] else Digits(quotient, base)) + [Digit(digit)]
  {
    Halved(value, base, n);
    LastDigit(value, base);
    quotient, digit := value / base, value % base;
  }

  /** `int_to_str`. The terminator goes to index 65, one past the 65 bytes declared for the buffer,
      so the buffer has 66 here; the digits never leave it, whatever the base. */
  method IntToStr(numBuffer: array<Byte>, value: Word, base: nat) returns (start: nat, ghost digits: seq<nat>)
    requires numBuffer.Length == 66 && 2 <= base <= 16
    modifies numBuffer
    ensures 33 <= start < 65
    ensures numBuffer[start..65] == Digits(value, base) && numBuffer[65] == 0
    ensures Numeral(digits, base) && Number(digits, base) == value && Upper(numBuffer[start..65], digits)
  {
    hide Pow, Digit, Digits, Numeral, Number, Upper;
    PowersOfTwo();
    digits := DigitsAreNumeral(value, base);
    var i: nat := 65;
    numBuffer[i] := NUL;
    i := i - 1;
    var rest: nat := value;
    while true
      invariant 32 < i <= 64 && numBuffer[65] == NUL
      invariant rest < Pow(2, i - 32)
      invariant Digits(value, base) == Digits(rest, base) + numBuffer[i + 1..65]
      decreases i
    {
      var quotient, digit := SplitDigit(rest, base, i - 32);
      numBuffer[i] := Digit(digit);
      i := i - 1;
      if quotient == 0 {
        break;
      }
      rest := quotient;
    }
    start := i + 1;
  }

  lemma PowersOfTwo()
    ensures Pow(2, 32) == WORD_LIMIT
  {
    assert Pow(2, 8) == 256;
    PowAdd(2, 8, 8);
    PowAdd(2, 16, 16);
  }

  lemma {:induction false} PowAdd(b: nat, m: nat, n: nat)
    ensures Pow(b, m + n) == Pow(b, m) * Pow(b, n)
  {
    if m > 0 {
      PowAdd(b, m - 1, n);
      MulAssoc(b, Pow(b, m - 1), Pow(b, n));
    }
  }

  lemma MulAssoc(a: int, b: int, c: int)
    ensures a * (b * c) == (a * b) * c
  {}

  // ----- the parser

  /** A character as a signed value, as `char` is on the target. */
  function Signed(c: Byte): int { if c < 0x80 then c else c - 0x100 }

  /** The switch of the parser; every other character counts as its code minus 48. */
  function HexValue(c: Byte): int {
    if 65 <= c <= 70 then c - 55
    else if 97 <= c <= 102 then c - 87
    else Signed(c) - 48
  }

  /** Digits of a base-16 number, most significant first, as the parser values them. */
  ghost function HexSum(s: seq<Byte>): int {
    if s == [] then 0 else HexSum(s[..|s| - 1]) * 16 + HexValue(s[|s| - 1])
  }

  /** Each character is the one for its digit in "0123456789ABCDEF" or "0123456789abcdef". */
  ghost predicate Spells(s: seq<Byte>, digits: seq<nat>) {
    && |s| == |digits|
    && forall k | 0 <= k < |s| :: digits[k] < 16 &&
         (|| s[k] == [48, 49, 50, 51, 52, 53, 54, 55, 56, 57, 65, 66, 67, 68, 69, 70][digits[k]]
          || s[k] == [48, 49, 50, 51, 52, 53, 54, 55, 56, 57, 97, 98, 99, 100, 101, 102][digits[k]])
  }

  /** The parser values all 22 digit characters right. */
  lemma {:induction false} ReadsDigits(s: seq<Byte>, digits: seq<nat>)
    requires Spells(s, digits)
    ensures HexSum(s) == Number(digits, 16)
    decreases |s|
  {
    if s != [] { ReadsDigits(s[..|s| - 1], digits[..|s| - 1]); }
  }

  lemma {:induction false} NumberBound(digits: seq<nat>, n: nat)
    requires |digits| <= n && forall k | 0 <= k < |digits| :: digits[k] < 16
    ensures Number(digits, 16) < Pow(16, n)
    decreases n
  {
    if digits != [] { NumberBound(digits[..|digits| - 1], n - 1); }
    else { Positive(n); }
  }

  lemma {:induction false} Positive(n: nat)
    ensures 0 < Pow(16, n)
  {
    if n > 0 { Positive(n - 1); }
  }

  lemma ReadsNumber(s: seq<Byte>, digits: seq<nat>)
    requires Spells(s, digits) && |s| <= 8
    ensures Wrap(HexSum(s)) == Number(digits, 16)
  {
    hide HexSum, Number, Pow;
    ReadsDigits(s, digits);
    NumberBound(digits, 8);
    PowersOfSixteen();
  }

  ghost predicate StopsAt(s: seq<Byte>, stop: nat) {
    stop < |s| && (s[stop] == 0 || s[stop] == 104) && forall k | 0 <= k < stop :: s[k] != 0 && s[k] != 104
  }

  function Limit(s: seq<Byte>): nat
    requires |s| >= 2
  {
    if s[1] == LOWER_X then 2 else 0
  }

  /** Prepending a character adds its value at its place. */
  lemma {:induction false} HexSumFront(c: Byte, s: seq<Byte>)
    ensures HexSum([c] + s) == HexValue(c) * Pow(16, |s|) + HexSum(s)
  {
    if s == [] {
      assert ([c] + s)[..0] == [];
    } else {
      var t := s[..|s| - 1];
      assert ([c] + s)[..|s|] == [c] + t;
      HexSumFront(c, t);
      FrontStep(HexValue(c), Pow(16, |t|), HexSum(t));
    }
  }

  lemma FrontStep(v: int, p: int, h: int)
    ensures (v * p + h) * 16 == v * (16 * p) + h * 16
  {}

  /** The address parser of `physdump` and `virtdump`, on a token that is not empty and has between
      one and eight characters from its first digit to the end or the first `h`. */
  method ParseHex(s: seq<Byte>, ghost stop: nat) returns (address: Word)
    requires |s| >= 2 && StopsAt(s, stop) && Limit(s) < stop <= Limit(s) + 8
    ensures address == Wrap(HexSum(s[Limit(s)..stop]))
    ensures forall digits | Spells(s[Limit(s)..stop], digits) :: address == Number(digits, 16)
  {
    hide Wrap, HexSum, HexValue, Pow, Spells, Number;
    var j := 0;
    while s[j] != NUL && s[j] != LOWER_H
      invariant 0 <= j <= stop
      decreases stop - j
    {
      j := j + 1;
    }
    j := j - 1;
    var limit := Limit(s);
    address := 0;
    var shift := 1;
    NothingParsed(s, stop);
    while true
      invariant limit <= j < stop && shift == Pow(16, stop - 1 - j)
      invariant address == Wrap(HexSum(s[j + 1..stop]))
      decreases j
    {
      NextDigit(s, j, stop);
      address := Wrap(address + HexValue(s[j]) * shift);
      if j == limit {
        break;
      }
      j := j - 1;
      shift := 16 * shift;
    }
    forall digits | Spells(s[limit..stop], digits) ensures address == Number(digits, 16) {
      ReadsNumber(s[limit..stop], digits);
    }
  }

  lemma NothingParsed(s: seq<Byte>, stop: nat)
    requires stop <= |s|
    ensures Pow(16, 0) == 1 && Wrap(HexSum(s[stop..stop])) == 0
  {}

  lemma NextDigit(s: seq<Byte>, j: nat, stop: nat)
    requires j < stop <= |s|
    ensures Wrap(Wrap(HexSum(s[j + 1..stop])) + HexValue(s[j]) * Pow(16, stop - 1 - j)) == Wrap(HexSum(s[j..stop]))
    ensures Pow(16, stop - j) == 16 * Pow(16, stop - 1 - j)
  {
    hide Wrap, HexSum, HexValue;
    assert s[j..stop] == [s[j]] + s[j + 1..stop];
    HexSumFront(s[j], s[j + 1..stop]);
    WrapAdd(HexValue(s[j]) * Pow(16, stop - 1 - j), HexSum(s[j + 1..stop]));
  }

  // ----- round trip

  lemma {:induction false} DigitsOf(value: nat, n: nat)
    requires 0 < n && value < Pow(16, n)
    ensures HexSum(Digits(value, 16)) == value && |Digits(value, 16)| <= n
    ensures forall k | 0 <= k < |Digits(value, 16)| ::
              Digits(value, 16)[k] != NUL && Digits(value, 16)[k] != LOWER_H && Digits(value, 16)[k] != LOWER_X
    decreases n
  {
    if value < 16 {
      assert Digits(value, 16)[..0] == [];
    } else {
      assert Pow(16, 1) == 16 * Pow(16, 0);
      assert Pow(16, n) == 16 * Pow(16, n - 1);
      DigitsOf(value / 16, n - 1);
      var d := Digits(value, 16);
      assert d[..|d| - 1] == Digits(value / 16, 16);
    }
  }

  /** The ways to write the address `value`: its hexadecimal digits, plain, after `0x` or before `h`. */
  ghost predicate Writes(s: seq<Byte>, value: Word) {
    || s == Digits(value, 16) + [0]
    || s == [48, 120] + Digits(value, 16) + [0]
    || s == Digits(value, 16) + [104, 0]
  }

  /** Whatever 32-bit value is printed in base 16, the parser reads it back. */
  lemma ParserReadsPrinter(s: seq<Byte>, value: Word) returns (stop: nat)
    requires Writes(s, value)
    ensures |s| >= 2 && StopsAt(s, stop) && Limit(s) < stop <= Limit(s) + 8
    ensures Wrap(HexSum(s[Limit(s)..stop])) == value
  {
    hide Digits, HexSum, Pow;
    var d := Digits(value, 16);
    PowersOfSixteen();
    DigitsOf(value, 8);
    if s == [ZERO, LOWER_X] + d + [NUL] {
      stop := |d| + 2;
      assert s[2..stop] == d;
    } else {
      stop := |d|;
      assert s[0..stop] == d;
      assert s[1] != LOWER_X by { if |d| > 1 { assert s[1] == d[1]; } }
    }
  }

  lemma PowersOfSixteen()
    ensures Pow(16, 8) == WORD_LIMIT
  {
    assert Pow(16, 2) == 256;
    PowAdd(16, 2, 2);
    PowAdd(16, 4, 4);
  }
}
