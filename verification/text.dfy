/**
 * The text the decoder builds itself: unsigned numerals as Go's `%d` and
 * `%x` print them, `%x` of a byte slice, and `strings.Join`.  Each rendering
 * has an inverse here (`NumeralValue`, `UnhexBytes`, `Split`) so that the
 * decoder's output can be shown to lose nothing.
 */
module Text {

  import opened Bytes

  /** The character of digit `d`, lower case as Go's `%x` prints it. */
  function DigitChar(d: nat): char
    requires d < 16
  {
    if d < 10 then ('0' as int + d) as char else ('a' as int + (d - 10)) as char
  }

  /** The value of a digit character; 16 for a character that is not a digit. */
  function DigitValue(c: char): (d: nat)
    ensures d <= 16
  {
    if '0' <= c <= '9' then c as int - '0' as int
    else if 'a' <= c <= 'f' then c as int - 'a' as int + 10
    else 16
  }

  lemma DigitValueOfChar(d: nat)
    requires d < 16
    ensures DigitValue(DigitChar(d)) == d
    ensures DigitChar(d) == '0' <==> d == 0
  {
  }

  /** True when every character of `s` is a digit of `base`. */
  predicate AllDigits(s: string, base: nat) {
    forall i :: 0 <= i < |s| ==> DigitValue(s[i]) < base
  }

  /** The two bases Go's integer verbs use here: `%d` and `%x`. */
  predicate IsRadix(base: nat) {
    base == 10 || base == 16
  }

  /** Euclid's division by a radix, split by cases so the solver sees a constant divisor. */
  lemma DivideByRadix(n: nat, base: nat)
    requires IsRadix(base)
    ensures n == (n / base) * base + n % base && n % base < base
    ensures n >= base ==> 1 <= n / base < n
  {
    if base == 10 {
    } else {
    }
  }

  /**
   * `n` written in `base` with no leading zero, as Go prints an unsigned
   * integer with `%d` (base 10) or `%x` (base 16); zero is "0".
   */
  function Numeral(n: nat, base: nat): (s: string)
    requires IsRadix(base)
    ensures |s| >= 1 && AllDigits(s, base)
    ensures s[0] == '0' <==> n == 0
    decreases n
  {
    DivideByRadix(n, base);
    DigitValueOfChar(n % base);
    if n < base then [DigitChar(n)]
    else
      Numeral(n / base, base) + [DigitChar(n % base)]
  }

  /** The value of the digit string `s` in `base`. */
  function NumeralValue(s: string, base: nat): nat
    decreases |s|
  {
    if |s| == 0 then 0 else NumeralValue(s[..|s| - 1], base) * base + DigitValue(s[|s| - 1])
  }

  /** A numeral reads back as the number it was written for. */
  lemma {:induction false} NumeralRoundTrip(n: nat, base: nat)
    requires IsRadix(base)
    ensures NumeralValue(Numeral(n, base), base) == n
    decreases n
  {
    DivideByRadix(n, base);
    DigitValueOfChar(n % base);
    if n >= base {
      var prefix := Numeral(n / base, base);
      NumeralRoundTrip(n / base, base);
      var s := prefix + [DigitChar(n % base)];
      assert s[..|s| - 1] == prefix;
    } else {
      DigitValueOfChar(n);
    }
  }

  /** Go's `%x` of an unsigned integer. */
  function Hex(n: nat): string {
    Numeral(n, 16)
  }

  /** Go's `%d` of an unsigned integer. */
  function Decimal(n: nat): string {
    Numeral(n, 10)
  }

  /** Go's `%x` of one byte: two lower-case hex digits, high nibble first. */
  function HexPair(x: byte): (s: string)
    ensures |s| == 2
  {
    [DigitChar(x as nat / 16), DigitChar(x as nat % 16)]
  }

  /** The byte two hex digits stand for. */
  function PairValue(c0: char, c1: char): byte {
    ((DigitValue(c0) * 16 + DigitValue(c1)) % 256) as byte
  }

  /** Two digits holding the high and low nibble of a byte stand for that byte. */
  lemma PairOfNibbles(c0: char, c1: char, x: byte)
    requires DigitValue(c0) == x as nat / 16 && DigitValue(c1) == x as nat % 16
    ensures PairValue(c0, c1) == x
  {
    var n := x as nat;
    assert DigitValue(c0) * 16 + DigitValue(c1) == n;
  }

  /** The two digits of one byte read back as that byte. */
  lemma UnhexPair(x: byte)
    ensures PairValue(HexPair(x)[0], HexPair(x)[1]) == x
  {
    DigitValueOfChar(x as nat / 16);
    DigitValueOfChar(x as nat % 16);
    PairOfNibbles(HexPair(x)[0], HexPair(x)[1], x);
  }

  /** Go's `%x` of a byte slice: `HexPair` of each byte in turn. */
  function HexBytes(b: seq<byte>): (s: string)
    ensures |s| == 2 * |b|
  {
    if |b| == 0 then "" else HexPair(b[0]) + HexBytes(b[1..])
  }

  /** The bytes whose `%x` rendering is `s`, read two digits at a time. */
  function UnhexBytes(s: string): (b: seq<byte>)
    ensures |b| == |s| / 2
  {
    if |s| < 2 then [] else [PairValue(s[0], s[1])] + UnhexBytes(s[2..])
  }

  /** `%x` of a byte slice loses nothing: the bytes can be read back from it. */
  lemma {:induction false} UnhexOfHexBytes(b: seq<byte>)
    ensures UnhexBytes(HexBytes(b)) == b
  {
    if |b| > 0 {
      var s := HexBytes(b);
      var pair := HexPair(b[0]);
      assert s == pair + HexBytes(b[1..]);
      assert s[0] == pair[0] && s[1] == pair[1];
      assert s[2..] == HexBytes(b[1..]);
      UnhexOfHexBytes(b[1..]);
      UnhexPair(b[0]);
      assert [b[0]] + b[1..] == b;
    }
  }

  /** Go's `strings.Join`: the items with `sep` between neighbours. */
  function Join(items: seq<string>, sep: string): (s: string)
    ensures |items| == 0 ==> s == ""
    ensures |items| == 1 ==> s == items[0]
    decreases |items|
  {
    if |items| == 0 then ""
    else if |items| == 1 then items[0]
    else items[0] + sep + Join(items[1..], sep)
  }

  /** The pieces of `s` between occurrences of the character `sep`, as Go's `strings.Split` cuts it. */
  function Split(s: string, sep: char): (parts: seq<string>)
    ensures |parts| >= 1
    decreases |s|
  {
    if |s| == 0 then [""]
    else
      var rest := Split(s[1..], sep);
      if s[0] == sep then [""] + rest else [[s[0]] + rest[0]] + rest[1..]
  }

  /** A piece free of the separator is split off whole. */
  lemma {:induction false} SplitPiece(a: string, sep: char, t: string)
    requires sep !in a
    ensures Split(a + [sep] + t, sep) == [a] + Split(t, sep)
    decreases |a|
  {
    var s := a + [sep] + t;
    if |a| > 0 {
      assert s[1..] == a[1..] + [sep] + t;
      SplitPiece(a[1..], sep, t);
      assert [a[0]] + a[1..] == a;
    } else {
      assert s[1..] == t;
    }
  }

  /** A string free of the separator is one piece. */
  lemma {:induction false} SplitWhole(a: string, sep: char)
    requires sep !in a
    ensures Split(a, sep) == [a]
    decreases |a|
  {
    if |a| > 0 {
      SplitWhole(a[1..], sep);
      assert [a[0]] + a[1..] == a;
    }
  }

  /**
   * Splitting undoes joining with a one-character separator, provided no
   * item contains the separator and there is at least one item.
   */
  lemma {:induction false} SplitJoin(items: seq<string>, sep: char)
    requires |items| >= 1
    requires forall i :: 0 <= i < |items| ==> sep !in items[i]
    ensures Split(Join(items, [sep]), sep) == items
    decreases |items|
  {
    if |items| == 1 {
      SplitWhole(items[0], sep);
    } else {
      SplitPiece(items[0], sep, Join(items[1..], [sep]));
      SplitJoin(items[1..], sep);
      assert [items[0]] + items[1..] == items;
    }
  }
}
