/** The few pieces of the Java platform the analyser relies on, stated on
    unbounded integers and Dafny strings: 32-bit `int` wrap-around, integer
    division (which rounds toward zero), `Integer.parseInt`, `Integer.toString`,
    `String.split(",")` and `String.hashCode`. */
module JavaLang {
  import opened Wrappers

  const INT_MIN: int := -0x8000_0000
  const INT_MAX: int := 0x7FFF_FFFF
  const TWO_TO_32: int := 0x1_0000_0000

  predicate IsInt(x: int) {
    INT_MIN <= x <= INT_MAX
  }

  /** Java `int` arithmetic: the value congruent to `x` modulo 2^32 in the signed range. */
  function WrapInt(x: int): (r: int)
    ensures IsInt(r)
    ensures (x - r) % TWO_TO_32 == 0
    ensures IsInt(x) ==> r == x
  {
    var m := x % TWO_TO_32;
    if m > INT_MAX then m - TWO_TO_32 else m
  }

  /** A value past the top of the `int` range but below 2^32 wraps to a negative value,
      2^32 below the exact one. */
  lemma WrapIntOverflow(x: int)
    requires INT_MAX < x < TWO_TO_32
    ensures WrapInt(x) == x - TWO_TO_32 && WrapInt(x) < 0
  {
    assert x % TWO_TO_32 == x;
  }

  /** Java's `/` on integers with a positive divisor: the quotient rounded toward zero. */
  function TruncDiv(a: int, b: int): int
    requires b > 0
  {
    if a >= 0 then a / b else -((-a) / b)
  }

  /** The quotient rounded toward zero lies within one divisor of the dividend, on the
      dividend's side of zero. */
  lemma TruncDivBounds(a: int, b: int)
    requires b > 0
    ensures 0 <= a ==> 0 <= TruncDiv(a, b) && TruncDiv(a, b) * b <= a < TruncDiv(a, b) * b + b
    ensures a < 0 ==> TruncDiv(a, b) <= 0 && TruncDiv(a, b) * b - b < a <= TruncDiv(a, b) * b
  {
  }

  // ---------------------------------------------------------------------
  // Decimal text: Integer.parseInt and Integer.toString

  predicate IsDigit(c: char) {
    '0' <= c <= '9'
  }

  predicate AllDigits(s: string) {
    forall i :: 0 <= i < |s| ==> IsDigit(s[i])
  }

  function DigitValue(c: char): nat
    requires IsDigit(c)
  {
    (c as int) - ('0' as int)
  }

  function DigitChar(d: nat): (c: char)
    requires d < 10
    ensures IsDigit(c) && DigitValue(c) == d
  {
    (('0' as int) + d) as char
  }

  /** The value of a string of decimal digits, most significant first. */
  function DigitsValue(s: string): nat
    requires AllDigits(s)
    decreases |s|
  {
    if s == [] then 0 else DigitsValue(s[..|s| - 1]) * 10 + DigitValue(s[|s| - 1])
  }

  /** `Integer.parseInt(s)`: an optional sign followed by at least one decimal digit,
      whose value fits in an `int`; anything else is a NumberFormatException (None). */
  function ParseInt(s: string): (r: Option<int>)
    ensures r.Some? ==> IsInt(r.value)
    ensures r.Some? ==> s != [] && AllDigits(if s[0] == '-' || s[0] == '+' then s[1..] else s)
  {
    if s != [] && (s[0] == '-' || s[0] == '+') then
      var digits := s[1..];
      if digits != [] && AllDigits(digits) then
        var v: int := if s[0] == '-' then -(DigitsValue(digits) as int) else DigitsValue(digits);
        if IsInt(v) then Some(v) else None
      else None
    else if s != [] && AllDigits(s) && IsInt(DigitsValue(s)) then Some(DigitsValue(s))
    else None
  }

  /** Decimal digits of `n` without leading zeros. */
  function NatToString(n: nat): (s: string)
    ensures s != [] && AllDigits(s)
    ensures s[0] == '0' ==> n == 0 && s == "0"
    decreases n
  {
    if n < 10 then [DigitChar(n)] else NatToString(n / 10) + [DigitChar(n % 10)]
  }

  /** `Integer.toString(n)`, as used by string concatenation. */
  function IntToString(n: int): string
  {
    if n < 0 then "-" + NatToString(-n) else NatToString(n)
  }

  lemma {:induction false} NatToStringValue(n: nat)
    ensures DigitsValue(NatToString(n)) == n
    decreases n
  {
    if n >= 10 {
      NatToStringValue(n / 10);
      var s := NatToString(n);
      assert s[..|s| - 1] == NatToString(n / 10);
    }
  }

  /** Integer.parseInt reads back what Integer.toString writes. */
  lemma ParseIntToString(n: int)
    requires IsInt(n)
    ensures ParseInt(IntToString(n)) == Some(n)
  {
    if n < 0 {
      var digits := NatToString(-n);
      NatToStringValue(-n);
      assert IntToString(n) == "-" + digits;
      assert ("-" + digits)[0] == '-' && ("-" + digits)[1..] == digits;
    } else {
      var digits := NatToString(n);
      NatToStringValue(n);
      assert IntToString(n) == digits && IsDigit(digits[0]);
    }
  }

  // ---------------------------------------------------------------------
  // String.split(",")

  /** `s` cut at every comma: the plain split, keeping every empty piece. */
  function SplitOnComma(s: string): (parts: seq<string>)
    ensures |parts| >= 1
    ensures forall i :: 0 <= i < |parts| ==> ',' !in parts[i]
    ensures ',' !in s ==> parts == [s]
    decreases |s|
  {
    if s == [] then [""]
    else
      var rest := SplitOnComma(s[1..]);
      if s[0] == ',' then [""] + rest
      else
        assert s == [s[0]] + s[1..];
        [[s[0]] + rest[0]] + rest[1..]
  }

  /** The pieces joined with commas between them. */
  function JoinWithComma(parts: seq<string>): string
    requires |parts| >= 1
    decreases |parts|
  {
    if |parts| == 1 then parts[0] else parts[0] + "," + JoinWithComma(parts[1..])
  }

  lemma {:induction false} JoinSplit(s: string)
    ensures JoinWithComma(SplitOnComma(s)) == s
    decreases |s|
  {
    if s != [] {
      JoinSplit(s[1..]);
      var rest := SplitOnComma(s[1..]);
      if s[0] == ',' {
        assert ([""] + rest)[1..] == rest;
      } else {
        var parts := [[s[0]] + rest[0]] + rest[1..];
        assert parts[1..] == rest[1..];
        if |rest| > 1 {
          assert rest[1..][1..] == rest[2..];
          assert JoinWithComma(rest) == rest[0] + "," + JoinWithComma(rest[1..]);
        }
      }
    }
  }

  /** Splitting a comma-free piece followed by a comma yields that piece first. */
  lemma {:induction false} SplitAfterPiece(piece: string, tail: string)
    requires ',' !in piece
    ensures SplitOnComma(piece + "," + tail) == [piece] + SplitOnComma(tail)
    decreases |piece|
  {
    var joined := piece + "," + tail;
    if piece == [] {
      assert joined[1..] == tail;
    } else {
      assert joined[1..] == piece[1..] + "," + tail;
      SplitAfterPiece(piece[1..], tail);
      assert [piece[0]] + piece[1..] == piece;
    }
  }

  lemma {:induction false} SplitJoin(parts: seq<string>)
    requires |parts| >= 1
    requires forall i :: 0 <= i < |parts| ==> ',' !in parts[i]
    ensures SplitOnComma(JoinWithComma(parts)) == parts
    decreases |parts|
  {
    if |parts| > 1 {
      SplitJoin(parts[1..]);
      SplitAfterPiece(parts[0], JoinWithComma(parts[1..]));
      assert [parts[0]] + parts[1..] == parts;
    }
  }

  /** The pieces that remain of `parts` once the empty pieces at its end are dropped. */
  function DropTrailingEmpty(parts: seq<string>): (r: seq<string>)
    ensures |r| <= |parts| && r == parts[..|r|]
    ensures forall i :: |r| <= i < |parts| ==> parts[i] == ""
    ensures r != [] ==> r[|r| - 1] != ""
    decreases |parts|
  {
    if parts == [] then []
    else if parts[|parts| - 1] == "" then DropTrailingEmpty(parts[..|parts| - 1])
    else parts
  }

  /** Java's `s.split(",")`: when no comma occurs the result is `[s]`; otherwise the
      plain split with its trailing empty pieces removed. */
  function JavaSplit(s: string): (parts: seq<string>)
    ensures ',' !in s ==> parts == [s]
    ensures forall i :: 0 <= i < |parts| ==> ',' !in parts[i]
    ensures ',' in s ==> |parts| <= |SplitOnComma(s)| && parts == SplitOnComma(s)[..|parts|]
    ensures ',' in s ==> forall i :: |parts| <= i < |SplitOnComma(s)| ==> SplitOnComma(s)[i] == ""
    ensures ',' in s && parts != [] ==> parts[|parts| - 1] != ""
  {
    if ',' !in s then [s] else DropTrailingEmpty(SplitOnComma(s))
  }

  /** Element `i` of `parts`, or "" when `parts` has no element `i`. */
  function ElementOrEmpty(parts: seq<string>, i: nat): string
  {
    if i < |parts| then parts[i] else ""
  }

  /** Looking a column up by position, with "" past the end, cannot tell Java's split
      from the plain split: the trailing pieces Java drops are all empty. */
  lemma JavaSplitElement(s: string, i: nat)
    ensures ElementOrEmpty(JavaSplit(s), i) == ElementOrEmpty(SplitOnComma(s), i)
  {
  }

  // ---------------------------------------------------------------------
  // Hash codes

  /** The UTF-16 code units of `s`, by which Java stores a string: a character
      beyond U+FFFF becomes a surrogate pair. */
  function Utf16(s: string): (units: seq<int>)
    ensures forall i :: 0 <= i < |units| ==> 0 <= units[i] < 0x1_0000
    ensures |s| <= |units| <= 2 * |s|
    decreases |s|
  {
    if s == [] then []
    else
      var c := s[0] as int;
      var head := if c < 0x1_0000 then [c]
                  else [0xD800 + (c - 0x1_0000) / 0x400, 0xDC00 + (c - 0x1_0000) % 0x400];
      head + Utf16(s[1..])
  }

  /** `h = 31 * h + x` over `xs` in `int` arithmetic, starting from `seed`. */
  function PolynomialHash(seed: int, xs: seq<int>): (h: int)
    requires IsInt(seed)
    ensures IsInt(h)
    decreases |xs|
  {
    if xs == [] then seed
    else WrapInt(31 * PolynomialHash(seed, xs[..|xs| - 1]) + xs[|xs| - 1])
  }

  /** `String.hashCode()`. */
  function StringHash(s: string): (h: int)
    ensures IsInt(h)
  {
    PolynomialHash(0, Utf16(s))
  }

  /** `Objects.hash(...)` over the hash codes of its arguments. */
  function ObjectsHash(hashes: seq<int>): (h: int)
    ensures IsInt(h)
  {
    PolynomialHash(1, hashes)
  }
}
