/** Bytes, the ASCII constants the codecs compare against, and Rust's integer
    printing (`to_string`) and parsing (`str::parse::<i32>`) on byte strings. */
module Bytes {
  import opened Wrappers

  newtype byte = b: int | 0 <= b < 256
  type Bytes = seq<byte>

  /** Rust's `i32`. */
  const I32_MIN: int := -0x8000_0000
  const I32_MAX: int := 0x7fff_ffff
  type i32 = x: int | I32_MIN <= x <= I32_MAX

  const LF: byte := 10
  const CR: byte := 13
  const SP: byte := 32
  const QUOTE: byte := 34
  const LPAREN: byte := 40
  const RPAREN: byte := 41
  const PLUS: byte := 43
  const COMMA: byte := 44
  const MINUS: byte := 45
  const DOT: byte := 46
  const SLASH: byte := 47
  const COLON: byte := 58
  const LBRACE: byte := 123
  const RBRACE: byte := 125

  const CRLF: Bytes := [CR, LF]

  predicate IsDigit(b: byte) {
    48 <= b <= 57
  }

  predicate AllDigits(s: Bytes) {
    forall i :: 0 <= i < |s| ==> IsDigit(s[i])
  }

  function DigitValue(b: byte): nat
    requires IsDigit(b)
  {
    (b - 48) as nat
  }

  function DigitByte(d: nat): (b: byte)
    requires d < 10
    ensures IsDigit(b) && DigitValue(b) == d
  {
    (48 + d) as byte
  }

  /** Value of a string of decimal digits, most significant digit first. */
  function DigitsValue(s: Bytes): nat
    requires AllDigits(s)
    decreases |s|
  {
    if |s| == 0 then 0 else DigitsValue(s[..|s| - 1]) * 10 + DigitValue(s[|s| - 1])
  }

  /** Rust's `to_string` of a non-negative integer: the shortest decimal
      numeral, without sign or leading zeros. */
  function Decimal(n: nat): (r: Bytes)
    ensures 1 <= |r| && AllDigits(r)
    ensures DigitsValue(r) == n
    ensures 1 < |r| ==> r[0] != DigitByte(0)
    decreases n
  {
    if n < 10 then [DigitByte(n)]
    else
      var r := Decimal(n / 10) + [DigitByte(n % 10)];
      assert r[..|r| - 1] == Decimal(n / 10);
      r
  }

  /** Rust's `to_string` of a signed integer: a `-` before the decimal of a negative. */
  function SignedDecimal(x: int): (r: Bytes)
  {
    if x < 0 then [MINUS] + Decimal(-x) else Decimal(x)
  }

  /** Rust's `str::parse::<i32>` applied to the characters of `s`: an
      optional `+` or `-`, then at least one ASCII digit, and a value that
      fits in 32 bits. */
  function ParseI32(s: Bytes): (r: Option<i32>)
    ensures r.Some? ==> 1 <= |s|
    ensures r.Some? && s[0] != MINUS ==> r.value >= 0
  {
    if |s| == 0 then None
    else
      var digits := if s[0] == PLUS || s[0] == MINUS then s[1..] else s;
      if |digits| == 0 || !AllDigits(digits) then None
      else
        var v: int := if s[0] == MINUS then 0 - DigitsValue(digits) else DigitsValue(digits);
        if I32_MIN <= v <= I32_MAX then Some(v) else None
  }

  /** Every number of at most three digits prints as that many bytes. */
  lemma DecimalLength(n: nat)
    ensures n < 10 ==> |Decimal(n)| == 1
    ensures 10 <= n < 100 ==> |Decimal(n)| == 2
    ensures 100 <= n < 1000 ==> |Decimal(n)| == 3
  {
  }

  /** Printing then parsing is the identity on `i32`: the source's
      `to_string` and `parse::<i32>` are inverse. */
  lemma ParsePrintsBack(x: i32)
    ensures ParseI32(SignedDecimal(x)) == Some(x)
  {
    var s := SignedDecimal(x);
    var n: int := x;
    if n < 0 {
      assert s[0] == MINUS && s[1..] == Decimal(-n);
    } else {
      assert IsDigit(s[0]);
      assert s[0] != PLUS && s[0] != MINUS;
    }
  }

  /** A one-byte string parses exactly when it is a digit, to that digit. */
  lemma ParseSingleByte(b: byte)
    ensures ParseI32([b]).Some? <==> IsDigit(b)
    ensures IsDigit(b) ==> ParseI32([b]) == Some(DigitValue(b))
  {
    if IsDigit(b) {
      assert DigitsValue([b]) == DigitsValue([]) * 10 + DigitValue(b);
    }
  }

  /** Index of the first occurrence of `b` in `s`, or `|s|` when there is none. */
  function IndexOf(s: Bytes, b: byte): (k: nat)
    ensures k <= |s|
    ensures k < |s| ==> s[k] == b
    ensures forall i :: 0 <= i < k ==> s[i] != b
    decreases |s|
  {
    if |s| == 0 || s[0] == b then 0 else 1 + IndexOf(s[1..], b)
  }

  /** First occurrence of `b` in `a + [b] + c` when `a` lacks it. */
  lemma {:induction false} IndexOfPrefix(a: Bytes, b: byte, c: Bytes)
    requires b !in a
    ensures IndexOf(a + [b] + c, b) == |a|
    decreases |a|
  {
    if |a| > 0 {
      assert (a + [b] + c)[1..] == a[1..] + [b] + c;
      IndexOfPrefix(a[1..], b, c);
    }
  }

  predicate IsAscii(s: Bytes) {
    forall i :: 0 <= i < |s| ==> s[i] < 0x80
  }

  /** The bytes of an ASCII string. */
  function Ascii(s: string): (r: Bytes)
    requires forall i :: 0 <= i < |s| ==> s[i] as int < 0x80
    ensures |r| == |s| && forall i :: 0 <= i < |s| ==> r[i] as int == s[i] as int
  {
    seq(|s|, i requires 0 <= i < |s| => s[i] as int as byte)
  }
}
