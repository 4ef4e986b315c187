/** Bytes as the terminal and the file deliver them, the ASCII constants the
    editor compares against, and the decimal rendering that `%d` performs. */
module Ascii {

  /** One byte of input, file content or output, read as unsigned. */
  type Byte = b: int | 0 <= b < 0x100

  const TAB: Byte := 0x09
  const LF: Byte := 0x0A
  const CR: Byte := 0x0D
  const ESC: Byte := 0x1B
  const SPACE: Byte := 0x20
  const DIGIT_ZERO: Byte := 0x30

  datatype Option<T> = None | Some(value: T)

  /** The bytes of an ASCII string literal. */
  function Bytes(s: string): (r: seq<Byte>)
    requires forall i :: 0 <= i < |s| ==> s[i] as int < 0x80
    ensures |r| == |s|
    ensures forall i :: 0 <= i < |s| ==> r[i] == s[i] as int
  {
    seq(|s|, i requires 0 <= i < |s| => s[i] as int)
  }

  /** Appending in two steps is appending the two parts at once. */
  lemma AppendTwice(a: seq<Byte>, s: seq<Byte>, t: seq<Byte>)
    ensures (a + s) + t == a + (s + t)
  {
  }

  /** `n` space bytes. */
  function Spaces(n: nat): (r: seq<Byte>)
    ensures |r| == n
    ensures forall i :: 0 <= i < n ==> r[i] == SPACE
  {
    seq(n, _ => SPACE)
  }

  predicate IsDigit(b: Byte) {
    DIGIT_ZERO <= b <= DIGIT_ZERO + 9
  }

  /** What `printf("%d", n)` writes for a non-negative `n`. */
  function Decimal(n: nat): (r: seq<Byte>)
    ensures 1 <= |r|
    ensures forall i :: 0 <= i < |r| ==> IsDigit(r[i])
    ensures r[0] == DIGIT_ZERO ==> n == 0
    decreases n
  {
    if n < 10 then [DIGIT_ZERO + n] else Decimal(n / 10) + [DIGIT_ZERO + n % 10]
  }

  /** The number a string of decimal digits denotes, most significant first. */
  function DigitsValue(s: seq<Byte>): nat
    requires forall i :: 0 <= i < |s| ==> IsDigit(s[i])
  {
    if s == [] then 0
    else
      assert IsDigit(s[|s| - 1]);
      DigitsValue(s[..|s| - 1]) * 10 + (s[|s| - 1] - DIGIT_ZERO)
  }

  /** Reading the digits back gives the number that was formatted. */
  lemma {:induction false} DecimalValue(n: nat)
    ensures DigitsValue(Decimal(n)) == n
    decreases n
  {
    if n >= 10 {
      var d := Decimal(n);
      assert d[..|d| - 1] == Decimal(n / 10);
      DecimalValue(n / 10);
    }
  }
}
