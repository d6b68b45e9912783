/**
 * Shared vocabulary of the book service: Java's nullable references as Option,
 * the service's failure signal as Result, the HTTP status codes the controller
 * and the exception handler use, `String.isBlank` and the decimal rendering that
 * Java's string concatenation applies to a `Long`.
 */
module Common {

  /** A Java reference that may be null. */
  datatype Option<T> = None | Some(value: T)

  /**
   * The two kinds of failure the service and the exception handler tell apart:
   * a `BookNotFoundException`, and any other exception that reaches the
   * catch-all handler, each with its message.
   */
  datatype Error = NotFound(message: string) | Unexpected(message: string)

  /** The outcome of a service call: a value, or the exception it throws. */
  datatype Result<T> = Ok(value: T) | Err(error: Error)

  const HTTP_OK: int := 200
  const HTTP_CREATED: int := 201
  const HTTP_NOT_FOUND: int := 404
  const HTTP_INTERNAL_SERVER_ERROR: int := 500

  /**
   * Java's `Character.isWhitespace` on a code point: the Unicode space, line
   * and paragraph separators except the three non-breaking spaces (U+00A0,
   * U+2007, U+202F), and the control characters U+0009..U+000D, U+001C..U+001F.
   */
  predicate IsWhitespace(c: char): (r: bool)
    ensures c == ' ' || c == '\t' || c == '\n' || c == '\r' ==> r
    ensures c as int == 0xA0 || c as int == 0x2007 || c as int == 0x202F ==> !r
    ensures '0' <= c <= '9' || 'a' <= c <= 'z' || 'A' <= c <= 'Z' ==> !r
  {
    var n := c as int;
    (0x09 <= n <= 0x0D) || (0x1C <= n <= 0x20) || n == 0x1680
    || (0x2000 <= n <= 0x200A && n != 0x2007)
    || n == 0x2028 || n == 0x2029 || n == 0x205F || n == 0x3000
  }

  /** Java's `String.isBlank`: empty, or white space only. */
  predicate IsBlank(s: string): (r: bool)
    ensures |s| == 0 ==> r
    ensures |s| > 0 ==> (r <==> IsWhitespace(s[0]) && IsBlank(s[1..]))
    decreases |s|
  {
    forall i :: 0 <= i < |s| ==> IsWhitespace(s[i])
  }

  /** The test `s != null && !s.isBlank()` that search and update apply to a field. */
  predicate HasText(s: Option<string>): (r: bool)
    ensures s.None? ==> !r
    ensures r ==> |s.value| > 0
    ensures s.Some? && |s.value| > 0 && !IsWhitespace(s.value[0]) ==> r
  {
    s.Some? && !IsBlank(s.value)
  }

  /** Decimal digit `d` as a character. */
  function Digit(d: nat): (c: char)
    requires d < 10
    ensures '0' <= c <= '9'
  {
    "0123456789"[d]
  }

  /** Decimal rendering of a non-negative number, without leading zeros. */
  function NatString(n: nat): (s: string)
    ensures |s| >= 1
    ensures forall i :: 0 <= i < |s| ==> '0' <= s[i] <= '9'
    ensures n < 10 <==> |s| == 1
    decreases n
  {
    if n < 10 then [Digit(n)] else NatString(n / 10) + [Digit(n % 10)]
  }

  /** `Long.toString(n)`, which `"..." + n` applies to a boxed `Long`. */
  function DecimalString(n: int): (s: string)
    ensures |s| >= 1
    ensures s[0] == '-' <==> n < 0
    ensures forall i :: 1 <= i < |s| ==> '0' <= s[i] <= '9'
  {
    if n < 0 then "-" + NatString(-n) else NatString(n)
  }

  /** `"..." + x` for a nullable `Long`: the literal text "null" when it is null. */
  function NullableLongString(x: Option<int>): (s: string)
    ensures |s| >= 1
    ensures s[0] == 'n' <==> x.None?
  {
    match x
    case None => "null"
    case Some(n) => DecimalString(n)
  }

  lemma DigitInjective(a: nat, b: nat)
    requires a < 10 && b < 10 && Digit(a) == Digit(b)
    ensures a == b
  {
  }

  /** Distinct numbers render as distinct digit strings. */
  lemma {:induction false} NatStringInjective(a: nat, b: nat)
    requires NatString(a) == NatString(b)
    ensures a == b
    decreases a
  {
    if a < 10 {
      DigitInjective(a, b);
    } else {
      var sa, sb := NatString(a), NatString(b);
      assert sa == NatString(a / 10) + [Digit(a % 10)];
      assert sb == NatString(b / 10) + [Digit(b % 10)];
      assert sa[..|sa| - 1] == NatString(a / 10);
      assert sb[..|sb| - 1] == NatString(b / 10);
      NatStringInjective(a / 10, b / 10);
      assert sa[|sa| - 1] == Digit(a % 10) && sb[|sb| - 1] == Digit(b % 10);
      DigitInjective(a % 10, b % 10);
    }
  }

  /** `Long.toString` loses no information: the text determines the number. */
  lemma DecimalStringInjective(a: int, b: int)
    requires DecimalString(a) == DecimalString(b)
    ensures a == b
  {
    if a < 0 {
      assert NatString(-a) == DecimalString(a)[1..] == DecimalString(b)[1..] == NatString(-b);
      NatStringInjective(-a, -b);
    } else {
      NatStringInjective(a, b);
    }
  }

  /** The same for a nullable `Long`: the text determines the value, null included. */
  lemma NullableLongStringInjective(a: Option<int>, b: Option<int>)
    requires NullableLongString(a) == NullableLongString(b)
    ensures a == b
  {
    if a.Some? {
      DecimalStringInjective(a.value, b.value);
    }
  }
}
