/**
 * The pieces of the Java platform that the table engine leans on: 16-bit
 * chars, bytes, `Character.isWhitespace`, `Character.digit`, two's-complement
 * wrap-around of `int` and `long`, and Java's truncating division.
 */
module JavaLang {

  /** A Java `char`: one UTF-16 code unit. */
  newtype char16 = c: int | 0 <= c < 0x1_0000

  /** A byte value as the code sees it after masking with 0xff. */
  newtype byte = b: int | 0 <= b < 0x100

  const NEWLINE: char16 := 0x0A
  const SPACE: char16 := 0x20
  const COLON: char16 := 0x3A
  const MINUS: char16 := 0x2D
  const DIGIT_ZERO: char16 := 0x30

  const INT_MIN: int := -0x8000_0000
  const INT_MAX: int := 0x7FFF_FFFF
  const LONG_MIN: int := -0x8000_0000_0000_0000
  const LONG_MAX: int := 0x7FFF_FFFF_FFFF_FFFF

  predicate IsInt(x: int) { INT_MIN <= x <= INT_MAX }
  predicate IsLong(x: int) { LONG_MIN <= x <= LONG_MAX }

  /** Two's-complement wrap-around to 32 bits (an `int` result or `(int)` cast). */
  function Wrap32(x: int): (r: int)
    ensures IsInt(r)
    ensures (r - x) % 0x1_0000_0000 == 0
    ensures IsInt(x) ==> r == x
  {
    var m := (x - INT_MIN) % 0x1_0000_0000;
    m + INT_MIN
  }

  /** Two's-complement wrap-around to 64 bits (a `long` result). */
  function Wrap64(x: int): (r: int)
    ensures IsLong(r)
    ensures (r - x) % 0x1_0000_0000_0000_0000 == 0
    ensures IsLong(x) ==> r == x
  {
    var m := (x - LONG_MIN) % 0x1_0000_0000_0000_0000;
    m + LONG_MIN
  }

  /** Java's `/`: the quotient is truncated toward zero. */
  function JavaDiv(a: int, b: int): (q: int)
    requires b != 0
    ensures a >= 0 && b > 0 ==> q == a / b
    ensures a <= 0 && b > 0 ==> q == -((-a) / b)
  {
    if (a >= 0) == (b > 0) then
      (if a >= 0 then a else -a) / (if b > 0 then b else -b)
    else
      -((if a >= 0 then a else -a) / (if b > 0 then b else -b))
  }

  /** Java's `%`: the remainder takes the sign of the dividend. */
  function JavaRem(a: int, b: int): (r: int)
    requires b != 0
    ensures a == JavaDiv(a, b) * b + r
  {
    a - JavaDiv(a, b) * b
  }

  /** Floor division `Math.floorDiv`, used for `Math.round`. */
  function FloorDiv(a: int, b: int): (q: int)
    requires b != 0
    ensures b > 0 ==> q * b <= a < q * b + b
  {
    if b > 0 then a / b else (-a) / (-b)
  }

  /** `Character.isWhitespace`: Unicode space, line and paragraph separators
      other than the no-break spaces, plus U+0009..U+000D and U+001C..U+001F. */
  predicate IsWhitespace(c: char16)
  {
    (0x09 <= c <= 0x0D) || (0x1C <= c <= 0x20) ||
    c == 0x1680 || (0x2000 <= c <= 0x2006) || (0x2008 <= c <= 0x200A) ||
    c == 0x2028 || c == 0x2029 || c == 0x205F || c == 0x3000
  }

  /** `Character.digit(c, radix)` restricted to the ASCII digits and letters. */
  function Digit(c: char16, radix: int): (d: int)
    ensures -1 <= d
    ensures 2 <= radix ==> d < radix
  {
    var v :=
      if 0x30 <= c <= 0x39 then c as int - 0x30
      else if 0x41 <= c <= 0x5A then c as int - 0x41 + 10
      else if 0x61 <= c <= 0x7A then c as int - 0x61 + 10
      else -1;
    if 0 <= v < radix then v else -1
  }

  /** A reference that may be `null`. */
  datatype Option<T> = None | Some(value: T)

  /** Outcome of an operation that the source may abort by throwing. */
  datatype Result<T> = Ok(value: T) | Err(error: Failure)

  /** The exceptions and failed assertions that end an operation in the source. */
  datatype Failure =
    | NumberFormat          // NumberFormatException from Numbers.parse
    | IndexOutOfBounds      // ArrayIndexOutOfBoundsException
    | AssertionFailed       // util.assertion(false)
    | NullPointer           // NullPointerException

  /** Concatenation regroups freely. */
  lemma ConcatAssociates<T>(a: seq<T>, b: seq<T>, c: seq<T>)
    ensures (a + b) + c == a + (b + c)
  {
  }

  /** A slice of `a + b` that starts past `a` is a slice of `b`. */
  lemma SliceOfTail<T>(a: seq<T>, b: seq<T>, i: int, j: int)
    requires |a| <= i <= j <= |a| + |b|
    ensures (a + b)[i..j] == b[i - |a|..j - |a|]
  {
  }

  /** A slice of `a + b` that ends within `a` is a slice of `a`. */
  lemma SliceOfHead<T>(a: seq<T>, b: seq<T>, i: int, j: int)
    requires 0 <= i <= j <= |a|
    ensures (a + b)[i..j] == a[i..j]
  {
  }

  /** A slice grows by the element just past its end. */
  lemma SliceExtends<T>(s: seq<T>, a: int, b: int)
    requires 0 <= a <= b < |s|
    ensures s[a..b + 1] == s[a..b] + [s[b]]
  {
  }

  /** A slice of a slice is a slice. */
  lemma SliceOfSlice<T>(s: seq<T>, i: int, j: int, a: int, b: int)
    requires 0 <= i <= j <= |s| && 0 <= a <= b <= j - i
    ensures s[i..j][a..b] == s[i + a..i + b]
  {
    forall t | 0 <= t < b - a
      ensures s[i..j][a..b][t] == s[i + a..i + b][t]
    {
    }
  }

  /** A slice of a slice that holds `t` is a slice that holds `t`. */
  lemma SliceInside<T>(s: seq<T>, i: int, j: int, c: seq<T>, a: int, b: int, t: seq<T>)
    requires 0 <= i <= j <= |s| && s[i..j] == c && 0 <= a <= b <= |c| && c[a..b] == t
    ensures s[i + a..i + b] == t
  {
    SliceOfSlice(s, i, j, a, b);
  }

  /** Number of `'\n'` chars in `s`. */
  function CountNewlines(s: seq<char16>): (k: nat)
    ensures k <= |s|
  {
    if s == [] then 0
    else CountNewlines(s[..|s| - 1]) + (if s[|s| - 1] == NEWLINE then 1 else 0)
  }

  /** The number of lines of a text: newlines, plus one for an unterminated last line. */
  function LineCount(s: seq<char16>): nat
    requires |s| > 0
  {
    CountNewlines(s) + (if s[|s| - 1] != NEWLINE then 1 else 0)
  }

  lemma {:induction false} CountNewlinesAppend(a: seq<char16>, b: seq<char16>)
    ensures CountNewlines(a + b) == CountNewlines(a) + CountNewlines(b)
    decreases |b|
  {
    if b == [] {
      assert a + b == a;
    } else {
      CountNewlinesAppend(a, b[..|b| - 1]);
      assert (a + b)[..|a + b| - 1] == a + b[..|b| - 1];
    }
  }

  /** A text without line breaks counts none. */
  lemma {:induction false} CountNewlinesNone(s: seq<char16>)
    requires forall j :: 0 <= j < |s| ==> s[j] != NEWLINE
    ensures CountNewlines(s) == 0
    decreases |s|
  {
    if s != [] {
      CountNewlinesNone(s[..|s| - 1]);
    }
  }

  /** Counting one more char of a prefix adds one exactly when it is a newline. */
  lemma CountNewlinesNext(s: seq<char16>, k: int)
    requires 0 <= k < |s|
    ensures CountNewlines(s[..k + 1]) == CountNewlines(s[..k]) + (if s[k] == NEWLINE then 1 else 0)
  {
    assert s[..k + 1][..k] == s[..k];
  }

  /** Longer prefixes hold at least as many newlines. */
  lemma {:induction false} CountNewlinesMonotone(s: seq<char16>, a: int, b: int)
    requires 0 <= a <= b <= |s|
    ensures CountNewlines(s[..a]) <= CountNewlines(s[..b])
    decreases b - a
  {
    if a < b {
      CountNewlinesNext(s, a);
      CountNewlinesMonotone(s, a + 1, b);
    }
  }

  /** Every line that starts before the end of a text is one of its counted
      lines: a row index taken from the newlines before `i` is below the
      line count. */
  lemma RowBelowLineCount(s: seq<char16>, i: int)
    requires 0 <= i < |s|
    ensures CountNewlines(s[..i]) < LineCount(s)
  {
    assert s[..|s|] == s;
    if s[|s| - 1] == NEWLINE {
      CountNewlinesMonotone(s, i, |s| - 1);
      CountNewlinesNext(s, |s| - 1);
    } else {
      CountNewlinesMonotone(s, i, |s|);
    }
  }

  /** A text with at least one line has at least one line counted. */
  lemma LineCountPositive(s: seq<char16>)
    requires |s| > 0
    ensures LineCount(s) >= 1
  {
    if s[|s| - 1] == NEWLINE {
      assert s == s[..|s| - 1] + [s[|s| - 1]];
      CountNewlinesAppend(s[..|s| - 1], [s[|s| - 1]]);
    }
  }
}
