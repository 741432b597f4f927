/**
 * Decimal parsing of `long` values and radix formatting into a fixed
 * character buffer (`Numbers.parse`, `Numbers.appendLong`).
 */
module Numbers {
  import opened JavaLang

  /** The digit table `DIGITS`: '0'..'9' then upper-case 'A'..'F'. */
  function DigitChar(d: nat): (c: char16)
    requires d < 16
    ensures Digit(c, 16) == d
  {
    if d < 10 then (0x30 + d) as char16 else (0x41 + d - 10) as char16
  }

  /** The length of the instance buffer `num` in the source. */
  const SOURCE_BUFFER_LENGTH: nat := 64

  /** The buffer length every `long` in every radix 2..16 needs: 64 digits and a sign. */
  const BUFFER_LENGTH: nat := 65

  /** The longest decimal `long`: a sign and 19 digits. */
  const DECIMAL_LENGTH: nat := 20

  // ---------------------------------------------------------------------------
  // Parsing

  /** `s` with its leading whitespace removed. */
  function SkipWhitespace(s: seq<char16>): (t: seq<char16>)
    ensures |t| <= |s|
    ensures t == [] || !IsWhitespace(t[0])
  {
    if s == [] || !IsWhitespace(s[0]) then s else SkipWhitespace(s[1..])
  }

  predicate AllDecimalDigits(ds: seq<char16>)
  {
    forall k :: 0 <= k < |ds| ==> Digit(ds[k], 10) != -1
  }

  /** The value of a string of decimal digits, most significant first. */
  function DecimalValue(ds: seq<char16>): (v: nat)
    requires AllDecimalDigits(ds)
  {
    if ds == [] then 0
    else DecimalValue(ds[..|ds| - 1]) * 10 + Digit(ds[|ds| - 1], 10)
  }

  /**
   * What `parseLong` promises: optional leading whitespace, at most one '-',
   * then one or more decimal digits and nothing else, whose value (negated
   * after a '-') lies in the `long` range. Everything else is rejected.
   */
  function ParseLongSpec(s: seq<char16>): Result<int>
  {
    var t := SkipWhitespace(s);
    var negative := |t| > 0 && t[0] == MINUS;
    var ds := if negative then t[1..] else t;
    if ds == [] || !AllDecimalDigits(ds) then Err(NumberFormat)
    else
      var v := if negative then -(DecimalValue(ds) as int) else DecimalValue(ds) as int;
      if IsLong(v) then Ok(v) else Err(NumberFormat)
  }

  lemma {:induction false} DecimalValuePrefix(ds: seq<char16>, k: nat)
    requires AllDecimalDigits(ds) && k <= |ds|
    ensures DecimalValue(ds[..k]) <= DecimalValue(ds)
    decreases |ds|
  {
    if k < |ds| {
      var init := ds[..|ds| - 1];
      assert init[..k] == ds[..k];
      assert AllDecimalDigits(init);
      DecimalValuePrefix(init, k);
      assert DecimalValue(ds) == DecimalValue(init) * 10 + Digit(ds[|ds| - 1], 10);
    } else {
      assert ds[..k] == ds;
    }
  }

  /**
   * `Numbers.parse` with radix 10 over `s[offset..offset + length]`: skips
   * whitespace, takes one '-', then accumulates the digits as a negative
   * number so that `Long.MIN_VALUE` is reachable, throwing on any non-digit
   * and on overflow.
   */
  method ParseLong(s: seq<char16>, offset: nat, length: nat) returns (r: Result<int>)
    requires offset + length <= |s|
    ensures r == ParseLongSpec(s[offset..offset + length])
  {
    var end := offset + length;
    var i := SkipLeading(s, offset, end);
    r := ParseSigned(s, i, end);
    assert SkipWhitespace(s[i..end]) == s[i..end];
  }

  /** The whitespace loop at the head of `Numbers.parse`. */
  method SkipLeading(s: seq<char16>, offset: nat, end: nat) returns (i: nat)
    requires offset <= end <= |s|
    ensures offset <= i <= end && s[i..end] == SkipWhitespace(s[offset..end])
  {
    i := offset;
    while i < end && IsWhitespace(s[i])
      invariant offset <= i <= end
      invariant SkipWhitespace(s[offset..end]) == SkipWhitespace(s[i..end])
    {
      assert s[i..end][1..] == s[i + 1..end];
      i := i + 1;
    }
  }

  /** The rest of `Numbers.parse` once the whitespace is skipped: one '-',
      then the digits. */
  method ParseSigned(s: seq<char16>, i: nat, end: nat) returns (r: Result<int>)
    requires i <= end <= |s| && (i == end || !IsWhitespace(s[i]))
    ensures r == ParseLongSpec(s[i..end])
  {
    ghost var t := s[i..end];
    assert SkipWhitespace(t) == t;
    var negative := i < end && s[i] == MINUS;
    var first := if negative then i + 1 else i;
    assert s[first..end] == if negative then t[1..] else t;
    if first >= end {
      return Err(NumberFormat);
    }
    var acc := AccumulateNegative(s, first, end);
    if acc.Err? {
      return Err(NumberFormat);
    }
    var result := acc.value;
    if !negative {
      result := Wrap64(-result);
      if result < 0 {
        return Err(NumberFormat);
      }
    }
    return Ok(result);
  }

  /**
   * The digit loop of `Numbers.parse`: the value is built as a negative
   * number, `result * 10 - digit`, and rejected as soon as it would pass
   * `Long.MIN_VALUE` (the `max > result` test and the wrap-around test).
   */
  method AccumulateNegative(s: seq<char16>, first: nat, end: nat) returns (r: Result<int>)
    requires first < end <= |s|
    ensures r.Err? <==> !AllDecimalDigits(s[first..end]) || DecimalValue(s[first..end]) > -LONG_MIN
    ensures r.Ok? ==> r.value == -(DecimalValue(s[first..end]) as int)
  {
    var max := JavaDiv(LONG_MIN, 10);
    assert max == -922_337_203_685_477_580;
    var result := 0;
    var i := first;
    while i < end
      invariant first <= i <= end
      invariant AllDecimalDigits(s[first..i])
      invariant result == -(DecimalValue(s[first..i]) as int)
      invariant LONG_MIN <= result <= 0
    {
      var digit := Digit(s[i], 10);
      if digit == -1 {
        NotAllDigits(s, first, i, end);
        return Err(NumberFormat);
      }
      PrefixStep(s, first, i);
      AccumulateStep(result, digit);
      if max > result {
        OverflowAt(s, first, i + 1, end);
        return Err(NumberFormat);
      }
      var next := Wrap64(result * 10 - digit);
      if next > result {
        OverflowAt(s, first, i + 1, end);
        return Err(NumberFormat);
      }
      result := next;
      i := i + 1;
    }
    assert s[first..i] == s[first..end];
    return Ok(result);
  }

  /** One digit more on the negative accumulator: below `Long.MIN_VALUE / 10`
      it overflows for sure, otherwise it wraps around exactly when it passes
      `Long.MIN_VALUE`. */
  lemma AccumulateStep(result: int, digit: int)
    requires LONG_MIN <= result <= 0 && 0 <= digit <= 9
    ensures -922_337_203_685_477_580 > result ==> -result * 10 + digit > -LONG_MIN
    ensures -922_337_203_685_477_580 <= result ==>
      (Wrap64(result * 10 - digit) > result <==> result * 10 - digit < LONG_MIN) &&
      (result * 10 - digit >= LONG_MIN ==> Wrap64(result * 10 - digit) == result * 10 - digit)
  {
  }

  /** A char that is not a digit spoils every longer stretch. */
  lemma NotAllDigits(s: seq<char16>, first: nat, i: nat, end: nat)
    requires first <= i < end <= |s| && Digit(s[i], 10) == -1
    ensures !AllDecimalDigits(s[first..end])
  {
    assert s[first..end][i - first] == s[i];
  }

  /** One more digit: the value of the stretch is ten times the old one plus the digit. */
  lemma PrefixStep(s: seq<char16>, first: nat, i: nat)
    requires first <= i < |s| && AllDecimalDigits(s[first..i]) && Digit(s[i], 10) != -1
    ensures AllDecimalDigits(s[first..i + 1])
    ensures DecimalValue(s[first..i + 1]) == DecimalValue(s[first..i]) * 10 + Digit(s[i], 10)
  {
    assert s[first..i + 1][..i - first] == s[first..i];
  }

  /** An overflowing stretch of digits makes the whole of them overflow. */
  lemma OverflowAt(s: seq<char16>, first: nat, k: nat, end: nat)
    requires first < k <= end <= |s| && AllDecimalDigits(s[first..k]) && DecimalValue(s[first..k]) > -LONG_MIN
    ensures !AllDecimalDigits(s[first..end]) || DecimalValue(s[first..end]) > -LONG_MIN
  {
    assert s[first..end][..k - first] == s[first..k];
    OverflowIsFinal(s[first..end], k - first);
  }

  /** Once a digit prefix exceeds 2^63, the whole input is rejected. */
  lemma OverflowIsFinal(ds: seq<char16>, k: nat)
    requires 0 < k <= |ds|
    requires AllDecimalDigits(ds[..k])
    requires DecimalValue(ds[..k]) > -LONG_MIN
    ensures !AllDecimalDigits(ds) || (DecimalValue(ds) > -LONG_MIN)
  {
    if AllDecimalDigits(ds) {
      DecimalValuePrefix(ds, k);
    }
  }

  // ---------------------------------------------------------------------------
  // Formatting

  /** The radix `appendLong` uses: anything outside 2..16 becomes 10. */
  function EffectiveRadix(radix: int): (r: int)
    ensures 2 <= r <= 16
    ensures 2 <= radix <= 16 ==> r == radix
    ensures !(2 <= radix <= 16) ==> r == 10
  {
    if radix < 2 || radix > 16 then 10 else radix
  }

  /** The digits of `m` in `radix`, most significant first, without leading zeros. */
  function Digits(m: nat, radix: int): (ds: seq<char16>)
    requires 2 <= radix <= 16
    ensures |ds| >= 1
    decreases m
  {
    if m < radix then [DigitChar(m)]
    else Digits(m / radix, radix) + [DigitChar(m % radix)]
  }

  /** The text `appendLong(v, radix)` produces. */
  function Render(v: int, radix: int): (s: seq<char16>)
    requires 2 <= radix <= 16
  {
    var m: nat := if v < 0 then -v else v;
    (if v < 0 then [MINUS] else []) + Digits(m, radix)
  }

  function Pow(b: nat, e: nat): nat
  {
    if e == 0 then 1 else b * Pow(b, e - 1)
  }

  /** `m` has at most `k` digits in `radix` exactly when `m < radix^k` (zero has one digit). */
  lemma {:induction false} DigitsLength(m: nat, radix: int, k: nat)
    requires 2 <= radix <= 16
    requires m >= 1 || k >= 1
    ensures |Digits(m, radix)| <= k <==> m < Pow(radix, k)
    decreases m
  {
    var p := Pow(radix, k);
    if m < radix {
      assert |Digits(m, radix)| == 1;
      if k >= 1 {
        assert Pow(radix, 1) == radix;
        PowMonotone(radix, 1, k);
      } else {
        assert p == 1;
      }
    } else if k == 0 {
      assert p == 1;
    } else {
      var q := m / radix;
      DigitsStep(m, radix);
      var p' := Pow(radix, k - 1);
      assert p == radix * p';
      DigitsLength(q, radix, k - 1);
      DivBelow(m, radix, p');
    }
  }

  /** One more digit than the quotient by the radix. */
  lemma DigitsStep(m: nat, radix: int)
    requires 2 <= radix <= 16 && m >= radix
    ensures 1 <= m / radix < m
    ensures |Digits(m, radix)| == |Digits(m / radix, radix)| + 1
  {
    DivShrinks(m, radix);
  }

  /** Dividing by the radix leaves a positive, smaller quotient. */
  lemma DivShrinks(m: nat, radix: int)
    requires 2 <= radix && m >= radix
    ensures 1 <= m / radix < m
  {
    var q := m / radix;
    DivBelow(m, radix, 1);
    assert q * radix <= m;
    MulTwice(radix, q);
  }

  lemma MulTwice(r: int, q: int)
    requires r >= 2 && q >= 1
    ensures q * r > q
  {
  }

  /** `m / r < p` exactly when `m < r * p`. */
  lemma DivBelow(m: nat, r: nat, p: nat)
    requires r >= 1
    ensures m / r < p <==> m < r * p
  {
    var q := m / r;
    assert m == q * r + m % r;
    if q < p {
      assert q + 1 <= p;
      assert r * (q + 1) <= r * p;
    } else {
      assert r * q >= r * p;
    }
  }

  lemma MulGrows(b: nat, x: nat)
    requires b >= 1
    ensures b * x >= x
  {
  }

  lemma MulAssoc(a: int, x: int, y: int)
    ensures a * (x * y) == (a * x) * y
  {
  }

  lemma {:induction false} PowMonotone(b: nat, i: nat, j: nat)
    requires b >= 1 && i <= j
    ensures Pow(b, i) <= Pow(b, j)
    decreases j
  {
    if i < j {
      PowMonotone(b, i, j - 1);
      MulGrows(b, Pow(b, j - 1));
    }
  }

  /**
   * Every `long` in every radix 2..16 renders into 64 chars, except
   * `Long.MIN_VALUE` in radix 2, which needs 65: 64 binary digits and '-'.
   */
  lemma RenderLength(v: int, radix: int)
    requires IsLong(v) && 2 <= radix <= 16
    ensures v == LONG_MIN && radix == 2 ==> |Render(v, radix)| == 65
    ensures !(v == LONG_MIN && radix == 2) ==> |Render(v, radix)| <= 64
  {
    var m: nat := if v < 0 then -v else v;
    Pow2Value();
    if v == LONG_MIN && radix == 2 {
      DigitsLength(m, 2, 64);
      DigitsLength(m, 2, 63);
      assert Pow(2, 64) == 2 * Pow(2, 63);
    } else if radix == 2 {
      DigitsLength(m, 2, 63);
    } else {
      PowBase(radix, 63);
      DigitsLength(m, radix, 63);
    }
  }

  lemma {:induction false} PowAdd(b: nat, i: nat, j: nat)
    ensures Pow(b, i + j) == Pow(b, i) * Pow(b, j)
    decreases i
  {
    if i > 0 {
      PowAdd(b, i - 1, j);
      MulAssoc(b, Pow(b, i - 1), Pow(b, j));
    }
  }

  lemma Pow2Value()
    ensures Pow(2, 63) == 0x8000_0000_0000_0000
    ensures Pow(2, 64) == 0x1_0000_0000_0000_0000
  {
    assert Pow(2, 8) == 0x100;
    assert Pow(2, 7) == 0x80;
    PowAdd(2, 8, 8);
    PowAdd(2, 16, 16);
    PowAdd(2, 32, 16);
    PowAdd(2, 48, 8);
    PowAdd(2, 56, 7);
    PowAdd(2, 63, 1);
  }

  lemma {:induction false} PowBase(b: nat, e: nat)
    requires b >= 3
    ensures Pow(b, e) >= Pow(2, e) && (e >= 1 ==> Pow(b, e) > Pow(2, e))
    decreases e
  {
    if e > 0 {
      PowBase(b, e - 1);
      PowMonotone(2, 0, e - 1);
      MulBeyond(b, Pow(b, e - 1), Pow(2, e - 1));
    }
  }

  lemma MulBeyond(b: nat, x: nat, y: nat)
    requires b >= 3 && x >= y >= 1
    ensures b * x > 2 * y
  {
  }

  /**
   * As written, the 64-char buffer `num` is one char short for
   * `Long.MIN_VALUE` in radix 2, so `appendLong` throws there.
   */
  lemma SourceBufferTooShort()
    ensures |Render(LONG_MIN, 2)| == SOURCE_BUFFER_LENGTH + 1
  {
    RenderLength(LONG_MIN, 2);
  }

  /** With 65 chars, every `long` in every radix fits. */
  lemma RenderFitsBuffer(v: int, radix: int)
    requires IsLong(v)
    ensures |Render(v, EffectiveRadix(radix))| <= BUFFER_LENGTH
  {
    RenderLength(v, EffectiveRadix(radix));
  }

  /** In radix 10 every `long` fits in 20 chars, so the source's 64-char
      buffer is enough for the decimal overloads. */
  lemma DecimalFits(v: int)
    requires IsLong(v)
    ensures |Render(v, 10)| <= DECIMAL_LENGTH <= SOURCE_BUFFER_LENGTH
  {
    var m: nat := if v < 0 then -v else v;
    Pow10Value();
    DigitsLength(m, 10, 19);
  }

  lemma Pow10Value()
    ensures Pow(10, 19) == 10_000_000_000_000_000_000
  {
    assert Pow(10, 2) == 100;
    PowAdd(10, 2, 2);
    PowAdd(10, 4, 4);
    PowAdd(10, 8, 8);
    PowAdd(10, 16, 2);
    PowAdd(10, 18, 1);
  }

  /** The first char of `Digits(m, radix)` is '0' only for `m == 0`. */
  lemma {:induction false} NoLeadingZero(m: nat, radix: int)
    requires 2 <= radix <= 16
    ensures Digits(m, radix)[0] == DIGIT_ZERO <==> m == 0
    decreases m
  {
    if m >= radix {
      DigitsStep(m, radix);
      NoLeadingZero(m / radix, radix);
      assert Digits(m, radix)[0] == Digits(m / radix, radix)[0];
    }
  }

  /**
   * The shape of what `appendLong` writes: a '-' exactly for negative values,
   * then one or more digits from the table, the first of them '0' only when
   * the value is zero.
   */
  lemma RenderShape(v: int, radix: int)
    requires 2 <= radix <= 16
    ensures var s := Render(v, radix);
      && |s| >= 1
      && (s[0] == MINUS <==> v < 0)
      && (v < 0 ==> |s| >= 2)
      && (forall k :: (if v < 0 then 1 else 0) <= k < |s| ==> 0 <= Digit(s[k], 16) < radix)
      && (s[if v < 0 then 1 else 0] == DIGIT_ZERO <==> v == 0)
  {
    var m: nat := if v < 0 then -v else v;
    DigitsInRadix(m, radix);
    NoLeadingZero(m, radix);
    var s := Render(v, radix);
    var lead := if v < 0 then 1 else 0;
    assert s[lead..] == Digits(m, radix);
    forall k | lead <= k < |s|
      ensures 0 <= Digit(s[k], 16) < radix
    {
      assert s[k] == Digits(m, radix)[k - lead];
    }
  }

  /** Every char of `Digits(m, radix)` is a digit of that radix. */
  lemma {:induction false} DigitsInRadix(m: nat, radix: int)
    requires 2 <= radix <= 16
    ensures forall k :: 0 <= k < |Digits(m, radix)| ==> 0 <= Digit(Digits(m, radix)[k], 16) < radix
    decreases m
  {
    if m >= radix {
      DigitsStep(m, radix);
      DigitsInRadix(m / radix, radix);
    }
  }

  /** Read back in decimal, the decimal digits of `m` give `m`. */
  lemma {:induction false} DecimalDigitsValue(m: nat)
    ensures AllDecimalDigits(Digits(m, 10))
    ensures DecimalValue(Digits(m, 10)) == m
    decreases m
  {
    var ds := Digits(m, 10);
    if m < 10 {
      assert ds[..0] == [];
    } else {
      DigitsStep(m, 10);
      DecimalDigitsValue(m / 10);
      assert ds[..|ds| - 1] == Digits(m / 10, 10);
    }
  }

  /** `parseLong` reads back what `appendLong(v, 10)` writes, for every `long`. */
  lemma ParseRenderRoundTrip(v: int)
    requires IsLong(v)
    ensures ParseLongSpec(Render(v, 10)) == Ok(v)
  {
    var m: nat := if v < 0 then -v else v;
    var s := Render(v, 10);
    DecimalDigitsValue(m);
    assert SkipWhitespace(s) == s;
    if v < 0 {
      assert s[1..] == Digits(m, 10);
    } else {
      assert s == Digits(m, 10);
      assert s[0] != MINUS;
    }
  }

  /** One step of the digit loop: `q = v / radix` and the table index `radix * q - v`. */
  lemma NegativeDigit(w: int, r: int)
    requires w <= 0 && 2 <= r
    ensures JavaDiv(w, r) == -((-w) / r)
    ensures r * JavaDiv(w, r) - w == (-w) % r
    ensures -w < r ==> JavaDiv(w, r) == 0 && (-w) % r == -w
  {
    var m := -w;
    assert m == r * (m / r) + m % r;
  }

  /** `Numbers.getInstance()`: the per-thread formatter and its digit buffer `num`. */
  class Formatter {
    const num: array<char16>

    constructor (bufferLength: nat)
      ensures num.Length == bufferLength && fresh(num)
    {
      num := new char16[bufferLength];
    }

    /**
     * `appendLong`: fills `num` backwards from its end with the digits of
     * `v`, working on the negative magnitude so that `Long.MIN_VALUE` needs
     * no special case, then the sign; returns the chars the caller appends.
     * Running out of `num` is the source's index-out-of-bounds exception.
     */
    method AppendLong(v: int, radix: int) returns (ok: bool, out: seq<char16>)
      requires IsLong(v)
      modifies num
      ensures ok <==> |Render(v, EffectiveRadix(radix))| <= num.Length
      ensures ok ==> out == Render(v, EffectiveRadix(radix))
      ensures !ok ==> out == []
    {
      var r := EffectiveRadix(radix);
      var negative := v < 0;
      var w := v;
      if !negative {
        w := -v;
      }
      var cursor;
      ok, cursor := FillDigits(w, r);
      var bufLen := num.Length;
      if !ok {
        return false, [];
      }
      if negative {
        if cursor == 0 {
          return false, [];
        }
        cursor := cursor - 1;
        num[cursor] := MINUS;
        assert num[cursor..bufLen] == [MINUS] + num[cursor + 1..bufLen];
      }
      return true, num[cursor..bufLen];
    }

    /** `num[--cursor] = c`: one more char in front of the chars written. */
    method Prepend(cursor: int, c: char16)
      requires 0 < cursor <= num.Length
      modifies num
      ensures num[cursor - 1..] == [c] + old(num[cursor..])
    {
      num[cursor - 1] := c;
      assert num[cursor - 1..] == [c] + num[cursor..];
    }

    /** The `do { ... } while (v != 0)` loop of `appendLong`: the digits of
        the magnitude `-w0`, written backwards from the end of `num`. */
    method FillDigits(w0: int, r: int) returns (ok: bool, cursor: nat)
      requires w0 <= 0 && 2 <= r <= 16
      modifies num
      ensures ok <==> |Digits(-w0, r)| <= num.Length
      ensures ok ==> cursor <= num.Length && num[cursor..] == Digits(-w0, r)
    {
      var w := w0;
      cursor := num.Length;
      var first := true;
      ghost var written: seq<char16> := [];
      while first || w != 0
        invariant w <= 0 && 0 <= cursor <= num.Length
        invariant first ==> cursor == num.Length && w == w0
        invariant num[cursor..] == written
        invariant Digits(-w0, r) == Pending(-w, r, first) + written
        decreases -w + (if first then 1 else 0)
      {
        if cursor == 0 {
          return false, 0;
        }
        var q, d := DivideStep(w, r, first);
        ConcatAssociates(Pending(-q, r, false), [DigitChar(d)], written);
        Prepend(cursor, DigitChar(d));
        written := [DigitChar(d)] + written;
        cursor := cursor - 1;
        w := q;
        first := false;
      }
      return true, cursor;
    }
  }

  /** `q = v / radix` and the digit `radix * q - v` of one turn of the
      loop of `appendLong`. */
  method DivideStep(w: int, r: int, ghost first: bool) returns (q: int, d: int)
    requires w <= 0 && 2 <= r <= 16 && (first || w != 0)
    ensures 0 <= d < r && q <= 0 && (w < 0 ==> q > w) && (w == 0 ==> q == 0)
    ensures Pending(-w, r, first) == Pending(-q, r, false) + [DigitChar(d)]
  {
    q := JavaDiv(w, r);
    d := r * q - w;
    DigitTurn(w, r);
  }

  /** The digits the loop of `appendLong` has still to write for the
      magnitude `mag`: all of them before the first turn, none once the
      magnitude is used up. */
  function Pending(mag: nat, r: int, first: bool): seq<char16>
    requires 2 <= r <= 16
  {
    if first || mag != 0 then Digits(mag, r) else []
  }

  /** One turn of the digit loop: `radix * q - v` is the last digit of the
      magnitude, and `q` is the negated rest. */
  lemma DigitTurn(w: int, r: int)
    requires w <= 0 && 2 <= r <= 16
    ensures var q := JavaDiv(w, r);
      0 <= r * q - w < r && q <= 0 && (q > w || w == 0) &&
      Digits(-w, r) == Pending(-q, r, false) + [DigitChar(r * q - w)]
  {
    var m: nat := -w;
    NegativeDigit(w, r);
    if m >= r {
      DigitsStep(m, r);
    } else {
      assert m / r == 0;
    }
  }
}
