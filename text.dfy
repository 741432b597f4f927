/**
 * `Text`: a growable char buffer (a `CharArrayWriter`) with the append
 * overloads the tables use, the prefix test `startsWith`, and the
 * non-copying `CharSubSequence` view.
 */
module Text {
  import opened JavaLang
  import Numbers

  /** The four chars "null" that appending a null reference writes. */
  const NULL_TEXT: seq<char16> := [0x6E, 0x75, 0x6C, 0x6C]

  /**
   * `Text.startsWith(cs1, cs2)`: false when `cs1` is shorter than `cs2`,
   * otherwise whether the first `|cs2|` chars agree.
   */
  method StartsWith(cs1: seq<char16>, cs2: seq<char16>) returns (b: bool)
    ensures b <==> |cs1| >= |cs2| && cs1[..|cs2|] == cs2
  {
    if |cs1| >= |cs2| {
      var n := |cs2|;
      var i := 0;
      while i < n
        invariant 0 <= i <= n
        invariant cs1[..i] == cs2[..i]
      {
        if cs1[i] != cs2[i] {
          return false;
        }
        i := i + 1;
      }
      assert cs2[..n] == cs2;
      return true;
    }
    return false;
  }

  /** The value `StartsWith` decides, for use in functions and lemmas. */
  predicate IsPrefix(cs1: seq<char16>, cs2: seq<char16>)
  {
    |cs1| >= |cs2| && cs1[..|cs2|] == cs2
  }

  /**
   * `CharSubSequence`: a window `[start, end)` on a shared char buffer;
   * nothing is copied, and a nested window is again a window on `buf`.
   */
  datatype CharSubSequence = CharSubSequence(buf: seq<char16>, start: int, end: int)
  {
    predicate Valid()
    {
      0 <= start <= end <= |buf|
    }

    /** The chars the window shows. */
    function Contents(): seq<char16>
      requires Valid()
    {
      buf[start..end]
    }

    function Length(): (n: int)
      requires Valid()
      ensures n == |Contents()|
    {
      end - start
    }

    function CharAt(index: int): (c: char16)
      requires Valid() && 0 <= index < Length()
      ensures c == Contents()[index]
    {
      buf[start + index]
    }

    function SubSequence(s: int, e: int): (r: CharSubSequence)
      requires Valid() && 0 <= s <= e <= Length()
      ensures r.Valid() && r.buf == buf
      ensures r.Contents() == Contents()[s..e]
    {
      CharSubSequence(buf, start + s, start + e)
    }
  }

  /** The source's `Text`; `chars` is the written part `buf[0..count)`. */
  class Text {
    var chars: seq<char16>

    constructor (capacity: int)
      ensures chars == []
    {
      chars := [];
    }

    /** `length()`: the number of chars written. */
    function Length(): (n: nat)
      reads this
      ensures n == |chars|
    {
      |chars|
    }

    /** `array()`, `offset()` and `length()` together: a window from offset 0. */
    function AsSubSequence(): (w: CharSubSequence)
      reads this
      ensures w.Valid() && w.start == 0 && w.Contents() == chars
    {
      CharSubSequence(chars, 0, |chars|)
    }

    /** `reset()` of the writer: empties the text. */
    method Reset()
      modifies this
      ensures chars == []
    {
      chars := [];
    }

    /** `append(char)` of the writer. */
    method AppendChar(c: char16)
      modifies this
      ensures chars == old(chars) + [c]
    {
      chars := chars + [c];
    }

    /**
     * `append(CharSequence, start, end)`: "null" for a null sequence,
     * otherwise the WHOLE sequence, char by char; `start` and `end` are
     * ignored (another `Text` is copied in one write, with the same result).
     */
    method AppendCharSequence(csq: Option<seq<char16>>, start: int, end: int)
      modifies this
      ensures csq.None? ==> chars == old(chars) + NULL_TEXT
      ensures csq.Some? ==> chars == old(chars) + csq.value
    {
      if csq.None? {
        chars := chars + NULL_TEXT;
      } else {
        var cs := csq.value;
        var i := 0;
        while i < |cs|
          invariant 0 <= i <= |cs|
          invariant chars == old(chars) + cs[..i]
        {
          AppendChar(cs[i]);
          assert cs[..i + 1] == cs[..i] + [cs[i]];
          i := i + 1;
        }
        assert cs[..i] == cs;
      }
    }

    /**
     * `append(char[], start, end)`: "null" for a null array, otherwise the
     * `end - start` chars from `start`; the writer's range check throws
     * (`ok == false`, nothing written) when that range leaves the array.
     */
    method AppendChars(ca: Option<seq<char16>>, start: int, end: int) returns (ok: bool)
      modifies this
      ensures ok <==> ca.None? || 0 <= start <= end <= |ca.value|
      ensures ca.None? ==> chars == old(chars) + NULL_TEXT
      ensures ca.Some? && ok ==> chars == old(chars) + ca.value[start..end]
      ensures !ok ==> chars == old(chars)
    {
      if ca.None? {
        chars := chars + NULL_TEXT;
        return true;
      }
      var len := end - start;
      if start < 0 || start > |ca.value| || len < 0 || start + len > |ca.value| {
        return false;
      }
      chars := chars + ca.value[start..start + len];
      return true;
    }

    /** `append(char[])`: the whole array. */
    method AppendArray(ca: seq<char16>)
      modifies this
      ensures chars == old(chars) + ca
    {
      var ok := AppendChars(Some(ca), 0, |ca|);
      assert ca[0..|ca|] == ca;
    }

    /** `append(String)`: "null" for a null string, otherwise the string. */
    method AppendString(s: Option<seq<char16>>)
      modifies this
      ensures chars == old(chars) + (if s.None? then NULL_TEXT else s.value)
    {
      if s.None? {
        chars := chars + NULL_TEXT;
      } else {
        chars := chars + s.value;
      }
    }

    /**
     * `append(long, radix)` and, through widening, the byte/short/int
     * overloads: delegates to the formatter's `appendLong`.
     */
    method AppendLong(fmt: Numbers.Formatter, v: int, radix: int) returns (ok: bool)
      requires IsLong(v)
      modifies this, fmt.num
      ensures ok <==> |Numbers.Render(v, Numbers.EffectiveRadix(radix))| <= fmt.num.Length
      ensures ok ==> chars == old(chars) + Numbers.Render(v, Numbers.EffectiveRadix(radix))
      ensures !ok ==> chars == old(chars)
    {
      var out;
      ok, out := fmt.AppendLong(v, radix);
      if ok {
        AppendEach(out);
      }
    }

    /** The closing loop of `appendLong`: `text.append(num[i])` for every
        char the formatter wrote. */
    method AppendEach(cs: seq<char16>)
      modifies this
      ensures chars == old(chars) + cs
    {
      var i := 0;
      while i < |cs|
        invariant 0 <= i <= |cs|
        invariant chars == old(chars) + cs[..i]
      {
        AppendChar(cs[i]);
        ConcatAssociates(old(chars), cs[..i], [cs[i]]);
        assert cs[..i + 1] == cs[..i] + [cs[i]];
        i := i + 1;
      }
      assert cs[..i] == cs;
    }

    /** `append(long)` (and `append(int)`, ...): radix 10. */
    method AppendDecimal(fmt: Numbers.Formatter, v: int) returns (ok: bool)
      requires IsLong(v)
      requires fmt.num.Length >= Numbers.DECIMAL_LENGTH
      modifies this, fmt.num
      ensures ok && chars == old(chars) + Numbers.Render(v, 10)
    {
      Numbers.DecimalFits(v);
      ok := AppendLong(fmt, v, 10);
    }
  }
}
