/**
 * The word list: a text resource of words, one per line, that `read`
 * splits into rows by recording where each line starts (`offsets`) and how
 * many chars it holds (`lengths`). Column 0 of the table shows the word,
 * column 1 its length in decimal. A leading byte order mark is skipped, and
 * `update` reads the resource only on its first call.
 */
module WordList {
  import opened JavaLang
  import Numbers
  import Text
  import ProcFS

  /** U+FEFF, the byte order mark as a decoded char. */
  const BOM: char16 := 0xFEFF

  /** One row of the list: where its word starts and how many chars it has. */
  datatype Row = Row(offset: int, length: int)

  /** The rows closed by line breaks so far, and where the open row starts. */
  datatype Scanned = Scanned(rows: seq<Row>, start: int)

  /**
   * The loop of `read` over `text[from..i]`: each line break closes the
   * open row and opens the next one right after the break. The source
   * records the closed row's length as `i - 1 - start`, one short of the
   * chars before the break; `corrected` records `i - start` instead.
   */
  function Scan(text: seq<char16>, from: int, i: int, corrected: bool): (s: Scanned)
    requires 0 <= from <= i <= |text|
    ensures from <= s.start <= i
    decreases i
  {
    if i == from then Scanned([], from)
    else
      var s := Scan(text, from, i - 1, corrected);
      if text[i - 1] == NEWLINE then
        Scanned(s.rows + [Row(s.start, if corrected then i - 1 - s.start else i - 2 - s.start)], i)
      else s
  }

  /** The rows `read` lays out for `text` after skipping `from` chars: the
      closed rows, then the open row up to the end when the text does not
      end with a line break. */
  function Layout(text: seq<char16>, from: int, corrected: bool): seq<Row>
    requires 0 <= from <= |text| && |text| > 0
  {
    var s := Scan(text, from, |text|, corrected);
    if text[|text| - 1] != NEWLINE then s.rows + [Row(s.start, |text| - s.start)] else s.rows
  }

  /** The closing check of `read`: the last row ends at the end of the text
      or at the line break just before it. */
  predicate EndsAtText(rows: seq<Row>, len: int)
  {
    |rows| > 0 && var r := rows[|rows| - 1];
    r.offset + r.length == len || r.offset + r.length == len - 1
  }

  /** `read` skips one char exactly when the text starts with a byte order
      mark. */
  predicate Skips(text: seq<char16>, from: int)
  {
    |text| > 0 && from == (if text[0] == BOM then 1 else 0)
  }

  /** A row whose chars lie inside `text`. */
  predicate Inside(text: seq<char16>, r: Row)
  {
    0 <= r.offset && 0 <= r.length && r.offset + r.length <= |text|
  }

  predicate AllInside(text: seq<char16>, rows: seq<Row>)
  {
    forall k :: 0 <= k < |rows| ==> Inside(text, rows[k])
  }

  /** The word a row shows; a row outside the text shows nothing. */
  function WordAt(text: seq<char16>, r: Row): (w: seq<char16>)
    ensures Inside(text, r) ==> |w| == r.length
  {
    if Inside(text, r) then text[r.offset..r.offset + r.length] else []
  }

  /** The words of `rows`, each followed by a line break. */
  function Spelled(text: seq<char16>, rows: seq<Row>): seq<char16>
    decreases |rows|
  {
    if rows == [] then []
    else Spelled(text, rows[..|rows| - 1]) + WordAt(text, rows[|rows| - 1]) + [NEWLINE]
  }

  /** No word of `rows` holds a line break. */
  predicate Unbroken(text: seq<char16>, rows: seq<Row>)
  {
    forall k :: 0 <= k < |rows| ==> NEWLINE !in WordAt(text, rows[k])
  }

  // ---------------------------------------------------------------------
  // How many rows: one per line.

  /** Every line break after `from` closes exactly one row. */
  lemma {:induction false} ScanCount(text: seq<char16>, from: int, i: int, corrected: bool)
    requires 0 <= from <= i <= |text|
    ensures |Scan(text, from, i, corrected).rows| + CountNewlines(text[..from]) == CountNewlines(text[..i])
    decreases i
  {
    if i > from {
      ScanCount(text, from, i - 1, corrected);
      CountNewlinesNext(text, i - 1);
    }
  }

  /** With nothing skipped, or only a char that is not a line break, `read`
      lays out one row per line: the `count` it allocated, so its assertion
      `n == count` holds. */
  lemma LayoutCount(text: seq<char16>, from: int, corrected: bool)
    requires Skips(text, from)
    ensures |Layout(text, from, corrected)| == LineCount(text)
  {
    ScanCount(text, from, |text|, corrected);
    assert text[..|text|] == text;
    if from == 1 {
      CountNewlinesNext(text, 0);
      assert text[..0] == [];
    } else {
      assert text[..0] == [];
    }
  }

  // ---------------------------------------------------------------------
  // The corrected rows spell the text.

  /** Corrected, every closed row lies inside the text, holds no line
      break, and the open part holds none either. */
  lemma {:induction false} ScanInside(text: seq<char16>, from: int, i: int)
    requires 0 <= from <= i <= |text|
    ensures var s := Scan(text, from, i, true);
      AllInside(text, s.rows) && Unbroken(text, s.rows) && NEWLINE !in text[s.start..i]
    decreases i
  {
    if i > from {
      ScanInside(text, from, i - 1);
      var p := Scan(text, from, i - 1, true);
      if text[i - 1] == NEWLINE {
        var r := Row(p.start, i - 1 - p.start);
        ScanBreak(text, from, i);
        assert WordAt(text, r) == text[p.start..i - 1];
        assert text[i..i] == [];
      } else {
        SliceExtends(text, p.start, i - 1);
      }
    }
  }

  /** Corrected, the closed rows with their line breaks, then the open part,
      spell `text[from..i]`. */
  predicate SpellsPrefix(text: seq<char16>, from: int, i: int)
    requires 0 <= from <= i <= |text|
  {
    var s := Scan(text, from, i, true);
    Spelled(text, s.rows) + text[s.start..i] == text[from..i]
  }

  lemma {:induction false} ScanSpells(text: seq<char16>, from: int, i: int)
    requires 0 <= from <= i <= |text|
    ensures SpellsPrefix(text, from, i)
    decreases i
  {
    if i > from {
      ScanSpells(text, from, i - 1);
      if text[i - 1] == NEWLINE {
        SpellsBreak(text, from, i);
      } else {
        SpellsChar(text, from, i);
      }
    }
  }

  /** A line break closes the open part into a row. */
  lemma SpellsBreak(text: seq<char16>, from: int, i: int)
    requires 0 <= from < i <= |text| && text[i - 1] == NEWLINE
    requires SpellsPrefix(text, from, i - 1)
    ensures SpellsPrefix(text, from, i)
  {
    var p := Scan(text, from, i - 1, true);
    var r := Row(p.start, i - 1 - p.start);
    ScanBreak(text, from, i);
    var spelled, word, prefix := Spelled(text, p.rows), text[p.start..i - 1], text[from..i - 1];
    assert spelled + word == prefix;
    SpelledSnoc(text, p.rows, r);
    assert WordAt(text, r) == word;
    SliceExtends(text, from, i - 1);
    assert text[i..i] == [];
    Appended(spelled, word, prefix, NEWLINE);
  }

  /** Any other char extends the open part. */
  lemma SpellsChar(text: seq<char16>, from: int, i: int)
    requires 0 <= from < i <= |text| && text[i - 1] != NEWLINE
    requires SpellsPrefix(text, from, i - 1)
    ensures SpellsPrefix(text, from, i)
  {
    var p := Scan(text, from, i - 1, true);
    ScanChar(text, from, i, true);
    var spelled, word, prefix := Spelled(text, p.rows), text[p.start..i - 1], text[from..i - 1];
    assert spelled + word == prefix;
    SliceExtends(text, from, i - 1);
    SliceExtends(text, p.start, i - 1);
    Appended(spelled, word, prefix, text[i - 1]);
    assert spelled + text[p.start..i] == text[from..i];
  }

  /** Appending the same char to both sides keeps them equal. */
  lemma Appended(spelled: seq<char16>, word: seq<char16>, prefix: seq<char16>, c: char16)
    requires spelled + word == prefix
    ensures spelled + word + [c] == prefix + [c] && spelled + (word + [c]) == prefix + [c]
    ensures spelled + word + [c] + [] == prefix + [c]
  {
  }

  /** Adding a row adds its word and a line break. */
  lemma SpelledSnoc(text: seq<char16>, rows: seq<Row>, r: Row)
    ensures Spelled(text, rows + [r]) == Spelled(text, rows) + WordAt(text, r) + [NEWLINE]
  {
    assert (rows + [r])[..|rows|] == rows;
  }

  /**
   * Corrected, every row `read` lays out lies inside the text and no word
   * holds a line break: each word is a whole line without its break.
   */
  lemma LayoutInside(text: seq<char16>, from: int)
    requires Skips(text, from)
    ensures var rows := Layout(text, from, true);
      |rows| > 0 && AllInside(text, rows) && Unbroken(text, rows)
  {
    var n := |text|;
    ScanInside(text, from, n);
    var s := Scan(text, from, n, true);
    if text[n - 1] == NEWLINE {
      ScanBreak(text, from, n);
    } else {
      var r := Row(s.start, n - s.start);
      assert WordAt(text, r) == text[s.start..n];
      var rows := s.rows + [r];
      assert forall k :: 0 <= k < |s.rows| ==> rows[k] == s.rows[k];
    }
  }

  /**
   * Corrected, the words `read` lays out, joined by line breaks, give back
   * the text after the skipped chars, with the last break present exactly
   * when the text ends with one.
   */
  lemma LayoutSpells(text: seq<char16>, from: int)
    requires Skips(text, from)
    ensures var rows := Layout(text, from, true);
      |rows| > 0 &&
      (if text[|text| - 1] == NEWLINE then Spelled(text, rows) == text[from..]
       else Spelled(text, rows[..|rows| - 1]) + WordAt(text, rows[|rows| - 1]) == text[from..])
  {
    var n := |text|;
    ScanSpells(text, from, n);
    var s := Scan(text, from, n, true);
    var spelled, open, all := Spelled(text, s.rows), text[s.start..n], text[from..n];
    assert spelled + open == all;
    assert all == text[from..];
    if text[n - 1] == NEWLINE {
      ScanBreak(text, from, n);
      assert open == [];
      assert spelled == spelled + open;
    } else {
      var r := Row(s.start, n - s.start);
      var rows := s.rows + [r];
      assert rows[..|rows| - 1] == s.rows;
      assert WordAt(text, r) == open;
    }
  }

  /** A line break at `i - 1` closes the open row. */
  lemma ScanBreak(text: seq<char16>, from: int, i: int)
    requires 0 <= from < i <= |text| && text[i - 1] == NEWLINE
    ensures var p := Scan(text, from, i - 1, true);
      Scan(text, from, i, true) == Scanned(p.rows + [Row(p.start, i - 1 - p.start)], i)
  {
  }

  /** Any other char leaves the rows and the open row's start alone. */
  lemma ScanChar(text: seq<char16>, from: int, i: int, corrected: bool)
    requires 0 <= from < i <= |text| && text[i - 1] != NEWLINE
    ensures Scan(text, from, i, corrected) == Scan(text, from, i - 1, corrected)
  {
  }

  /** Corrected, the closing check of `read` always holds. */
  lemma CorrectedEndsAtText(text: seq<char16>, from: int)
    requires Skips(text, from)
    ensures EndsAtText(Layout(text, from, true), |text|)
  {
  }

  // ---------------------------------------------------------------------
  // The rows as written.

  /** As written, each row closed by a line break is one char shorter than
      the chars before its break; the open last row is the same. */
  lemma {:induction false} ScanAsWritten(text: seq<char16>, from: int, i: int)
    requires 0 <= from <= i <= |text|
    ensures var w := Scan(text, from, i, false); var c := Scan(text, from, i, true);
      w.start == c.start && |w.rows| == |c.rows| &&
      forall k :: 0 <= k < |c.rows| ==> w.rows[k] == Row(c.rows[k].offset, c.rows[k].length - 1)
    decreases i
  {
    if i > from {
      ScanAsWritten(text, from, i - 1);
    }
  }

  /** As written, the closing check of `read` holds exactly when the text
      does not end with a line break: a final break leaves the last row
      ending two chars before the end. */
  lemma AsWrittenEndsAtText(text: seq<char16>, from: int)
    requires Skips(text, from)
    ensures EndsAtText(Layout(text, from, false), |text|) <==> text[|text| - 1] != NEWLINE
  {
  }

  /** "ab\ncd": as written, the first row shows "a", not "ab". */
  lemma ShortWord()
    ensures var text: seq<char16> := [0x61, 0x62, NEWLINE, 0x63, 0x64];
      Layout(text, 0, false)[0] == Row(0, 1) && Layout(text, 0, true)[0] == Row(0, 2) &&
      WordAt(text, Row(0, 2)) == [0x61, 0x62]
  {
    var text: seq<char16> := [0x61, 0x62, NEWLINE, 0x63, 0x64];
    assert Scan(text, 0, 2, false) == Scanned([], 0);
    assert Scan(text, 0, 5, false) == Scan(text, 0, 3, false) == Scanned([Row(0, 1)], 3);
    assert Scan(text, 0, 2, true) == Scanned([], 0);
    assert Scan(text, 0, 5, true) == Scan(text, 0, 3, true) == Scanned([Row(0, 2)], 3);
  }

  /** "a\n": as written, `read` fails its closing assertion. */
  lemma TrailingBreakFails()
    ensures var text: seq<char16> := [0x61, NEWLINE];
      Layout(text, 0, false) == [Row(0, 0)] && !EndsAtText(Layout(text, 0, false), 2) &&
      Layout(text, 0, true) == [Row(0, 1)] && EndsAtText(Layout(text, 0, true), 2)
  {
    var text: seq<char16> := [0x61, NEWLINE];
    assert Scan(text, 0, 1, false) == Scanned([], 0);
    assert Scan(text, 0, 1, true) == Scanned([], 0);
  }

  // ---------------------------------------------------------------------
  // The checks `read` makes before it counts lines.

  /** 3 when the file starts with the UTF-8 encoding of the byte order mark. */
  function BomBytes(bytes: seq<byte>): (k: nat)
    ensures k == 0 || k == 3
  {
    if |bytes| >= 3 && bytes[0] == 0xEF && bytes[1] == 0xBB && bytes[2] == 0xBF then 3 else 0
  }

  /**
   * The checks of `read` on the file's bytes and its decoded chars
   * `buffer[..len]`: the byte order mark test, which reads `bytes[1]` and
   * `bytes[2]` only while the earlier bytes match; the chars' own mark test;
   * the ASCII assumption that the file holds one byte per char; and the
   * read of the last char. The result is the number of chars skipped.
   */
  function Preamble(bytes: seq<byte>, buffer: seq<char16>, len: int): (r: Result<int>)
    requires 0 <= len <= |buffer|
    ensures |bytes| == 0 ==> r == Err(IndexOutOfBounds)
    ensures |bytes| == 1 && bytes[0] == 0xEF ==> r == Err(IndexOutOfBounds)
    ensures |bytes| == 2 && bytes[0] == 0xEF && bytes[1] == 0xBB ==> r == Err(IndexOutOfBounds)
    ensures |bytes| >= 3 ==>
      (r.Ok? <==> len > 0 && |bytes| - BomBytes(bytes) == len - (if buffer[0] == BOM then 1 else 0))
    ensures |bytes| >= 3 && |buffer| > 0 && |bytes| - BomBytes(bytes) != len - (if buffer[0] == BOM then 1 else 0) ==>
      r == Err(AssertionFailed)
    ensures r.Ok? ==> (len > 0 && Skips(buffer[..len], r.value) &&
      |bytes| - BomBytes(bytes) == len - r.value)
  {
    if |bytes| == 0 then Err(IndexOutOfBounds)
    else if bytes[0] == 0xEF && |bytes| < 2 then Err(IndexOutOfBounds)
    else if bytes[0] == 0xEF && bytes[1] == 0xBB && |bytes| < 3 then Err(IndexOutOfBounds)
    else if |buffer| == 0 then Err(IndexOutOfBounds)
    else
      var offset1 := if buffer[0] == BOM then 1 else 0;
      if |bytes| - BomBytes(bytes) != len - offset1 then Err(AssertionFailed)
      else if len == 0 then Err(IndexOutOfBounds)
      else Ok(offset1)
  }

  // ---------------------------------------------------------------------
  // The table model.

  /** A cell: column 0 shows a window on the chars, column 1 a number. */
  datatype WordCell = Word(text: Text.CharSubSequence) | Length(digits: seq<char16>)

  /**
   * `Words`: the decoded chars, the row arrays `read` allocates, the `once`
   * flag of `update`, and the callbacks `update` has posted to the main
   * thread after its read (`posted`) or run directly (`ran`).
   */
  class Words {
    var chars: seq<char16>
    var offsets: array?<int>
    var lengths: array?<int>
    var once: bool
    var posted: seq<ProcFS.Callback>
    var ran: seq<ProcFS.Callback>

    /** The row arrays are both missing or both present, of one length. */
    predicate Valid()
      reads this
    {
      (offsets == null <==> lengths == null) &&
      (offsets != null ==> offsets != lengths && offsets.Length == lengths.Length)
    }

    /** The row arrays hold `rows`. */
    predicate Holds(rows: seq<Row>)
      reads this, offsets, lengths
    {
      offsets != null && lengths != null &&
      offsets.Length == |rows| && lengths.Length == |rows| &&
      forall k :: 0 <= k < |rows| ==> offsets[k] == rows[k].offset && lengths[k] == rows[k].length
    }

    constructor ()
      ensures Valid() && offsets == null && lengths == null && !once
      ensures chars == [] && posted == [] && ran == []
    {
      chars, offsets, lengths, once := [], null, null, false;
      posted, ran := [], [];
    }

    function Columns(): (n: int)
      ensures n == 2
    {
      2
    }

    /** One row per entry of `offsets`; none before the first read. */
    function Rows(): (n: Result<int>)
      reads this
      ensures n.Err? <==> offsets == null
      ensures n.Err? ==> n.error == NullPointer
      ensures n.Ok? ==> n.value == offsets.Length >= 0
    {
      if offsets == null then Err(NullPointer) else Ok(offsets.Length)
    }

    /**
     * `getText`: column 0 wraps the word of row `r` in place on the chars,
     * any other column renders its length in decimal. Before the first
     * read the arrays are missing; a row outside them is out of bounds.
     */
    function GetText(c: int, r: int): (t: Result<WordCell>)
      requires Valid()
      reads this, offsets, lengths
      ensures offsets == null ==> t == Err(NullPointer)
      ensures offsets != null ==> (t.Ok? <==> 0 <= r < offsets.Length)
      ensures t.Err? && offsets != null ==> t.error == IndexOutOfBounds
      ensures t.Ok? && c == 0 ==> (t.value.Word? && t.value.text.buf == chars &&
        t.value.text.start == offsets[r] && t.value.text.end - t.value.text.start == lengths[r])
      ensures t.Ok? && c != 0 ==> (t.value.Length? &&
        (IsLong(lengths[r]) ==> Numbers.ParseLongSpec(t.value.digits) == Ok(lengths[r])))
    {
      if offsets == null then Err(NullPointer)
      else if !(0 <= r < offsets.Length) then Err(IndexOutOfBounds)
      else if c == 0 then Ok(Word(Text.CharSubSequence(chars, offsets[r], offsets[r] + lengths[r])))
      else
        var v := lengths[r];
        if IsLong(v) then
          Numbers.ParseRenderRoundTrip(v);
          Ok(Length(Numbers.Render(v, 10)))
        else Ok(Length(Numbers.Render(v, 10)))
    }

    /**
     * `update`: the first call reads the word list, then posts `done` to
     * the main thread; a read that fails ends its thread before the post.
     * Every later call runs `done` at once and reads nothing.
     */
    method Update(done: Option<ProcFS.Callback>, bytes: seq<byte>, buffer: seq<char16>, len: int, corrected: bool)
      returns (f: Option<Failure>)
      requires Valid() && 0 <= len <= |buffer|
      modifies this
      ensures Valid() && once
      ensures old(once) ==> (f.None? && ran == old(ran) + (if done.Some? then [done.value] else []) &&
        chars == old(chars) && offsets == old(offsets) && lengths == old(lengths) && posted == old(posted))
      ensures !old(once) ==> (ran == old(ran) && chars == buffer &&
        posted == old(posted) + (if f.None? && done.Some? then [done.value] else []))
      ensures !old(once) && Preamble(bytes, buffer, len).Err? ==>
        (f == Some(Preamble(bytes, buffer, len).error) && offsets == old(offsets) && lengths == old(lengths))
      ensures !old(once) && Preamble(bytes, buffer, len).Ok? ==> (fresh(offsets) && fresh(lengths) &&
        Loaded(buffer[..len], Preamble(bytes, buffer, len).value, corrected, f))
    {
      if !once {
        once := true;
        f := Read(bytes, buffer, len, corrected);
        if f.None? && done.Some? {
          posted := posted + [done.value];
        }
      } else {
        f := None;
        if done.Some? {
          ran := ran + [done.value];
        }
      }
    }

    /** What a `read` that passed its first checks leaves: the arrays hold
        the layout, one row per line, and the closing assertion fails only
        as written on a text that ends with a line break. */
    predicate Loaded(text: seq<char16>, from: int, corrected: bool, f: Option<Failure>)
      requires Skips(text, from)
      reads this, offsets, lengths
    {
      var rows := Layout(text, from, corrected);
      Holds(rows) && |rows| == LineCount(text) &&
      (f.None? <==> corrected || text[|text| - 1] != NEWLINE) && (f.Some? ==> f.value == AssertionFailed)
    }

    /**
     * `read`: keep the decoded chars, make the checks of `Preamble`, count
     * the lines, allocate one row per line and lay the rows out, then
     * assert that there were as many rows as lines and that the last row
     * ends at or just before the end of the text.
     */
    method Read(bytes: seq<byte>, buffer: seq<char16>, len: int, corrected: bool) returns (f: Option<Failure>)
      requires Valid() && 0 <= len <= |buffer|
      modifies this
      ensures Valid() && chars == buffer
      ensures once == old(once) && posted == old(posted) && ran == old(ran)
      ensures Preamble(bytes, buffer, len).Err? ==>
        (f == Some(Preamble(bytes, buffer, len).error) && offsets == old(offsets) && lengths == old(lengths))
      ensures Preamble(bytes, buffer, len).Ok? ==> (fresh(offsets) && fresh(lengths) &&
        Loaded(buffer[..len], Preamble(bytes, buffer, len).value, corrected, f))
    {
      chars := buffer;
      var p := Preamble(bytes, buffer, len);
      if p.Err? {
        return Some(p.error);
      }
      var from := p.value;
      ghost var text := buffer[..len];
      var count := CountBreaks(buffer, len);
      var hasLastLineBreak := buffer[len - 1] == NEWLINE;
      if !hasLastLineBreak {
        count := count + 1;
      }
      assert count == LineCount(text);
      var o := new int[count];
      var l := new int[count];
      offsets, lengths := o, l;
      var n := Split(buffer, len, from, corrected, o, l);
      ghost var rows := Layout(text, from, corrected);
      if !(o[n - 1] + l[n - 1] == len || o[n - 1] + l[n - 1] == len - 1) {
        assert !EndsAtText(rows, len);
        f := Some(AssertionFailed);
      } else {
        assert EndsAtText(rows, len);
        f := None;
      }
      if corrected {
        CorrectedEndsAtText(text, from);
      } else {
        AsWrittenEndsAtText(text, from);
      }
    }
  }

  /**
   * After a corrected `read`, row `r` of the table shows line `r` of the
   * text: column 0 a window on the chars holding exactly that line, without
   * its line break, and column 1 the decimal digits of its length.
   */
  lemma CellsShowLines(w: Words, len: int, from: int, r: int)
    requires w.Valid() && 0 <= len <= |w.chars| && len <= INT_MAX && Skips(w.chars[..len], from)
    requires w.Holds(Layout(w.chars[..len], from, true))
    requires 0 <= r < w.offsets.Length
    ensures var text := w.chars[..len]; var rows := Layout(text, from, true);
      var word := w.GetText(0, r); var number := w.GetText(1, r);
      word.Ok? && word.value.Word? && word.value.text.Valid() &&
      word.value.text.Contents() == WordAt(text, rows[r]) && NEWLINE !in word.value.text.Contents() &&
      number.Ok? && number.value.Length? &&
      Numbers.ParseLongSpec(number.value.digits) == Ok(|word.value.text.Contents()|)
  {
    var text := w.chars[..len];
    var rows := Layout(text, from, true);
    LayoutInside(text, from);
    var row := rows[r];
    assert Inside(text, row) && NEWLINE !in WordAt(text, row);
    assert w.offsets[r] == row.offset && w.lengths[r] == row.length;
    assert WordAt(text, row) == w.chars[row.offset..row.offset + row.length];
  }

  /** The counting loop of `read`: the line breaks among the first `len` chars. */
  method CountBreaks(buffer: seq<char16>, len: int) returns (count: int)
    requires 0 <= len <= |buffer|
    ensures count == CountNewlines(buffer[..len])
  {
    count := 0;
    var i := 0;
    while i < len
      invariant 0 <= i <= len
      invariant count == CountNewlines(buffer[..i])
    {
      CountNewlinesNext(buffer, i);
      if buffer[i] == NEWLINE {
        count := count + 1;
      }
      i := i + 1;
    }
  }

  /**
   * The splitting loop of `read` into the freshly allocated `offsets` and
   * `lengths`: it writes exactly the rows of `Layout`, one per line, so it
   * never writes past the arrays and its count matches theirs.
   */
  method Split(buffer: seq<char16>, len: int, from: int, corrected: bool, offsets: array<int>, lengths: array<int>)
    returns (n: int)
    requires 0 <= len <= |buffer| && Skips(buffer[..len], from)
    requires offsets != lengths
    requires offsets.Length == lengths.Length == LineCount(buffer[..len])
    modifies offsets, lengths
    ensures var rows := Layout(buffer[..len], from, corrected);
      n == |rows| == offsets.Length &&
      forall k :: 0 <= k < n ==> offsets[k] == rows[k].offset && lengths[k] == rows[k].length
  {
    ghost var text := buffer[..len];
    ghost var rows: seq<Row> := [];
    NoBreakSkipped(text, from);
    n := 0;
    var start := from;
    var i := from;
    while i < len
      invariant from <= i <= len
      invariant Scan(text, from, i, corrected) == Scanned(rows, start)
      invariant n == |rows| == CountNewlines(text[..i]) <= offsets.Length
      invariant forall k :: 0 <= k < n ==> offsets[k] == rows[k].offset && lengths[k] == rows[k].length
    {
      CountNewlinesNext(text, i);
      if buffer[i] == NEWLINE {
        RowBelowLineCount(text, i);
        var length := if corrected then i - start else i - 1 - start;
        offsets[n] := start;
        lengths[n] := length;
        rows := rows + [Row(start, length)];
        n := n + 1;
        start := i + 1;
      }
      i := i + 1;
    }
    assert text[..len] == text;
    if buffer[len - 1] != NEWLINE {
      offsets[n] := start;
      lengths[n] := len - start;
      rows := rows + [Row(start, len - start)];
      n := n + 1;
    }
    LayoutCount(text, from, corrected);
  }

  /** The chars `read` skips hold no line break. */
  lemma NoBreakSkipped(text: seq<char16>, from: int)
    requires Skips(text, from)
    ensures CountNewlines(text[..from]) == 0
  {
    assert text[..0] == [];
    if from == 1 {
      CountNewlinesNext(text, 0);
    }
  }
}
