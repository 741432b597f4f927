/**
 * `MemInfo`: the table of `/proc/meminfo`. Its parser cuts every line into
 * three spans: the key with its colon, the value after the blanks, and the
 * rest of the line (usually the unit, with its leading blank).
 */
module MemInfo {
  import opened JavaLang
  import ProcFS
  import Text

  /** `super(3)`: key, value and rest. */
  const COLUMNS: nat := 3

  /** The loop variables of `parse` (`c`, `n`, `start`, `i`) together with
      the spans written so far. */
  datatype Cursor = Cursor(c: int, n: int, start: int, i: int, spans: map<ProcFS.Cell, ProcFS.Span>)

  /** What the loop needs in order to make progress. */
  predicate Shape(text: seq<char16>, s: Cursor)
  {
    0 <= s.start <= |text| && 0 <= s.i <= |text| + 1 && (s.c == 1 ==> s.start == s.i)
  }

  /** The first index at or after `k` that does not hold a blank. */
  function SkipSpaces(text: seq<char16>, k: int): (e: int)
    requires 0 <= k <= |text|
    ensures k <= e <= |text|
    decreases |text| - k
  {
    if k < |text| && text[k] == SPACE then SkipSpaces(text, k + 1) else k
  }

  /** The end of the value that starts at `k`: the next blank, and, when
      `stopAtLineEnd` holds, also the next line break. */
  function ValueEnd(text: seq<char16>, k: int, stopAtLineEnd: bool): (e: int)
    requires 0 <= k <= |text|
    ensures k <= e <= |text|
    decreases |text| - k
  {
    if k < |text| && text[k] != SPACE && !(stopAtLineEnd && text[k] == NEWLINE) then
      ValueEnd(text, k + 1, stopAtLineEnd)
    else k
  }

  /**
   * One turn of the `while (i < len)` loop of `parse`. After a colon (`c == 0`)
   * the key span ends; with `c == 1` the blanks are skipped and the value is
   * scanned; a line break closes the rest span and moves to the next row.
   * `parse` as written scans the value up to a blank only (`stopAtLineEnd`
   * false); the corrected parser also stops at a line break, which the next
   * turn then reads.
   */
  function Step(text: seq<char16>, s: Cursor, stopAtLineEnd: bool): (s': Cursor)
    requires Shape(text, s) && s.i < |text|
    ensures Shape(text, s')
    ensures s'.i > s.i || (s'.i == s.i && s.c == 1 && s'.c == 2)
  {
    if s.c == 0 && text[s.i] == COLON then
      Cursor(1, s.n, s.i + 1, s.i + 1,
        s.spans[ProcFS.Cell(0, s.n) := ProcFS.Span(s.start, s.i - s.start + 1)])
    else if s.c == 1 then
      var first := SkipSpaces(text, s.start);
      var end := ValueEnd(text, first, stopAtLineEnd);
      Cursor(2, s.n, end, if end < |text| && text[end] == NEWLINE then end else end + 1,
        s.spans[ProcFS.Cell(1, s.n) := ProcFS.Span(first, end - first)])
    else if text[s.i] == NEWLINE then
      Cursor(0, s.n + 1, s.i + 1, s.i + 1,
        s.spans[ProcFS.Cell(2, s.n) := ProcFS.Span(s.start, s.i - s.start)])
    else
      s.(i := s.i + 1)
  }

  /** The rest of the loop from cursor `s`. */
  function Run(text: seq<char16>, s: Cursor, stopAtLineEnd: bool): (r: Cursor)
    requires Shape(text, s)
    ensures r.i >= |text|
    decreases |text| + 1 - s.i, if s.c == 1 then 1 else 0
  {
    if s.i >= |text| then s else Run(text, Step(text, s, stopAtLineEnd), stopAtLineEnd)
  }

  /** The cursor `parse` starts from. */
  const Begin: Cursor := Cursor(0, 0, 0, 0, map[])

  /** After the loop: an unterminated last line gets its rest span up to the end. */
  function Finish(text: seq<char16>, s: Cursor): Cursor
    requires |text| > 0
  {
    if text[|text| - 1] == NEWLINE then s
    else s.(n := s.n + 1, spans := s.spans[ProcFS.Cell(2, s.n) := ProcFS.Span(s.start, |text| - s.start)])
  }

  /** What `parse` leaves for a text: the rows it closed (`n`) and the spans. */
  function Parsed(text: seq<char16>, stopAtLineEnd: bool): Cursor
    requires |text| > 0
  {
    Finish(text, Run(text, Begin, stopAtLineEnd))
  }

  /** The end of the part of `text` the loop has passed. */
  function Passed(text: seq<char16>, i: int): (k: int)
    requires 0 <= i
    ensures 0 <= k <= |text|
  {
    if i < |text| then i else |text|
  }

  /** A span that lies inside `text`. */
  predicate Inside(text: seq<char16>, span: ProcFS.Span)
  {
    0 <= span.offset && 0 <= span.length && span.offset + span.length <= |text|
  }

  /** What `parse` keeps true at the head of its loop: rows are closed at
      line breaks only, and every span written so far lies inside the text
      and inside the span arrays, which have one row per line. */
  predicate Good(text: seq<char16>, s: Cursor)
  {
    |text| > 0 && Shape(text, s) && s.start <= s.i && 0 <= s.c <= 2 &&
    0 <= s.n <= CountNewlines(text[..Passed(text, s.i)]) &&
    forall cell :: cell in s.spans ==>
      0 <= cell.col < COLUMNS && 0 <= cell.row < LineCount(text) && Inside(text, s.spans[cell])
  }

  lemma StepGood(text: seq<char16>, s: Cursor, stopAtLineEnd: bool)
    requires Good(text, s) && s.i < |text|
    ensures Good(text, Step(text, s, stopAtLineEnd))
  {
    var s' := Step(text, s, stopAtLineEnd);
    RowBelowLineCount(text, s.i);
    CountNewlinesMonotone(text, s.i, Passed(text, s'.i));
    if !(s.c == 0 && text[s.i] == COLON) && s.c != 1 && text[s.i] == NEWLINE {
      CountNewlinesNext(text, s.i);
    }
  }

  lemma {:induction false} RunGood(text: seq<char16>, s: Cursor, stopAtLineEnd: bool)
    requires Good(text, s)
    ensures Good(text, Run(text, s, stopAtLineEnd))
    decreases |text| + 1 - s.i, if s.c == 1 then 1 else 0
  {
    if s.i < |text| {
      StepGood(text, s, stopAtLineEnd);
      RunGood(text, Step(text, s, stopAtLineEnd), stopAtLineEnd);
    }
  }

  /** `parse` never closes more rows than the text has lines, writes only
      into the three columns and the rows the span arrays have, and every
      span it writes lies inside the text. */
  lemma ParsedWithin(text: seq<char16>, stopAtLineEnd: bool)
    requires |text| > 0
    ensures var p := Parsed(text, stopAtLineEnd);
      0 <= p.n <= LineCount(text) &&
      forall cell :: cell in p.spans ==>
        0 <= cell.col < COLUMNS && 0 <= cell.row < LineCount(text) && Inside(text, p.spans[cell])
  {
    assert text[..0] == [];
    RunGood(text, Begin, stopAtLineEnd);
    assert text[..|text|] == text;
  }

  /** The two inner loops of `parse`: skip the blanks from `start`, then
      scan the value up to the next blank (or, corrected, line break). */
  method ScanValue(chars: array<char16>, start: int, stopAtLineEnd: bool) returns (first: int, end: int)
    requires 0 <= start <= chars.Length
    ensures first == SkipSpaces(chars[..], start)
    ensures end == ValueEnd(chars[..], first, stopAtLineEnd)
  {
    var len := chars.Length;
    first := start;
    while first < len && chars[first] == SPACE
      invariant start <= first <= len
      invariant SkipSpaces(chars[..], first) == SkipSpaces(chars[..], start)
    {
      first := first + 1;
    }
    end := first;
    while end < len && chars[end] != SPACE && !(stopAtLineEnd && chars[end] == NEWLINE)
      invariant first <= end <= len
      invariant ValueEnd(chars[..], end, stopAtLineEnd) == ValueEnd(chars[..], first, stopAtLineEnd)
    {
      end := end + 1;
    }
  }

  /**
   * `parse(d, len, count, hasLastLineBreak)`: fills the three span columns
   * of `d` and then asserts that it closed one row per line; `ok` is false
   * where that assertion fails. Cells `parse` does not reach keep what they
   * held. `stopAtLineEnd` false is the method as written, true the
   * corrected one.
   */
  method Parse(d: ProcFS.Data, len: int, count: int, hasLastLineBreak: bool, stopAtLineEnd: bool)
    returns (ok: bool)
    requires d.Valid() && d.columns == COLUMNS && d.chars != null && d.offsets != null
    requires len == d.chars.Length && len > 0
    requires hasLastLineBreak == (d.chars[len - 1] == NEWLINE)
    requires count == LineCount(d.chars[..]) && d.offsets.Length1 == count
    modifies d.offsets, d.lengths
    ensures var p := Parsed(d.chars[..], stopAtLineEnd);
      ok == (p.n == count) && ProcFS.Holds(d, p.spans) &&
      forall col, row :: 0 <= col < COLUMNS && 0 <= row < count && ProcFS.Cell(col, row) !in p.spans ==>
        d.offsets[col, row] == old(d.offsets[col, row]) && d.lengths[col, row] == old(d.lengths[col, row])
  {
    ghost var text := d.chars[..];
    var c, n, start, i, spans := Scan(d, text, stopAtLineEnd);
    n, spans := CloseLast(d, text, hasLastLineBreak, c, n, start, i, spans);
    ok := n == count;
  }

  /** The lines after the loop of `parse`: an unterminated last line gets
      its rest span up to `len`, as `Finish` says. */
  method CloseLast(d: ProcFS.Data, ghost text: seq<char16>, hasLastLineBreak: bool,
                   ghost c: int, n: int, start: int, ghost i: int, ghost spans: map<ProcFS.Cell, ProcFS.Span>)
    returns (n': int, ghost spans': map<ProcFS.Cell, ProcFS.Span>)
    requires d.Valid() && d.columns == COLUMNS && d.chars != null && d.offsets != null
    requires text == d.chars[..] && |text| > 0 && d.offsets.Length1 == LineCount(text)
    requires hasLastLineBreak == (text[|text| - 1] == NEWLINE)
    requires Good(text, Cursor(c, n, start, i, spans)) && i >= |text| && ProcFS.Holds(d, spans)
    modifies d.offsets, d.lengths
    ensures Cursor(c, n', start, i, spans') == Finish(text, Cursor(c, n, start, i, spans))
    ensures ProcFS.Holds(d, spans') && spans.Keys <= spans'.Keys
    ensures forall col, row :: 0 <= col < COLUMNS && 0 <= row < d.offsets.Length1 && ProcFS.Cell(col, row) !in spans' ==>
      d.offsets[col, row] == old(d.offsets[col, row]) && d.lengths[col, row] == old(d.lengths[col, row])
  {
    if !hasLastLineBreak {
      assert text[..|text|] == text;
      var span := ProcFS.Span(start, d.chars.Length - start);
      spans' := ProcFS.Put(d, spans, ProcFS.Cell(2, n), span);
      n' := n + 1;
    } else {
      n', spans' := n, spans;
    }
  }

  /** The `while (i < len)` loop of `parse`: it ends where `Run` ends. */
  method Scan(d: ProcFS.Data, ghost text: seq<char16>, stopAtLineEnd: bool)
    returns (c: int, n: int, start: int, i: int, ghost spans: map<ProcFS.Cell, ProcFS.Span>)
    requires d.Valid() && d.columns == COLUMNS && d.chars != null && d.offsets != null
    requires text == d.chars[..] && |text| > 0 && d.offsets.Length1 == LineCount(text)
    modifies d.offsets, d.lengths
    ensures Cursor(c, n, start, i, spans) == Run(text, Begin, stopAtLineEnd)
    ensures Good(text, Cursor(c, n, start, i, spans)) && ProcFS.Holds(d, spans)
    ensures forall col, row :: 0 <= col < COLUMNS && 0 <= row < d.offsets.Length1 && ProcFS.Cell(col, row) !in spans ==>
      d.offsets[col, row] == old(d.offsets[col, row]) && d.lengths[col, row] == old(d.lengths[col, row])
  {
    spans := map[];
    c, n, start, i := 0, 0, 0, 0;
    assert text[..0] == [];
    while i < d.chars.Length
      invariant Good(text, Cursor(c, n, start, i, spans))
      invariant Run(text, Cursor(c, n, start, i, spans), stopAtLineEnd) == Run(text, Begin, stopAtLineEnd)
      invariant ProcFS.Holds(d, spans)
      invariant forall col, row :: 0 <= col < COLUMNS && 0 <= row < d.offsets.Length1 && ProcFS.Cell(col, row) !in spans ==>
        d.offsets[col, row] == old(d.offsets[col, row]) && d.lengths[col, row] == old(d.lengths[col, row])
      decreases |text| + 1 - i, if c == 1 then 1 else 0
    {
      StepGood(text, Cursor(c, n, start, i, spans), stopAtLineEnd);
      RowBelowLineCount(text, i);
      c, n, start, i, spans := Turn(d, text, c, n, start, i, spans, stopAtLineEnd);
    }
  }

  /** One turn of the loop of `parse`: the cursor moves as `Step` says, and
      only the cell `Step` writes changes. */
  method Turn(d: ProcFS.Data, ghost text: seq<char16>,
              c: int, n: int, start: int, i: int, ghost spans: map<ProcFS.Cell, ProcFS.Span>,
              stopAtLineEnd: bool)
    returns (c': int, n': int, start': int, i': int, ghost spans': map<ProcFS.Cell, ProcFS.Span>)
    requires d.Valid() && d.columns == COLUMNS && d.chars != null && d.offsets != null
    requires text == d.chars[..] && Shape(text, Cursor(c, n, start, i, spans)) && i < |text|
    requires 0 <= n < d.offsets.Length1 && ProcFS.Holds(d, spans)
    modifies d.offsets, d.lengths
    ensures Cursor(c', n', start', i', spans') == Step(text, Cursor(c, n, start, i, spans), stopAtLineEnd)
    ensures ProcFS.Holds(d, spans') && spans.Keys <= spans'.Keys
    ensures forall col, row :: 0 <= col < COLUMNS && 0 <= row < d.offsets.Length1 && ProcFS.Cell(col, row) !in spans' ==>
      d.offsets[col, row] == old(d.offsets[col, row]) && d.lengths[col, row] == old(d.lengths[col, row])
  {
    ghost var s := Cursor(c, n, start, i, spans);
    if c == 0 && d.chars[i] == COLON {
      var span := ProcFS.Span(start, i - start + 1);
      c', n', start', i' := 1, n, i + 1, i + 1;
      assert Cursor(c', n', start', i', spans[ProcFS.Cell(0, n) := span]) == Step(text, s, stopAtLineEnd);
      spans' := ProcFS.Put(d, spans, ProcFS.Cell(0, n), span);
    } else if c == 1 {
      var first, end := ScanValue(d.chars, start, stopAtLineEnd);
      var span := ProcFS.Span(first, end - first);
      // As written the value ends at a blank or at the end of the text,
      // and the loop steps past it; the corrected value may end at a line
      // break, which the next turn must see.
      var next := if end < d.chars.Length && d.chars[end] == NEWLINE then end else end + 1;
      c', n', start', i' := 2, n, end, next;
      assert Cursor(c', n', start', i', spans[ProcFS.Cell(1, n) := span]) == Step(text, s, stopAtLineEnd);
      spans' := ProcFS.Put(d, spans, ProcFS.Cell(1, n), span);
    } else if d.chars[i] == NEWLINE {
      var span := ProcFS.Span(start, i - start);
      c', n', start', i' := 0, n + 1, i + 1, i + 1;
      assert Cursor(c', n', start', i', spans[ProcFS.Cell(2, n) := span]) == Step(text, s, stopAtLineEnd);
      spans' := ProcFS.Put(d, spans, ProcFS.Cell(2, n), span);
    } else {
      c', n', start', i', spans' := c, n, start, i + 1, spans;
    }
  }

  /**
   * `read()` of the `/proc/meminfo` table: load the file into the current
   * generation, parse it (with the value scan corrected to stop at line
   * breaks) and publish it. An empty file fails at `chars[len - 1]`, a
   * failed closing assertion of `parse` ends the update; either way the
   * readers keep the generation they had.
   */
  method Read(e: ProcFS.Engine, src: ProcFS.Source) returns (r: Result<int>)
    requires e.Valid() && src.Valid() && e.data0.columns == COLUMNS
    modifies e, e.Current(), e.Current().bytes, e.Current().chars, e.Current().offsets, e.Current().lengths, src
    ensures e.Valid() && src.Valid()
    ensures r.Err? ==> (e.ix == old(e.ix) && e.Published() == old(e.Published()) &&
      (r.error == IndexOutOfBounds <==> |src.content| == 0) &&
      forall c, row :: e.GetText(c, row) == old(e.GetText(c, row)))
    ensures r.Ok? ==> (e.Published() == old(e.Current()) && e.ai == ProcFS.Increment(old(e.ai)) &&
      |src.content| > 0 && e.Published().chars != null && e.Published().chars.Length > 0 &&
      var text := e.Published().chars[..];
      var p := Parsed(text, true);
      e.Rows() == r && r.value == LineCount(text) == p.n && ProcFS.Holds(e.Published(), p.spans))
  {
    var loaded := e.Fill(src);
    if loaded.Err? {
      return Err(loaded.error);
    }
    r := Commit(e, loaded.value);
  }

  /** The end of `read`: `parse` on the loaded generation, then
      `ix = ai.incrementAndGet() % 2` once the closing assertion holds. */
  method Commit(e: ProcFS.Engine, l: ProcFS.Loaded) returns (r: Result<int>)
    requires e.Valid() && e.data0.columns == COLUMNS
    requires var d := e.Current();
      d.chars != null && l.len == d.chars.Length && l.len > 0 &&
      l.hasLastLineBreak == (d.chars[l.len - 1] == NEWLINE) && l.count == LineCount(d.chars[..]) &&
      d.offsets != null && d.offsets.Length1 == l.count
    modifies e, e.Current().offsets, e.Current().lengths
    ensures e.Valid()
    ensures r.Err? ==> (r.error == AssertionFailed && e.ix == old(e.ix) && e.Published() == old(e.Published()) &&
      forall c, row :: e.GetText(c, row) == old(e.GetText(c, row)))
    ensures r.Ok? ==> (e.Published() == old(e.Current()) && e.ai == ProcFS.Increment(old(e.ai)) &&
      var text := e.Published().chars[..];
      var p := Parsed(text, true);
      e.Rows() == r && r.value == LineCount(text) == p.n && ProcFS.Holds(e.Published(), p.spans))
  {
    var d := e.Current();
    var ok := Parse(d, l.len, l.count, l.hasLastLineBreak, true);
    if !ok {
      return Err(AssertionFailed);
    }
    ghost var text := d.chars[..];
    ghost var p := Parsed(text, true);
    assert ProcFS.Holds(d, p.spans) && p.n == l.count;
    e.Publish();
    assert e.Published() == d && d.chars[..] == text;
    r := Ok(l.count);
  }

  // ---------------------------------------------------------------------
  // What the parser makes of well-formed lines.

  /** One line of `/proc/meminfo` as the parser reads it: a key, a colon,
      some blanks, the value, and the rest of the line before its break. */
  datatype Line = Line(key: seq<char16>, blanks: nat, value: seq<char16>, rest: seq<char16>)
  {
    /** The number of chars of the line, line break included. */
    function Size(): nat
    {
      |key| + blanks + |value| + |rest| + 2
    }

    /** The chars of the line, line break included. */
    function Chars(): (cs: seq<char16>)
      ensures |cs| == Size()
    {
      key + [COLON] + seq(blanks, _ => SPACE) + value + rest + [NEWLINE]
    }

    /** A key without colon, a value without blank, and a rest that starts
        with a blank, so that the value ends where the rest begins; the
        corrected parser also takes a value that ends the line. */
    predicate WellFormed(stopAtLineEnd: bool)
    {
      (forall j :: 0 <= j < |key| ==> key[j] != COLON && key[j] != NEWLINE) &&
      (forall j :: 0 <= j < |value| ==> value[j] != SPACE && value[j] != NEWLINE) &&
      (forall j :: 0 <= j < |rest| ==> rest[j] != NEWLINE) &&
      (if rest == [] then stopAtLineEnd else rest[0] == SPACE && |value| > 0)
    }

    /** The spans of the line when it starts at `p`: the key with its colon,
        the value, and the rest. */
    function Spans(p: int): (r: seq<ProcFS.Span>)
      ensures |r| == COLUMNS
    {
      [ProcFS.Span(p, |key| + 1),
       ProcFS.Span(p + |key| + 1 + blanks, |value|),
       ProcFS.Span(p + |key| + 1 + blanks + |value|, |rest|)]
    }
  }

  /** The spans `parse` records for line `l`, row `n`, starting at `p`. */
  function AddLine(spans: map<ProcFS.Cell, ProcFS.Span>, l: Line, n: int, p: int): map<ProcFS.Cell, ProcFS.Span>
  {
    var q := p + |l.key|;
    var v := q + 1 + l.blanks;
    var w := v + |l.value|;
    spans[ProcFS.Cell(0, n) := ProcFS.Span(p, q - p + 1)]
         [ProcFS.Cell(1, n) := ProcFS.Span(v, w - v)]
         [ProcFS.Cell(2, n) := ProcFS.Span(w, |l.rest|)]
  }

  /** The well-formed line `l` lies in `text` from `p` on. */
  predicate LaidOut(text: seq<char16>, p: int, l: Line, stopAtLineEnd: bool)
  {
    l.WellFormed(stopAtLineEnd) && 0 <= p && p + l.Size() <= |text| && text[p..p + l.Size()] == l.Chars()
  }

  /** A run of turns over chars that neither end a key (while `c == 0`) nor
      a line only moves `i`. */
  lemma {:induction false} RunSkips(text: seq<char16>, s: Cursor, k: int, stopAtLineEnd: bool)
    requires Shape(text, s) && s.c != 1 && 0 <= k && s.i + k <= |text|
    requires forall j :: s.i <= j < s.i + k ==> text[j] != NEWLINE && (s.c == 0 ==> text[j] != COLON)
    ensures Run(text, s, stopAtLineEnd) == Run(text, s.(i := s.i + k), stopAtLineEnd)
    decreases k
  {
    if k > 0 {
      assert Step(text, s, stopAtLineEnd) == s.(i := s.i + 1);
      RunSkips(text, s.(i := s.i + 1), k - 1, stopAtLineEnd);
    }
  }

  /** Where the blanks end. */
  lemma {:induction false} SkipSpacesAt(text: seq<char16>, k: int, m: int)
    requires 0 <= k <= m < |text| && text[m] != SPACE
    requires forall j :: k <= j < m ==> text[j] == SPACE
    ensures SkipSpaces(text, k) == m
    decreases m - k
  {
    if k < m {
      SkipSpacesAt(text, k + 1, m);
    }
  }

  /** Where the value ends. */
  lemma {:induction false} ValueEndAt(text: seq<char16>, k: int, m: int, stopAtLineEnd: bool)
    requires 0 <= k <= m < |text| && (text[m] == SPACE || (stopAtLineEnd && text[m] == NEWLINE))
    requires forall j :: k <= j < m ==> text[j] != SPACE && !(stopAtLineEnd && text[j] == NEWLINE)
    ensures ValueEnd(text, k, stopAtLineEnd) == m
    decreases m - k
  {
    if k < m {
      ValueEndAt(text, k + 1, m, stopAtLineEnd);
    }
  }

  /** `text[a..b]` holds no colon and no line break. */
  predicate KeyChars(text: seq<char16>, a: int, b: int)
    requires 0 <= a <= b <= |text|
  {
    forall j :: a <= j < b ==> text[j] != COLON && text[j] != NEWLINE
  }

  /** `text[a..b]` holds blanks only. */
  predicate BlankChars(text: seq<char16>, a: int, b: int)
    requires 0 <= a <= b <= |text|
  {
    forall j :: a <= j < b ==> text[j] == SPACE
  }

  /** `text[a..b]` holds no blank and no line break. */
  predicate ValueChars(text: seq<char16>, a: int, b: int)
    requires 0 <= a <= b <= |text|
  {
    forall j :: a <= j < b ==> text[j] != SPACE && text[j] != NEWLINE
  }

  /** `text[a..b]` holds no line break. */
  predicate LineChars(text: seq<char16>, a: int, b: int)
    requires 0 <= a <= b <= |text|
  {
    forall j :: a <= j < b ==> text[j] != NEWLINE
  }

  /** The parts of line `l` as the parser meets them from `p` on: a key
      without colon, the colon, blanks, a value that a blank (or, corrected,
      the line break) ends, and the rest up to the line break. */
  predicate LineAt(text: seq<char16>, p: int, l: Line, stopAtLineEnd: bool)
  {
    var q := p + |l.key|;
    var v := q + 1 + l.blanks;
    var w := v + |l.value|;
    var e := w + |l.rest|;
    0 <= p && e < |text| &&
    KeyChars(text, p, q) && text[q] == COLON && BlankChars(text, q + 1, v) && text[v] != SPACE &&
    ValueChars(text, v, w) && (text[w] == SPACE || (stopAtLineEnd && text[w] == NEWLINE)) &&
    LineChars(text, w, e) && text[e] == NEWLINE
  }

  /** The chars of a well-formed line laid out in a text from `p` on, part
      by part: key, colon, blanks, value, rest and line break. */
  lemma LineText(text: seq<char16>, p: int, l: Line, stopAtLineEnd: bool)
    requires LaidOut(text, p, l, stopAtLineEnd)
    ensures LineAt(text, p, l, stopAtLineEnd)
  {
    var q := p + |l.key|;
    var v := q + 1 + l.blanks;
    var w := v + |l.value|;
    var cs := l.Chars();
    assert forall j :: 0 <= j < |cs| ==> text[p + j] == cs[j];
    forall j | p <= j < q ensures text[j] == l.key[j - p] { assert cs[j - p] == l.key[j - p]; }
    assert cs[q - p] == COLON;
    forall j | q < j < v ensures text[j] == SPACE { assert cs[j - p] == SPACE; }
    forall j | v <= j < w ensures text[j] == l.value[j - v] { assert cs[j - p] == l.value[j - v]; }
    forall j | w <= j < w + |l.rest| ensures text[j] == l.rest[j - w] { assert cs[j - p] == l.rest[j - w]; }
    assert cs[w + |l.rest| - p] == NEWLINE;
  }

  /** The key: `parse` moves over it and closes column 0 at the colon. */
  lemma RunKey(text: seq<char16>, s: Cursor, q: int, stopAtLineEnd: bool)
    requires s.c == 0 && 0 <= s.start == s.i <= q < |text| && text[q] == COLON && KeyChars(text, s.i, q)
    ensures Run(text, s, stopAtLineEnd) ==
      Run(text, Cursor(1, s.n, q + 1, q + 1, s.spans[ProcFS.Cell(0, s.n) := ProcFS.Span(s.i, q - s.i + 1)]), stopAtLineEnd)
  {
    RunSkips(text, s, q - s.i, stopAtLineEnd);
    var at := Cursor(0, s.n, s.i, q, s.spans);
    assert at == s.(i := q);
    var next := Cursor(1, s.n, q + 1, q + 1, s.spans[ProcFS.Cell(0, s.n) := ProcFS.Span(s.i, q - s.i + 1)]);
    assert Step(text, at, stopAtLineEnd) == next;
    RunOnce(text, at, next, stopAtLineEnd);
  }

  /** A run from a cursor inside the text is the run from the next cursor. */
  lemma RunOnce(text: seq<char16>, s: Cursor, next: Cursor, stopAtLineEnd: bool)
    requires Shape(text, s) && s.i < |text| && next == Step(text, s, stopAtLineEnd)
    ensures Run(text, s, stopAtLineEnd) == Run(text, next, stopAtLineEnd)
  {
  }

  /** The blanks and the value: column 1 covers the value, and the loop
      goes on after the blank (or, corrected, at the line break) that ends it. */
  lemma RunValue(text: seq<char16>, s: Cursor, v: int, w: int, stopAtLineEnd: bool)
    requires s.c == 1 && 0 <= s.start == s.i <= v <= w < |text| && text[v] != SPACE
    requires BlankChars(text, s.i, v) && ValueChars(text, v, w)
    requires text[w] == SPACE || (stopAtLineEnd && text[w] == NEWLINE)
    ensures Run(text, s, stopAtLineEnd) ==
      Run(text, Cursor(2, s.n, w, if text[w] == NEWLINE then w else w + 1,
        s.spans[ProcFS.Cell(1, s.n) := ProcFS.Span(v, w - v)]), stopAtLineEnd)
  {
    SkipSpacesAt(text, s.start, v);
    ValueEndAt(text, v, w, stopAtLineEnd);
  }

  /** The rest: column 2 runs from the end of the value `w` to the line
      break at `e`, which closes the row. */
  lemma RunRest(text: seq<char16>, n: int, w: int, i: int, spans: map<ProcFS.Cell, ProcFS.Span>, e: int, stopAtLineEnd: bool,
                next: map<ProcFS.Cell, ProcFS.Span>)
    requires 0 <= w <= i <= e < |text| && text[e] == NEWLINE && LineChars(text, w, e)
    requires next == spans[ProcFS.Cell(2, n) := ProcFS.Span(w, e - w)]
    ensures Run(text, Cursor(2, n, w, i, spans), stopAtLineEnd) == Run(text, Cursor(0, n + 1, e + 1, e + 1, next), stopAtLineEnd)
  {
    RunSkips(text, Cursor(2, n, w, i, spans), e - i, stopAtLineEnd);
    assert Step(text, Cursor(2, n, w, e, spans), stopAtLineEnd) == Cursor(0, n + 1, e + 1, e + 1, next);
  }

  /** A line without a colon: only column 2 is written, with the whole
      line before its break; columns 0 and 1 of the row keep what they held. */
  lemma RunBare(text: seq<char16>, n: int, p: int, spans: map<ProcFS.Cell, ProcFS.Span>, e: int, stopAtLineEnd: bool)
    requires 0 <= p <= e < |text| && KeyChars(text, p, e) && text[e] == NEWLINE
    ensures Run(text, Cursor(0, n, p, p, spans), stopAtLineEnd) ==
      Run(text, Cursor(0, n + 1, e + 1, e + 1, spans[ProcFS.Cell(2, n) := ProcFS.Span(p, e - p)]), stopAtLineEnd)
  {
    assert Step(text, Cursor(0, n, p, e, spans), stopAtLineEnd) ==
      Cursor(0, n + 1, e + 1, e + 1, spans[ProcFS.Cell(2, n) := ProcFS.Span(p, e - p)]);
    RunSkips(text, Cursor(0, n, p, p, spans), e - p, stopAtLineEnd);
  }

  /** Key, colon, blanks and value: columns 0 and 1 are written, and the
      loop goes on in the rest of the line. */
  lemma RunKeyValue(text: seq<char16>, s: Cursor, q: int, v: int, w: int, stopAtLineEnd: bool,
                    i: int, next: map<ProcFS.Cell, ProcFS.Span>)
    requires s.c == 0 && 0 <= s.start == s.i <= q < v <= w < |text|
    requires KeyChars(text, s.i, q) && text[q] == COLON && BlankChars(text, q + 1, v) && text[v] != SPACE
    requires ValueChars(text, v, w) && (text[w] == SPACE || (stopAtLineEnd && text[w] == NEWLINE))
    requires i == (if text[w] == NEWLINE then w else w + 1)
    requires next == s.spans[ProcFS.Cell(0, s.n) := ProcFS.Span(s.i, q - s.i + 1)][ProcFS.Cell(1, s.n) := ProcFS.Span(v, w - v)]
    ensures Run(text, s, stopAtLineEnd) == Run(text, Cursor(2, s.n, w, i, next), stopAtLineEnd)
  {
    var atValue := Cursor(1, s.n, q + 1, q + 1, s.spans[ProcFS.Cell(0, s.n) := ProcFS.Span(s.i, q - s.i + 1)]);
    RunKey(text, s, q, stopAtLineEnd);
    RunValue(text, atValue, v, w, stopAtLineEnd);
  }

  /** A line laid out as key `[p, q)`, colon at `q`, blanks `(q, v)`, value
      `[v, w)` and rest `[w, e)` before the line break at `e` is closed as one
      row with its three spans. */
  lemma RunParts(text: seq<char16>, s: Cursor, q: int, v: int, w: int, e: int, stopAtLineEnd: bool,
                 m: int, next: map<ProcFS.Cell, ProcFS.Span>)
    requires s.c == 0 && 0 <= s.start == s.i <= q < v <= w <= e < |text|
    requires KeyChars(text, s.i, q) && text[q] == COLON && BlankChars(text, q + 1, v) && text[v] != SPACE
    requires ValueChars(text, v, w) && (text[w] == SPACE || (stopAtLineEnd && text[w] == NEWLINE))
    requires LineChars(text, w, e) && text[e] == NEWLINE
    requires next == s.spans[ProcFS.Cell(0, s.n) := ProcFS.Span(s.i, q - s.i + 1)]
                           [ProcFS.Cell(1, s.n) := ProcFS.Span(v, w - v)]
                           [ProcFS.Cell(2, s.n) := ProcFS.Span(w, e - w)]
    requires m == e + 1
    ensures Run(text, s, stopAtLineEnd) == Run(text, Cursor(0, s.n + 1, m, m, next), stopAtLineEnd)
  {
    var spans2 := s.spans[ProcFS.Cell(0, s.n) := ProcFS.Span(s.i, q - s.i + 1)]
                         [ProcFS.Cell(1, s.n) := ProcFS.Span(v, w - v)];
    var i2 := if text[w] == NEWLINE then w else w + 1;
    RunKeyValue(text, s, q, v, w, stopAtLineEnd, i2, spans2);
    RunRest(text, s.n, w, i2, spans2, e, stopAtLineEnd, next);
  }

  /** A well-formed line is closed as one row with its three spans. */
  lemma RunLine(text: seq<char16>, n: int, p: int, spans: map<ProcFS.Cell, ProcFS.Span>, l: Line, stopAtLineEnd: bool,
                m: int, next: map<ProcFS.Cell, ProcFS.Span>)
    requires LineAt(text, p, l, stopAtLineEnd)
    requires m == p + l.Size() && next == AddLine(spans, l, n, p)
    ensures Run(text, Cursor(0, n, p, p, spans), stopAtLineEnd) == Run(text, Cursor(0, n + 1, m, m, next), stopAtLineEnd)
  {
    var q := p + |l.key|;
    var v := q + 1 + l.blanks;
    var w := v + |l.value|;
    var e := w + |l.rest|;
    RunParts(text, Cursor(0, n, p, p, spans), q, v, w, e, stopAtLineEnd, m, next);
  }

  /** The chars of consecutive lines. */
  function Flatten(lines: seq<Line>): (cs: seq<char16>)
    decreases |lines|
  {
    if lines == [] then [] else lines[0].Chars() + Flatten(lines[1..])
  }

  /** The number of chars of consecutive lines. */
  function Width(lines: seq<Line>): nat
    decreases |lines|
  {
    if lines == [] then 0 else lines[0].Size() + Width(lines[1..])
  }

  /** Consecutive well-formed lines lie in `text` from `p` on. */
  predicate LinesAt(text: seq<char16>, p: int, lines: seq<Line>, stopAtLineEnd: bool)
    ensures LinesAt(text, p, lines, stopAtLineEnd) ==> 0 <= p && p + Width(lines) <= |text|
    decreases |lines|
  {
    if lines == [] then 0 <= p <= |text|
    else LineAt(text, p, lines[0], stopAtLineEnd) && LinesAt(text, p + lines[0].Size(), lines[1..], stopAtLineEnd)
  }

  /** The spans `parse` records for consecutive lines from row `n` and
      offset `p` on. */
  function Updates(spans: map<ProcFS.Cell, ProcFS.Span>, lines: seq<Line>, n: int, p: int): map<ProcFS.Cell, ProcFS.Span>
    decreases |lines|
  {
    if lines == [] then spans
    else Updates(AddLine(spans, lines[0], n, p), lines[1..], n + 1, p + lines[0].Size())
  }

  /** Consecutive well-formed lines are closed one row each: from row `n`
      and offset `p` the loop reaches row `n'` and offset `p'` with the
      spans `spans'`. */
  lemma {:induction false} RunLines(text: seq<char16>, n: int, p: int, spans: map<ProcFS.Cell, ProcFS.Span>,
                                    lines: seq<Line>, stopAtLineEnd: bool,
                                    n': int, p': int, spans': map<ProcFS.Cell, ProcFS.Span>)
    requires LinesAt(text, p, lines, stopAtLineEnd)
    requires n' == n + |lines| && p' == p + Width(lines) && spans' == Updates(spans, lines, n, p)
    ensures Run(text, Cursor(0, n, p, p, spans), stopAtLineEnd) == Run(text, Cursor(0, n', p', p', spans'), stopAtLineEnd)
    decreases |lines|
  {
    if lines != [] {
      var m := p + lines[0].Size();
      var next := AddLine(spans, lines[0], n, p);
      assert LinesAt(text, m, lines[1..], stopAtLineEnd);
      assert p' == m + Width(lines[1..]);
      assert spans' == Updates(next, lines[1..], n + 1, m);
      RunLine(text, n, p, spans, lines[0], stopAtLineEnd, m, next);
      RunLines(text, n + 1, m, next, lines[1..], stopAtLineEnd, n', p', spans');
    } else {
      assert n' == n && p' == p && spans' == spans;
    }
  }

  /** A slice that holds `a + b` holds `a`, then `b`. */
  lemma SliceSplit(text: seq<char16>, p: int, a: seq<char16>, b: seq<char16>)
    requires 0 <= p && p + |a| + |b| <= |text| && text[p..p + |a| + |b|] == a + b
    ensures text[p..p + |a|] == a && text[p + |a|..p + |a| + |b|] == b
  {
    assert text[p..p + |a|] == (a + b)[..|a|];
    assert text[p + |a|..p + |a| + |b|] == (a + b)[|a|..];
  }

  /** The first of several lines laid out from `p` on lies in the text, and
      the others follow it. */
  lemma FlattenStep(text: seq<char16>, p: int, l: Line, others: seq<char16>, stopAtLineEnd: bool)
    requires l.WellFormed(stopAtLineEnd)
    requires 0 <= p && p + l.Size() + |others| <= |text|
    requires text[p..p + l.Size() + |others|] == l.Chars() + others
    ensures LineAt(text, p, l, stopAtLineEnd)
    ensures text[p + l.Size()..p + l.Size() + |others|] == others
  {
    SliceSplit(text, p, l.Chars(), others);
    LineText(text, p, l, stopAtLineEnd);
  }

  /** Every line of `lines` is well formed, line by line. */
  predicate EachWellFormed(lines: seq<Line>, stopAtLineEnd: bool)
    decreases |lines|
  {
    lines == [] || (lines[0].WellFormed(stopAtLineEnd) && EachWellFormed(lines[1..], stopAtLineEnd))
  }

  lemma {:induction false} EachWellFormedAll(lines: seq<Line>, stopAtLineEnd: bool)
    requires forall k :: 0 <= k < |lines| ==> lines[k].WellFormed(stopAtLineEnd)
    ensures EachWellFormed(lines, stopAtLineEnd)
    decreases |lines|
  {
    if lines != [] {
      assert forall k :: 0 <= k < |lines| - 1 ==> lines[1..][k] == lines[k + 1];
      EachWellFormedAll(lines[1..], stopAtLineEnd);
    }
  }

  /** Well-formed lines laid out one after the other lie in the text. */
  lemma {:induction false} FlattenAt(text: seq<char16>, p: int, lines: seq<Line>, stopAtLineEnd: bool)
    requires EachWellFormed(lines, stopAtLineEnd)
    requires 0 <= p && p + |Flatten(lines)| <= |text| && text[p..p + |Flatten(lines)|] == Flatten(lines)
    ensures LinesAt(text, p, lines, stopAtLineEnd)
    decreases |lines|
  {
    if lines != [] {
      var l, rest := lines[0], lines[1..];
      var m := p + l.Size();
      FlattenCons(lines);
      FlattenStep(text, p, l, Flatten(rest), stopAtLineEnd);
      FlattenAt(text, m, rest, stopAtLineEnd);
      LinesAtCons(text, p, lines, stopAtLineEnd);
    }
  }

  lemma FlattenCons(lines: seq<Line>)
    requires lines != []
    ensures Flatten(lines) == lines[0].Chars() + Flatten(lines[1..])
    ensures |Flatten(lines)| == lines[0].Size() + |Flatten(lines[1..])|
  {
  }

  lemma LinesAtCons(text: seq<char16>, p: int, lines: seq<Line>, stopAtLineEnd: bool)
    requires lines != [] && LineAt(text, p, lines[0], stopAtLineEnd)
    requires LinesAt(text, p + lines[0].Size(), lines[1..], stopAtLineEnd)
    ensures LinesAt(text, p, lines, stopAtLineEnd)
  {
  }

  lemma {:induction false} WidthFlatten(lines: seq<Line>)
    ensures Width(lines) == |Flatten(lines)|
    decreases |lines|
  {
    if lines != [] {
      WidthFlatten(lines[1..]);
    }
  }

  /** A sequence without line breaks counts none. */
  lemma {:induction false} NoNewlines(cs: seq<char16>)
    requires forall j :: 0 <= j < |cs| ==> cs[j] != NEWLINE
    ensures CountNewlines(cs) == 0
    decreases |cs|
  {
    if cs != [] {
      NoNewlines(cs[..|cs| - 1]);
    }
  }

  /** A well-formed line holds exactly one line break, its last char. */
  lemma LineNewlines(l: Line, stopAtLineEnd: bool)
    requires l.WellFormed(stopAtLineEnd)
    ensures CountNewlines(l.Chars()) == 1 && l.Chars()[l.Size() - 1] == NEWLINE
  {
    var body := l.key + [COLON] + seq(l.blanks, _ => SPACE) + l.value + l.rest;
    assert l.Chars() == body + [NEWLINE];
    forall j | 0 <= j < |body| ensures body[j] != NEWLINE {
      var k := j - |l.key| - 1 - l.blanks - |l.value|;
      if j < |l.key| {
        assert body[j] == l.key[j];
      } else if j == |l.key| {
        assert body[j] == COLON;
      } else if j < |l.key| + 1 + l.blanks {
        assert body[j] == SPACE;
      } else if k < 0 {
        assert body[j] == l.value[j - |l.key| - 1 - l.blanks];
      } else {
        assert body[j] == l.rest[k];
      }
    }
    NoNewlines(body);
    CountNewlinesAppend(body, [NEWLINE]);
    assert [NEWLINE][..0] == [];
  }

  /** Consecutive well-formed lines hold one line break each, and the text
      they make ends in one. */
  lemma {:induction false} FlattenNewlines(lines: seq<Line>, stopAtLineEnd: bool)
    requires forall k :: 0 <= k < |lines| ==> lines[k].WellFormed(stopAtLineEnd)
    ensures CountNewlines(Flatten(lines)) == |lines|
    ensures lines != [] ==> |Flatten(lines)| > 0 && Flatten(lines)[|Flatten(lines)| - 1] == NEWLINE
    decreases |lines|
  {
    if lines != [] {
      LineNewlines(lines[0], stopAtLineEnd);
      FlattenNewlines(lines[1..], stopAtLineEnd);
      CountNewlinesAppend(lines[0].Chars(), Flatten(lines[1..]));
    }
  }

  /** Rows outside `[n, n + |lines|)` keep the spans they had. */
  lemma {:induction false} UpdatesOther(spans: map<ProcFS.Cell, ProcFS.Span>, lines: seq<Line>, n: int, p: int, cell: ProcFS.Cell)
    requires cell.row < n || cell.row >= n + |lines|
    ensures cell in Updates(spans, lines, n, p) <==> cell in spans
    ensures cell in spans ==> Updates(spans, lines, n, p)[cell] == spans[cell]
    decreases |lines|
  {
    if lines != [] {
      UpdatesOther(AddLine(spans, lines[0], n, p), lines[1..], n + 1, p + lines[0].Size(), cell);
    }
  }

  /** Row `row == n + r` holds the three spans of line `r`, which starts
      at `off`, `Width(lines[..r])` chars after `p`. */
  lemma {:induction false} UpdatesRow(spans: map<ProcFS.Cell, ProcFS.Span>, lines: seq<Line>, n: int, p: int,
                                      r: int, row: int, off: int, col: int)
    requires 0 <= r < |lines| && 0 <= col < COLUMNS && row == n + r && off == p + Width(lines[..r])
    ensures ProcFS.Cell(col, row) in Updates(spans, lines, n, p)
    ensures Updates(spans, lines, n, p)[ProcFS.Cell(col, row)] == lines[r].Spans(off)[col]
    decreases r
  {
    var spans' := AddLine(spans, lines[0], n, p);
    var m := p + lines[0].Size();
    if r == 0 {
      assert lines[..0] == [];
      UpdatesOther(spans', lines[1..], n + 1, m, ProcFS.Cell(col, n));
    } else {
      assert lines[..r][1..] == lines[1..][..r - 1];
      UpdatesRow(spans', lines[1..], n + 1, m, r - 1, row, off, col);
    }
  }

  /** A text made of well-formed lines lies out as those lines, ends in a
      line break and has one line per line break. */
  lemma FlattenFacts(text: seq<char16>, lines: seq<Line>, stopAtLineEnd: bool)
    requires lines != [] && forall k :: 0 <= k < |lines| ==> lines[k].WellFormed(stopAtLineEnd)
    requires text == Flatten(lines)
    ensures |text| > 0 && text[|text| - 1] == NEWLINE && LineCount(text) == |lines|
    ensures LinesAt(text, 0, lines, stopAtLineEnd) && Width(lines) == |text|
  {
    FlattenNewlines(lines, stopAtLineEnd);
    assert text[0..|text|] == text;
    EachWellFormedAll(lines, stopAtLineEnd);
    FlattenAt(text, 0, lines, stopAtLineEnd);
    WidthFlatten(lines);
  }

  /** Lines that fill the text are closed one row each, and `Finish` adds
      nothing after the last line break. */
  lemma LinesParse(text: seq<char16>, lines: seq<Line>, stopAtLineEnd: bool)
    requires |text| > 0 && text[|text| - 1] == NEWLINE
    requires LinesAt(text, 0, lines, stopAtLineEnd) && Width(lines) == |text|
    ensures Parsed(text, stopAtLineEnd) == Cursor(0, |lines|, |text|, |text|, Updates(map[], lines, 0, 0))
  {
    RunLines(text, 0, 0, map[], lines, stopAtLineEnd, |lines|, |text|, Updates(map[], lines, 0, 0));
  }

  /** The spans recorded for lines from row 0 and offset 0: row `r` holds
      the three spans of line `r`. */
  lemma UpdatesRows(lines: seq<Line>)
    ensures forall r, col :: 0 <= r < |lines| && 0 <= col < COLUMNS ==>
      ProcFS.Cell(col, r) in Updates(map[], lines, 0, 0) &&
      Updates(map[], lines, 0, 0)[ProcFS.Cell(col, r)] == lines[r].Spans(Width(lines[..r]))[col]
  {
    forall r, col | 0 <= r < |lines| && 0 <= col < COLUMNS
      ensures ProcFS.Cell(col, r) in Updates(map[], lines, 0, 0) &&
        Updates(map[], lines, 0, 0)[ProcFS.Cell(col, r)] == lines[r].Spans(Width(lines[..r]))[col]
    {
      UpdatesRow(map[], lines, 0, 0, r, r, Width(lines[..r]), col);
    }
  }

  /** No cell outside the three columns and the rows of the lines is written. */
  lemma UpdatesDomain(lines: seq<Line>)
    ensures forall cell :: cell in Updates(map[], lines, 0, 0) ==> 0 <= cell.col < COLUMNS && 0 <= cell.row < |lines|
  {
    forall cell | cell in Updates(map[], lines, 0, 0) ensures 0 <= cell.col < COLUMNS && 0 <= cell.row < |lines| {
      if cell.row < 0 || cell.row >= |lines| {
        UpdatesOther(map[], lines, 0, 0, cell);
      } else if !(0 <= cell.col < COLUMNS) {
        UpdatesCols(map[], lines, 0, 0, cell);
      }
    }
  }

  /**
   * A text made of well-formed lines parses into one row per line, the
   * assertion at the end of `parse` holds, and row `r` holds the spans of
   * key (with colon), value and rest of line `r` and nothing else.
   */
  lemma WellFormedParses(text: seq<char16>, lines: seq<Line>, stopAtLineEnd: bool)
    requires lines != [] && forall k :: 0 <= k < |lines| ==> lines[k].WellFormed(stopAtLineEnd)
    requires text == Flatten(lines)
    ensures |text| > 0 && Parsed(text, stopAtLineEnd).n == |lines| == LineCount(text)
    ensures forall r, col :: 0 <= r < |lines| && 0 <= col < COLUMNS ==>
      ProcFS.Cell(col, r) in Parsed(text, stopAtLineEnd).spans &&
      Parsed(text, stopAtLineEnd).spans[ProcFS.Cell(col, r)] == lines[r].Spans(Width(lines[..r]))[col]
    ensures forall cell :: cell in Parsed(text, stopAtLineEnd).spans ==>
      0 <= cell.col < COLUMNS && 0 <= cell.row < |lines|
  {
    FlattenFacts(text, lines, stopAtLineEnd);
    LinesParse(text, lines, stopAtLineEnd);
    UpdatesRows(lines);
    UpdatesDomain(lines);
  }

  /** Only the three columns are written. */
  lemma {:induction false} UpdatesCols(spans: map<ProcFS.Cell, ProcFS.Span>, lines: seq<Line>, n: int, p: int, cell: ProcFS.Cell)
    requires !(0 <= cell.col < COLUMNS)
    ensures cell in Updates(spans, lines, n, p) <==> cell in spans
    decreases |lines|
  {
    if lines != [] {
      UpdatesCols(AddLine(spans, lines[0], n, p), lines[1..], n + 1, p + lines[0].Size(), cell);
    }
  }

  /** `"a: 1\nb: 2\n"`: two lines whose values end their lines. */
  const Swallow: seq<char16> := [0x61, COLON, SPACE, 0x31, NEWLINE, 0x62, COLON, SPACE, 0x32, NEWLINE]

  /**
   * As written, the value scan stops at blanks only: the value of the first
   * line runs on through its line break into `"1\nb:"`, the second line's
   * break closes row 0, and `parse` ends with one row for a text of two
   * lines, so its closing assertion fails.
   */
  lemma SwallowedLine()
    ensures LineCount(Swallow) == 2
    ensures Parsed(Swallow, false).n == 1
    ensures ProcFS.Cell(1, 0) in Parsed(Swallow, false).spans
    ensures Parsed(Swallow, false).spans[ProcFS.Cell(1, 0)] == ProcFS.Span(3, 4)
  {
    var text := Swallow;
    SwallowFixed();
    var sp1 := map[][ProcFS.Cell(0, 0) := ProcFS.Span(0, 2)];
    RunKey(text, Begin, 1, false);
    SkipSpacesAt(text, 2, 3);
    ValueEndAt(text, 3, 7, false);
    var sp2 := sp1[ProcFS.Cell(1, 0) := ProcFS.Span(3, 4)];
    assert Step(text, Cursor(1, 0, 2, 2, sp1), false) == Cursor(2, 0, 7, 8, sp2);
    var last := Cursor(0, 1, 10, 10, sp2[ProcFS.Cell(2, 0) := ProcFS.Span(7, 2)]);
    RunRest(text, 0, 7, 8, sp2, 9, false, last.spans);
    assert Run(text, Begin, false) == last;
  }

  /** The corrected parser, which also ends a value at a line break, closes
      both lines of `Swallow` with their values `"1"` and `"2"`. */
  lemma SwallowFixed()
    ensures LineCount(Swallow) == 2
    ensures Parsed(Swallow, true).n == 2
    ensures ProcFS.Cell(1, 0) in Parsed(Swallow, true).spans && ProcFS.Cell(1, 1) in Parsed(Swallow, true).spans
    ensures Parsed(Swallow, true).spans[ProcFS.Cell(1, 0)] == ProcFS.Span(3, 1)
    ensures Parsed(Swallow, true).spans[ProcFS.Cell(1, 1)] == ProcFS.Span(8, 1)
  {
    var a := Line([0x61], 1, [0x31], []);
    var b := Line([0x62], 1, [0x32], []);
    var lines := [a, b];
    assert lines[1..] == [b] && lines[1..][1..] == [];
    assert seq(1, _ => SPACE) == [SPACE];
    assert a.Chars() == [0x61, COLON, SPACE, 0x31, NEWLINE];
    assert b.Chars() == [0x62, COLON, SPACE, 0x32, NEWLINE];
    assert Flatten([b]) == b.Chars() + Flatten([]);
    assert Flatten(lines) == a.Chars() + b.Chars();
    assert lines[..0] == [] && lines[..1] == [a] && [a][1..] == [];
    WellFormedParses(Swallow, lines, true);
  }
}
