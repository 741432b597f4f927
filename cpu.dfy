/**
 * `CPU`: the table of `/proc/stat`. Its parser cuts the first `ap + 1` lines
 * (the aggregate `cpu` line and one `cpuK` line per processor) into up to
 * eight whitespace-separated tokens; `textToStats` turns the tokens into
 * counters per processor, and `delta` into rates per second between two
 * generations.
 */
module Cpu {
  import opened JavaLang
  import ProcFS
  import Text
  import Numbers

  /** `super(8)`: the name and seven counters of a line. */
  const COLUMNS: nat := 8

  // ---------------------------------------------------------------------------
  // The tokenizer of `parse`

  /** The loop variables of `parse` (`c`, `n`, `start`, `i`) together with
      the spans written so far. */
  datatype Cursor = Cursor(c: int, n: int, start: int, i: int, spans: map<ProcFS.Cell, ProcFS.Span>)

  /** What the loop needs in order to make progress: `start` trails `i`, by
      at most one while tokens are still being taken. */
  predicate Shape(text: seq<char16>, s: Cursor)
  {
    0 <= s.c && 0 <= s.start <= s.i <= |text| + 1 && s.start <= |text| &&
    (s.c < COLUMNS ==> s.i <= s.start + 1)
  }

  /** The first index at or after `k` that is not a blank: blanks are the
      whitespace chars other than the line break. */
  function SkipBlanks(text: seq<char16>, k: int): (e: int)
    requires 0 <= k <= |text|
    ensures k <= e <= |text|
    decreases |text| - k
  {
    if k < |text| && text[k] != NEWLINE && IsWhitespace(text[k]) then SkipBlanks(text, k + 1) else k
  }

  /** The end of the token that starts at `k`: the next whitespace char,
      line breaks included, or the end of the text. */
  function TokenEnd(text: seq<char16>, k: int): (e: int)
    requires 0 <= k <= |text|
    ensures k <= e <= |text|
    decreases |text| - k
  {
    if k < |text| && !IsWhitespace(text[k]) then TokenEnd(text, k + 1) else k
  }

  /**
   * One turn of the `while (i < len && n < count)` loop of `parse`. While
   * fewer than eight columns are taken and `i` is not at a line break, the
   * blanks from `start` are skipped and the token after them is recorded;
   * a line break records the span since `start` (while a column is left)
   * and moves to the next row; past the eighth column the chars up to the
   * line break are passed over. Every turn ends with `i++`, which also
   * steps over the char that ended a token.
   */
  function Step(text: seq<char16>, s: Cursor): (s': Cursor)
    requires Shape(text, s) && s.i < |text|
    ensures Shape(text, s')
    ensures s'.i > s.i || (s'.i == s.i && s.c < COLUMNS && s'.c == s.c + 1)
  {
    if s.c < COLUMNS && text[s.i] != NEWLINE then
      var first := SkipBlanks(text, s.start);
      var end := TokenEnd(text, first);
      Cursor(s.c + 1, s.n, end, end + 1, s.spans[ProcFS.Cell(s.c, s.n) := ProcFS.Span(first, end - first)])
    else if text[s.i] == NEWLINE then
      Cursor(0, s.n + 1, s.i + 1, s.i + 1,
        if s.c < COLUMNS then s.spans[ProcFS.Cell(s.c, s.n) := ProcFS.Span(s.start, s.i - s.start)] else s.spans)
    else
      s.(i := s.i + 1)
  }

  /** The rest of the loop from cursor `s`, with `count` rows wanted. */
  function Run(text: seq<char16>, s: Cursor, count: int): (r: Cursor)
    requires Shape(text, s)
    ensures r.i >= |text| || r.n >= count
    decreases |text| + 1 - s.i, if s.c < COLUMNS then COLUMNS - s.c else 0
  {
    if s.i >= |text| || s.n >= count then s else Run(text, Step(text, s), count)
  }

  /** The cursor `parse` starts from. */
  const Begin: Cursor := Cursor(0, 0, 0, 0, map[])

  /** `Math.min(count, ap + 1)`: the aggregate line and one line per processor. */
  function Clamp(count: int, ap: int): (k: int)
    ensures k <= count && k <= ap + 1
    ensures k == count || k == ap + 1
  {
    if count < ap + 1 then count else ap + 1
  }

  /**
   * After the loop: an unterminated last line is closed with the end of the
   * text as its terminator, while a column is left. `parse` as written does
   * so even when the loop stopped because `count` rows were closed already;
   * the corrected parser (`corrected`) does it only while rows are wanted.
   */
  function Finish(text: seq<char16>, s: Cursor, count: int, corrected: bool): Cursor
    requires |text| > 0
  {
    if text[|text| - 1] != NEWLINE && s.c < COLUMNS && (!corrected || s.n < count) then
      s.(n := s.n + 1, spans := s.spans[ProcFS.Cell(s.c, s.n) := ProcFS.Span(s.start, |text| - s.start)])
    else s
  }

  /** What `parse` leaves for a text on a device with `ap` processors: the
      rows it closed (`n`) and the spans. */
  function Parsed(text: seq<char16>, ap: int, corrected: bool): Cursor
    requires |text| > 0
  {
    var count := Clamp(LineCount(text), ap);
    Finish(text, Run(text, Begin, count), count, corrected)
  }

  /** The end of the part of `text` the loop has passed. */
  function Passed(text: seq<char16>, i: int): (k: int)
    requires 0 <= i
    ensures 0 <= k <= |text|
  {
    if i < |text| then i else |text|
  }

  /** A span that lies inside `text`. */
  predicate Inside(text: seq<char16>, span: ProcFS.Span)
  {
    0 <= span.offset && 0 <= span.length && span.offset + span.length <= |text|
  }

  /** What `parse` keeps true at the head of its loop: rows are closed at
      line breaks only and never more than `count`, and every span written
      so far lies inside the text, in one of the eight columns and in a row
      below `count`. */
  predicate Good(text: seq<char16>, count: int, s: Cursor)
  {
    |text| > 0 && Shape(text, s) &&
    0 <= s.n <= CountNewlines(text[..Passed(text, s.i)]) && s.n <= count &&
    forall cell :: cell in s.spans ==>
      0 <= cell.col < COLUMNS && 0 <= cell.row < count && Inside(text, s.spans[cell])
  }

  lemma StepGood(text: seq<char16>, count: int, s: Cursor)
    requires Good(text, count, s) && s.i < |text| && s.n < count
    ensures Good(text, count, Step(text, s))
  {
    var s' := Step(text, s);
    CountNewlinesMonotone(text, s.i, Passed(text, s'.i));
    if !(s.c < COLUMNS && text[s.i] != NEWLINE) && text[s.i] == NEWLINE {
      CountNewlinesNext(text, s.i);
    }
  }

  lemma {:induction false} RunGood(text: seq<char16>, count: int, s: Cursor)
    requires Good(text, count, s)
    ensures Good(text, count, Run(text, s, count))
    decreases |text| + 1 - s.i, if s.c < COLUMNS then COLUMNS - s.c else 0
  {
    if s.i < |text| && s.n < count {
      StepGood(text, count, s);
      RunGood(text, count, Step(text, s));
    }
  }

  /**
   * `parse` writes only into the eight columns and the rows the span arrays
   * have (one per line), and every span lies inside the text. The corrected
   * parser closes at most `count` rows; as written, the closing of an
   * unterminated last line can add one more.
   */
  lemma ParsedWithin(text: seq<char16>, ap: int, corrected: bool)
    requires |text| > 0 && ap >= 0
    ensures var p := Parsed(text, ap, corrected);
      var count := Clamp(LineCount(text), ap);
      0 <= p.n <= count + 1 && (corrected ==> p.n <= count) &&
      forall cell :: cell in p.spans ==>
        0 <= cell.col < COLUMNS && 0 <= cell.row < LineCount(text) && Inside(text, p.spans[cell])
  {
    var count := Clamp(LineCount(text), ap);
    assert text[..0] == [];
    LineCountPositive(text);
    RunGood(text, count, Begin);
    var r := Run(text, Begin, count);
    assert text[..|text|] == text;
    CountNewlinesMonotone(text, Passed(text, r.i), |text|);
  }

  // ---------------------------------------------------------------------------
  // The parser on the span arrays

  /** The two inner loops of the token branch of `parse`: skip the blanks
      from `start`, then take the chars up to the next whitespace. */
  method ScanToken(chars: array<char16>, start: int) returns (first: int, end: int)
    requires 0 <= start <= chars.Length
    ensures first == SkipBlanks(chars[..], start)
    ensures end == TokenEnd(chars[..], first)
  {
    var len := chars.Length;
    first := start;
    while first < len && chars[first] != NEWLINE && IsWhitespace(chars[first])
      invariant start <= first <= len
      invariant SkipBlanks(chars[..], first) == SkipBlanks(chars[..], start)
    {
      first := first + 1;
    }
    end := first;
    while end < len && !IsWhitespace(chars[end])
      invariant first <= end <= len
      invariant TokenEnd(chars[..], end) == TokenEnd(chars[..], first)
    {
      end := end + 1;
    }
  }

  /**
   * `parse(d, len, count, hasLastLineBreak)` up to its closing assertion:
   * fills the eight span columns of `d` for the first `min(count, ap + 1)`
   * lines; `ok` is false where `assertion(n == count)` fails. Cells `parse`
   * does not reach keep what they held. `corrected` false is the method as
   * written, true the one that closes an unterminated last line only while
   * rows are wanted.
   */
  method Parse(d: ProcFS.Data, len: int, count: int, hasLastLineBreak: bool, ap: nat, corrected: bool)
    returns (ok: bool, n: int)
    requires d.Valid() && d.columns == COLUMNS && d.chars != null && d.offsets != null
    requires len == d.chars.Length && len > 0
    requires hasLastLineBreak == (d.chars[len - 1] == NEWLINE)
    requires count == LineCount(d.chars[..]) && d.offsets.Length1 == count
    modifies d.offsets, d.lengths
    ensures var p := Parsed(d.chars[..], ap, corrected);
      n == p.n && (ok <==> n == Clamp(count, ap)) && ProcFS.Holds(d, p.spans) &&
      forall col, row :: 0 <= col < COLUMNS && 0 <= row < count && ProcFS.Cell(col, row) !in p.spans ==>
        d.offsets[col, row] == old(d.offsets[col, row]) && d.lengths[col, row] == old(d.lengths[col, row])
  {
    ghost var text := d.chars[..];
    var wanted := Clamp(count, ap);
    var c, start, i;
    ghost var spans;
    c, n, start, i, spans := Scan(d, text, wanted);
    n, spans := CloseLast(d, text, wanted, corrected, hasLastLineBreak, c, n, start, i, spans);
    ok := n == wanted;
  }

  /** The lines after the loop of `parse`: an unterminated last line is
      closed with `len` as its terminator, as `Finish` says. */
  method CloseLast(d: ProcFS.Data, ghost text: seq<char16>, count: int, corrected: bool, hasLastLineBreak: bool,
                   c: int, n: int, start: int, ghost i: int, ghost spans: map<ProcFS.Cell, ProcFS.Span>)
    returns (n': int, ghost spans': map<ProcFS.Cell, ProcFS.Span>)
    requires d.Valid() && d.columns == COLUMNS && d.chars != null && d.offsets != null
    requires text == d.chars[..] && |text| > 0 && d.offsets.Length1 == LineCount(text)
    requires hasLastLineBreak == (text[|text| - 1] == NEWLINE)
    requires Good(text, count, Cursor(c, n, start, i, spans)) && ProcFS.Holds(d, spans)
    modifies d.offsets, d.lengths
    ensures Cursor(c, n', start, i, spans') == Finish(text, Cursor(c, n, start, i, spans), count, corrected)
    ensures ProcFS.Holds(d, spans') && spans.Keys <= spans'.Keys
    ensures forall col, row :: 0 <= col < COLUMNS && 0 <= row < d.offsets.Length1 && ProcFS.Cell(col, row) !in spans' ==>
      d.offsets[col, row] == old(d.offsets[col, row]) && d.lengths[col, row] == old(d.lengths[col, row])
  {
    if !hasLastLineBreak && c < COLUMNS && (!corrected || n < count) {
      assert text[..|text|] == text;
      CountNewlinesMonotone(text, Passed(text, i), |text|);
      var span := ProcFS.Span(start, d.chars.Length - start);
      spans' := ProcFS.Put(d, spans, ProcFS.Cell(c, n), span);
      n' := n + 1;
    } else {
      n', spans' := n, spans;
    }
  }

  /** The `while (i < len && n < count)` loop of `parse`: it ends where
      `Run` ends. */
  method Scan(d: ProcFS.Data, ghost text: seq<char16>, count: int)
    returns (c: int, n: int, start: int, i: int, ghost spans: map<ProcFS.Cell, ProcFS.Span>)
    requires d.Valid() && d.columns == COLUMNS && d.chars != null && d.offsets != null
    requires text == d.chars[..] && |text| > 0 && d.offsets.Length1 == LineCount(text)
    requires 0 <= count <= LineCount(text)
    modifies d.offsets, d.lengths
    ensures Cursor(c, n, start, i, spans) == Run(text, Begin, count)
    ensures Good(text, count, Cursor(c, n, start, i, spans)) && ProcFS.Holds(d, spans)
    ensures forall col, row :: 0 <= col < COLUMNS && 0 <= row < d.offsets.Length1 && ProcFS.Cell(col, row) !in spans ==>
      d.offsets[col, row] == old(d.offsets[col, row]) && d.lengths[col, row] == old(d.lengths[col, row])
  {
    spans := map[];
    c, n, start, i := 0, 0, 0, 0;
    assert text[..0] == [];
    while i < d.chars.Length && n < count
      invariant Good(text, count, Cursor(c, n, start, i, spans))
      invariant Run(text, Cursor(c, n, start, i, spans), count) == Run(text, Begin, count)
      invariant ProcFS.Holds(d, spans)
      invariant forall col, row :: 0 <= col < COLUMNS && 0 <= row < d.offsets.Length1 && ProcFS.Cell(col, row) !in spans ==>
        d.offsets[col, row] == old(d.offsets[col, row]) && d.lengths[col, row] == old(d.lengths[col, row])
      decreases |text| + 1 - i, if c < COLUMNS then COLUMNS - c else 0
    {
      StepGood(text, count, Cursor(c, n, start, i, spans));
      c, n, start, i, spans := Turn(d, text, c, n, start, i, spans);
    }
  }

  /** One turn of the loop of `parse`: the cursor moves as `Step` says, and
      only the cell `Step` writes changes. */
  method Turn(d: ProcFS.Data, ghost text: seq<char16>,
              c: int, n: int, start: int, i: int, ghost spans: map<ProcFS.Cell, ProcFS.Span>)
    returns (c': int, n': int, start': int, i': int, ghost spans': map<ProcFS.Cell, ProcFS.Span>)
    requires d.Valid() && d.columns == COLUMNS && d.chars != null && d.offsets != null
    requires text == d.chars[..] && Shape(text, Cursor(c, n, start, i, spans)) && i < |text|
    requires 0 <= n < d.offsets.Length1 && ProcFS.Holds(d, spans)
    modifies d.offsets, d.lengths
    ensures Cursor(c', n', start', i', spans') == Step(text, Cursor(c, n, start, i, spans))
    ensures ProcFS.Holds(d, spans') && spans.Keys <= spans'.Keys
    ensures forall col, row :: 0 <= col < COLUMNS && 0 <= row < d.offsets.Length1 && ProcFS.Cell(col, row) !in spans' ==>
      d.offsets[col, row] == old(d.offsets[col, row]) && d.lengths[col, row] == old(d.lengths[col, row])
  {
    ghost var s := Cursor(c, n, start, i, spans);
    if c < COLUMNS && d.chars[i] != NEWLINE {
      var first, end := ScanToken(d.chars, start);
      var span := ProcFS.Span(first, end - first);
      c', n', start', i' := c + 1, n, end, end + 1;
      assert Cursor(c', n', start', i', spans[ProcFS.Cell(c, n) := span]) == Step(text, s);
      spans' := ProcFS.Put(d, spans, ProcFS.Cell(c, n), span);
    } else if d.chars[i] == NEWLINE {
      c', n', start', i' := 0, n + 1, i + 1, i + 1;
      if c < COLUMNS {
        var span := ProcFS.Span(start, i - start);
        assert Cursor(c', n', start', i', spans[ProcFS.Cell(c, n) := span]) == Step(text, s);
        spans' := ProcFS.Put(d, spans, ProcFS.Cell(c, n), span);
      } else {
        spans' := spans;
      }
    } else {
      c', n', start', i', spans' := c, n, start, i + 1, spans;
    }
  }

  // ---------------------------------------------------------------------------
  // What the parser makes of well-formed lines

  /** One field of a `/proc/stat` line: some blanks, then a token. */
  datatype Field = Field(blanks: nat, token: seq<char16>)
  {
    function Size(): nat
    {
      blanks + |token|
    }

    function Chars(): (cs: seq<char16>)
      ensures |cs| == Size()
    {
      seq(blanks, _ => SPACE) + token
    }
  }

  /** The number of chars of consecutive fields. */
  function FieldsSize(fields: seq<Field>): nat
    decreases |fields|
  {
    if fields == [] then 0 else fields[0].Size() + FieldsSize(fields[1..])
  }

  /** The chars of consecutive fields. */
  function FieldsChars(fields: seq<Field>): (cs: seq<char16>)
    ensures |cs| == FieldsSize(fields)
    decreases |fields|
  {
    if fields == [] then [] else fields[0].Chars() + FieldsChars(fields[1..])
  }

  /** A token: at least one char, none of them whitespace. */
  predicate Token(t: seq<char16>)
  {
    |t| > 0 && forall j :: 0 <= j < |t| ==> !IsWhitespace(t[j])
  }

  /** Fields that each hold a token after at least one blank. */
  predicate Spaced(fields: seq<Field>)
    decreases |fields|
  {
    fields == [] || (fields[0].blanks >= 1 && Token(fields[0].token) && Spaced(fields[1..]))
  }

  /**
   * One line of `/proc/stat` as `parse` reads it: eight fields (the `cpu`
   * name and the seven counters `user` to `softirq`), then the rest of the
   * line before its break, which holds the counters `parse` passes over.
   */
  datatype Line = Line(fields: seq<Field>, rest: seq<char16>)
  {
    /** The number of chars of the line, line break included. */
    function Size(): nat
    {
      FieldsSize(fields) + |rest| + 1
    }

    /** The chars of the line, line break included. */
    function Chars(): (cs: seq<char16>)
      ensures |cs| == Size()
    {
      FieldsChars(fields) + rest + [NEWLINE]
    }

    /** Eight tokens, blanks between them, and a rest that starts with a
        blank other than the line break, so that the eighth token does not
        end at the line break (the kernel writes ten counters per line). */
    predicate WellFormed()
    {
      |fields| == COLUMNS && Token(fields[0].token) && Spaced(fields[1..]) &&
      |rest| > 0 && IsWhitespace(rest[0]) &&
      forall j :: 0 <= j < |rest| ==> rest[j] != NEWLINE
    }
  }

  /** `text[a..b]` holds blanks only. */
  predicate BlankChars(text: seq<char16>, a: int, b: int)
    requires 0 <= a <= b <= |text|
  {
    forall j :: a <= j < b ==> text[j] == SPACE
  }

  /** `text[a..b]` holds no whitespace. */
  predicate TokenChars(text: seq<char16>, a: int, b: int)
    requires 0 <= a <= b <= |text|
  {
    forall j :: a <= j < b ==> !IsWhitespace(text[j])
  }

  /** `text[a..b]` holds no line break. */
  predicate LineChars(text: seq<char16>, a: int, b: int)
    requires 0 <= a <= b <= |text|
  {
    forall j :: a <= j < b ==> text[j] != NEWLINE
  }

  /** Field `f` as the parser meets it from `q` on: blanks, a token, and a
      whitespace char that ends the token. */
  predicate FieldAt(text: seq<char16>, q: int, f: Field)
  {
    var v := q + f.blanks;
    var e := v + |f.token|;
    0 <= q && v < e < |text| && BlankChars(text, q, v) && TokenChars(text, v, e) && IsWhitespace(text[e])
  }

  /** Consecutive fields from `q` on, each after at least one blank. */
  predicate FieldsAt(text: seq<char16>, q: int, fields: seq<Field>)
    ensures FieldsAt(text, q, fields) ==> 0 <= q && q + FieldsSize(fields) < |text|
    decreases |fields|
  {
    if fields == [] then 0 <= q < |text|
    else fields[0].blanks >= 1 && FieldAt(text, q, fields[0]) && FieldsAt(text, q + fields[0].Size(), fields[1..])
  }

  /** Line `l` as the parser meets it from `p` on: the first field, the
      seven others, and the rest up to the line break. */
  predicate LineAt(text: seq<char16>, p: int, l: Line)
  {
    var e := p + FieldsSize(l.fields);
    var m := e + |l.rest|;
    |l.fields| == COLUMNS && |l.rest| > 0 &&
    FieldAt(text, p, l.fields[0]) && FieldsAt(text, p + l.fields[0].Size(), l.fields[1..]) &&
    e < m < |text| && LineChars(text, e, m) && text[m] == NEWLINE
  }

  /** The spans `parse` records for `fields` in row `n`, from column `k`
      and offset `q` on: each token. */
  function AddFields(spans: map<ProcFS.Cell, ProcFS.Span>, fields: seq<Field>, k: int, n: int, q: int): map<ProcFS.Cell, ProcFS.Span>
    decreases |fields|
  {
    if fields == [] then spans
    else
      var f := fields[0];
      AddFields(spans[ProcFS.Cell(k, n) := ProcFS.Span(q + f.blanks, |f.token|)], fields[1..], k + 1, n, q + f.Size())
  }

  /** Where the blanks end. */
  lemma {:induction false} SkipBlanksAt(text: seq<char16>, k: int, m: int)
    requires 0 <= k <= m < |text| && BlankChars(text, k, m) && !IsWhitespace(text[m])
    ensures SkipBlanks(text, k) == m
    decreases m - k
  {
    if k < m {
      SkipBlanksAt(text, k + 1, m);
    }
  }

  /** Where the token ends. */
  lemma {:induction false} TokenEndAt(text: seq<char16>, k: int, m: int)
    requires 0 <= k <= m < |text| && TokenChars(text, k, m) && IsWhitespace(text[m])
    ensures TokenEnd(text, k) == m
    decreases m - k
  {
    if k < m {
      TokenEndAt(text, k + 1, m);
    }
  }

  /** A run from a cursor inside the text, with rows still wanted, is the
      run from the next cursor. */
  lemma RunOnce(text: seq<char16>, s: Cursor, count: int, next: Cursor)
    requires Shape(text, s) && s.i < |text| && s.n < count && next == Step(text, s)
    ensures Run(text, s, count) == Run(text, next, count)
  {
  }

  /** One field in one turn: the blanks from `start` are skipped and the
      token after them is recorded in column `c`. */
  lemma RunField(text: seq<char16>, s: Cursor, count: int, f: Field, next: Cursor)
    requires 0 <= s.c < COLUMNS && s.n < count && FieldAt(text, s.start, f)
    requires s.i == (if s.c == 0 then s.start else s.start + 1) && (s.c == 0 || f.blanks >= 1)
    requires next == Cursor(s.c + 1, s.n, s.start + f.Size(), s.start + f.Size() + 1,
      s.spans[ProcFS.Cell(s.c, s.n) := ProcFS.Span(s.start + f.blanks, |f.token|)])
    ensures Run(text, s, count) == Run(text, next, count)
  {
    var v := s.start + f.blanks;
    var e := v + |f.token|;
    SkipBlanksAt(text, s.start, v);
    TokenEndAt(text, v, e);
    assert text[s.i] != NEWLINE by {
      if s.i < v {
        assert text[s.i] == SPACE;
      } else {
        assert !IsWhitespace(text[s.i]);
      }
    }
    assert Step(text, s) == next;
    RunOnce(text, s, count, next);
  }

  /** Fields after the first, each in one turn: from column `k` and offset
      `q` the loop reaches the cursor `last`. */
  lemma {:induction false} RunFields(text: seq<char16>, n: int, q: int, spans: map<ProcFS.Cell, ProcFS.Span>,
                                     fields: seq<Field>, k: int, count: int, last: Cursor)
    requires 1 <= k && k + |fields| <= COLUMNS && n < count && FieldsAt(text, q, fields)
    requires last == Cursor(k + |fields|, n, q + FieldsSize(fields), q + FieldsSize(fields) + 1,
      AddFields(spans, fields, k, n, q))
    ensures Run(text, Cursor(k, n, q, q + 1, spans), count) == Run(text, last, count)
    decreases |fields|
  {
    if fields != [] {
      var f := fields[0];
      var m := q + f.Size();
      var next := spans[ProcFS.Cell(k, n) := ProcFS.Span(q + f.blanks, |f.token|)];
      assert last == Cursor(k + 1 + |fields[1..]|, n, m + FieldsSize(fields[1..]), m + FieldsSize(fields[1..]) + 1,
        AddFields(next, fields[1..], k + 1, n, m));
      var s0 := Cursor(k, n, q, q + 1, spans);
      var s1 := Cursor(k + 1, n, m, m + 1, next);
      RunField(text, s0, count, f, s1);
      RunFields(text, n, m, next, fields[1..], k + 1, count, last);
      assert Run(text, s0, count) == Run(text, s1, count) == Run(text, last, count);
    } else {
      assert last == Cursor(k, n, q, q + 1, spans);
    }
  }

  /** Past the eighth column the chars up to the line break only move `i`. */
  lemma {:induction false} RunPass(text: seq<char16>, s: Cursor, count: int, m: int)
    requires Shape(text, s) && s.c >= COLUMNS && s.n < count
    requires s.i <= m < |text| && LineChars(text, s.i, m)
    ensures Run(text, s, count) == Run(text, s.(i := m), count)
    decreases m - s.i
  {
    if s.i < m {
      RunOnce(text, s, count, s.(i := s.i + 1));
      RunPass(text, s.(i := s.i + 1), count, m);
    }
  }

  /** The rest of a line after its eighth token: passed over up to the
      line break at `m`, which closes the row without a span. */
  lemma RunRest(text: seq<char16>, n: int, e: int, spans: map<ProcFS.Cell, ProcFS.Span>, count: int, m: int)
    requires 0 <= e < m < |text| && LineChars(text, e + 1, m) && text[m] == NEWLINE && n < count
    ensures Run(text, Cursor(COLUMNS, n, e, e + 1, spans), count) == Run(text, Cursor(0, n + 1, m + 1, m + 1, spans), count)
  {
    var s := Cursor(COLUMNS, n, e, e + 1, spans);
    RunPass(text, s, count, m);
    RunOnce(text, s.(i := m), count, Cursor(0, n + 1, m + 1, m + 1, spans));
  }

  /** The spans `parse` records for line `l` in row `n`, from offset `p` on. */
  function AddLine(spans: map<ProcFS.Cell, ProcFS.Span>, l: Line, n: int, p: int): map<ProcFS.Cell, ProcFS.Span>
  {
    AddFields(spans, l.fields, 0, n, p)
  }

  /** The rest of a line laid out from `p` on: after the eighth token at
      `e` come chars other than line breaks, up to the break at `brk`. */
  lemma LineBreak(text: seq<char16>, p: int, l: Line, e: int, brk: int)
    requires LineAt(text, p, l) && e == p + FieldsSize(l.fields) && brk == e + |l.rest|
    ensures 0 <= e < brk < |text| && text[brk] == NEWLINE && LineChars(text, e + 1, brk)
  {
  }

  /** A line laid out from `p` on is closed as one row with its eight
      token spans. */
  lemma RunLine(text: seq<char16>, n: int, p: int, spans: map<ProcFS.Cell, ProcFS.Span>, l: Line, count: int,
                m: int, next: map<ProcFS.Cell, ProcFS.Span>)
    requires LineAt(text, p, l) && n < count
    requires m == p + l.Size() && next == AddLine(spans, l, n, p)
    ensures Run(text, Cursor(0, n, p, p, spans), count) == Run(text, Cursor(0, n + 1, m, m, next), count)
  {
    var f := l.fields[0];
    var q := p + f.Size();
    var first := spans[ProcFS.Cell(0, n) := ProcFS.Span(p + f.blanks, |f.token|)];
    var e := p + FieldsSize(l.fields);
    assert e == q + FieldsSize(l.fields[1..]);
    assert next == AddFields(first, l.fields[1..], 1, n, q);
    var s0 := Cursor(0, n, p, p, spans);
    var s1 := Cursor(1, n, q, q + 1, first);
    var s2 := Cursor(COLUMNS, n, e, e + 1, next);
    RunField(text, s0, count, f, s1);
    RunFields(text, n, q, first, l.fields[1..], 1, count, s2);
    var brk := e + |l.rest|;
    LineBreak(text, p, l, e, brk);
    var s3 := Cursor(0, n + 1, brk + 1, brk + 1, next);
    assert s3 == Cursor(0, n + 1, m, m, next);
    RunRest(text, n, e, next, count, brk);
    assert Run(text, s0, count) == Run(text, s1, count) == Run(text, s2, count) == Run(text, s3, count);
  }

  /** Every one of consecutive lines is well formed. */
  predicate AllWellFormed(lines: seq<Line>)
    decreases |lines|
  {
    lines == [] || (lines[0].WellFormed() && AllWellFormed(lines[1..]))
  }

  /** The number of chars of consecutive lines. */
  function Width(lines: seq<Line>): nat
    decreases |lines|
  {
    if lines == [] then 0 else lines[0].Size() + Width(lines[1..])
  }

  /** The chars of consecutive lines. */
  function Flatten(lines: seq<Line>): (cs: seq<char16>)
    ensures |cs| == Width(lines)
    decreases |lines|
  {
    if lines == [] then [] else lines[0].Chars() + Flatten(lines[1..])
  }

  /** The spans `parse` records for consecutive lines from row `n` and
      offset `p` on. */
  function Updates(spans: map<ProcFS.Cell, ProcFS.Span>, lines: seq<Line>, n: int, p: int): map<ProcFS.Cell, ProcFS.Span>
    decreases |lines|
  {
    if lines == [] then spans
    else Updates(AddLine(spans, lines[0], n, p), lines[1..], n + 1, p + lines[0].Size())
  }

  /** A slice that holds `a + b` holds `a`, then `b`. */
  lemma SliceSplit(text: seq<char16>, p: int, a: seq<char16>, b: seq<char16>)
    requires 0 <= p && p + |a| + |b| <= |text| && text[p..p + |a| + |b|] == a + b
    ensures text[p..p + |a|] == a && text[p + |a|..p + |a| + |b|] == b
  {
    assert text[p..p + |a|] == (a + b)[..|a|];
    assert text[p + |a|..p + |a| + |b|] == (a + b)[|a|..];
  }

  /** Consecutive well-formed lines in the text from `p` on are closed one
      row each, while rows are wanted: from row `n` the loop reaches the
      cursor `last`. */
  lemma {:induction false} RunLines(text: seq<char16>, n: int, p: int, spans: map<ProcFS.Cell, ProcFS.Span>,
                                    lines: seq<Line>, count: int, last: Cursor)
    requires AllWellFormed(lines)
    requires 0 <= p && p + Width(lines) <= |text| && text[p..p + Width(lines)] == Flatten(lines)
    requires n + |lines| <= count
    requires last == Cursor(0, n + |lines|, p + Width(lines), p + Width(lines), Updates(spans, lines, n, p))
    ensures Run(text, Cursor(0, n, p, p, spans), count) == Run(text, last, count)
    decreases |lines|
  {
    if lines != [] {
      var l := lines[0];
      var m := p + l.Size();
      var next := AddLine(spans, l, n, p);
      FirstLine(text, p, lines, m);
      var s0 := Cursor(0, n, p, p, spans);
      var s1 := Cursor(0, n + 1, m, m, next);
      RunLineText(text, n, p, spans, l, count, m, next);
      Peel(spans, lines, n, p, m, next, last);
      RunLines(text, n + 1, m, next, lines[1..], count, last);
      assert Run(text, s0, count) == Run(text, s1, count) == Run(text, last, count);
    } else {
      assert last == Cursor(0, n, p, p, spans);
    }
  }

  /** The cursor after consecutive lines is the cursor after the lines
      that follow the first one. */
  lemma Peel(spans: map<ProcFS.Cell, ProcFS.Span>, lines: seq<Line>, n: int, p: int,
             m: int, next: map<ProcFS.Cell, ProcFS.Span>, last: Cursor)
    requires lines != [] && m == p + lines[0].Size() && next == AddLine(spans, lines[0], n, p)
    requires last == Cursor(0, n + |lines|, p + Width(lines), p + Width(lines), Updates(spans, lines, n, p))
    ensures last == Cursor(0, n + 1 + |lines[1..]|, m + Width(lines[1..]), m + Width(lines[1..]),
      Updates(next, lines[1..], n + 1, m))
  {
  }

  /** The first of consecutive lines in a text, and the lines after it. */
  lemma {:induction false} FirstLine(text: seq<char16>, p: int, lines: seq<Line>, m: int)
    requires AllWellFormed(lines)
    requires 0 <= p && p + Width(lines) <= |text| && text[p..p + Width(lines)] == Flatten(lines)
    requires lines != [] && m == p + lines[0].Size()
    ensures lines[0].WellFormed() && m <= |text| && text[p..m] == lines[0].Chars()
    ensures AllWellFormed(lines[1..])
    ensures m + Width(lines[1..]) <= |text| && text[m..m + Width(lines[1..])] == Flatten(lines[1..])
  {
    SliceSplit(text, p, lines[0].Chars(), Flatten(lines[1..]));
  }

  /** `RunLine` for a line the text holds char for char. */
  lemma RunLineText(text: seq<char16>, n: int, p: int, spans: map<ProcFS.Cell, ProcFS.Span>, l: Line, count: int,
                    m: int, next: map<ProcFS.Cell, ProcFS.Span>)
    requires l.WellFormed() && m == p + l.Size() && next == AddLine(spans, l, n, p)
    requires 0 <= p && m <= |text| && text[p..m] == l.Chars() && n < count
    ensures Run(text, Cursor(0, n, p, p, spans), count) == Run(text, Cursor(0, n + 1, m, m, next), count)
  {
    LineText(text, p, l);
    RunLine(text, n, p, spans, l, count, m, next);
  }

  /** A field whose chars the text holds from `q` on, before a whitespace
      char, is met by the parser as `FieldAt` says. */
  lemma FieldText(text: seq<char16>, q: int, f: Field)
    requires Token(f.token) && 0 <= q && q + f.Size() < |text|
    requires text[q..q + f.Size()] == f.Chars() && IsWhitespace(text[q + f.Size()])
    ensures FieldAt(text, q, f)
  {
    var v := q + f.blanks;
    forall j | q <= j < v
      ensures text[j] == SPACE
    {
      assert text[j] == text[q..q + f.Size()][j - q];
    }
    forall j | v <= j < v + |f.token|
      ensures !IsWhitespace(text[j])
    {
      assert text[j] == text[q..q + f.Size()][j - q];
      assert f.Chars()[j - q] == f.token[j - v];
    }
  }

  /** Fields that start with a blank start with a space in the text. */
  lemma FirstBlank(text: seq<char16>, r: int, fields: seq<Field>)
    requires fields != [] && fields[0].blanks >= 1
    requires 0 <= r && r + FieldsSize(fields) <= |text| && text[r..r + FieldsSize(fields)] == FieldsChars(fields)
    ensures r < |text| && text[r] == SPACE
  {
    var g := fields[0];
    assert FieldsChars(fields) == g.Chars() + FieldsChars(fields[1..]);
    assert text[r] == FieldsChars(fields)[0] == g.Chars()[0];
  }

  /** The chars of fields in a text: the first field, then the others
      from `r` on. */
  lemma FieldsSplit(text: seq<char16>, q: int, fields: seq<Field>, r: int)
    requires fields != [] && r == q + fields[0].Size()
    requires 0 <= q && q + FieldsSize(fields) <= |text| && text[q..q + FieldsSize(fields)] == FieldsChars(fields)
    ensures r + FieldsSize(fields[1..]) == q + FieldsSize(fields)
    ensures text[q..r] == fields[0].Chars() && text[r..r + FieldsSize(fields[1..])] == FieldsChars(fields[1..])
  {
    SliceSplit(text, q, fields[0].Chars(), FieldsChars(fields[1..]));
  }

  /** Fields whose chars the text holds from `q` on, before a whitespace
      char, are met by the parser as `FieldsAt` says. */
  lemma {:induction false} FieldsText(text: seq<char16>, q: int, fields: seq<Field>)
    requires Spaced(fields) && 0 <= q && q + FieldsSize(fields) < |text|
    requires text[q..q + FieldsSize(fields)] == FieldsChars(fields) && IsWhitespace(text[q + FieldsSize(fields)])
    ensures FieldsAt(text, q, fields)
    decreases |fields|
  {
    if fields != [] {
      var f := fields[0];
      var r := q + f.Size();
      FieldsSplit(text, q, fields, r);
      FieldsText(text, r, fields[1..]);
      if fields[1..] != [] {
        FirstBlank(text, r, fields[1..]);
      }
      FieldText(text, q, f);
    }
  }

  /** A well-formed line whose chars the text holds from `p` on is laid
      out as the parser meets it. */
  lemma LineText(text: seq<char16>, p: int, l: Line)
    requires l.WellFormed() && 0 <= p && p + l.Size() <= |text| && text[p..p + l.Size()] == l.Chars()
    ensures LineAt(text, p, l)
  {
    var f := l.fields[0];
    var q := p + f.Size();
    var e := p + FieldsSize(l.fields);
    var m := e + |l.rest|;
    SliceSplit(text, p, FieldsChars(l.fields), l.rest + [NEWLINE]);
    RestText(text, e, l.rest);
    var others := l.fields[1..];
    FieldsSplit(text, p, l.fields, q);
    FieldsText(text, q, others);
    FirstBlank(text, q, others);
    FieldText(text, p, f);
  }

  /** The rest of a line and its break, as the text holds them. */
  lemma RestText(text: seq<char16>, e: int, rest: seq<char16>)
    requires 0 <= e && e + |rest| + 1 <= |text| && text[e..e + |rest| + 1] == rest + [NEWLINE]
    requires |rest| > 0 && forall j :: 0 <= j < |rest| ==> rest[j] != NEWLINE
    ensures text[e] == rest[0] && LineChars(text, e, e + |rest|) && text[e + |rest|] == NEWLINE
  {
    var m := e + |rest|;
    SliceSplit(text, e, rest, [NEWLINE]);
    assert text[m] == text[m..m + 1][0];
    assert text[e] == text[e..m][0];
    forall j | e <= j < m
      ensures text[j] != NEWLINE
    {
      assert text[j] == text[e..m][j - e];
    }
  }

  // ---------------------------------------------------------------------------
  // Where the spans of well-formed lines point

  /** Cells outside row `n`, columns `k` on, are left as they were. */
  lemma {:induction false} AddFieldsOther(spans: map<ProcFS.Cell, ProcFS.Span>, fields: seq<Field>, k: int, n: int, q: int,
                                          cell: ProcFS.Cell)
    requires !(cell.row == n && k <= cell.col < k + |fields|)
    ensures (cell in AddFields(spans, fields, k, n, q) <==> cell in spans)
    ensures cell in spans ==> AddFields(spans, fields, k, n, q)[cell] == spans[cell]
    decreases |fields|
  {
    if fields != [] {
      var f := fields[0];
      AddFieldsOther(spans[ProcFS.Cell(k, n) := ProcFS.Span(q + f.blanks, |f.token|)], fields[1..], k + 1, n, q + f.Size(), cell);
    }
  }

  /** Column `k + j` of row `n` holds the span of the token of field `j`. */
  lemma {:induction false} AddFieldsLookup(spans: map<ProcFS.Cell, ProcFS.Span>, fields: seq<Field>, k: int, n: int, q: int,
                                           j: int)
    requires 0 <= j < |fields|
    ensures ProcFS.Cell(k + j, n) in AddFields(spans, fields, k, n, q)
    ensures AddFields(spans, fields, k, n, q)[ProcFS.Cell(k + j, n)] ==
      ProcFS.Span(q + FieldsSize(fields[..j]) + fields[j].blanks, |fields[j].token|)
    decreases |fields|
  {
    var f := fields[0];
    var next := spans[ProcFS.Cell(k, n) := ProcFS.Span(q + f.blanks, |f.token|)];
    if j == 0 {
      AddFieldsOther(next, fields[1..], k + 1, n, q + f.Size(), ProcFS.Cell(k, n));
      assert fields[..0] == [];
    } else {
      AddFieldsLookup(next, fields[1..], k + 1, n, q + f.Size(), j - 1);
      assert fields[..j][1..] == fields[1..][..j - 1];
    }
  }

  /** Rows outside `n .. n + |lines|` are left as they were. */
  lemma {:induction false} UpdatesOther(spans: map<ProcFS.Cell, ProcFS.Span>, lines: seq<Line>, n: int, p: int,
                                        cell: ProcFS.Cell)
    requires !(n <= cell.row < n + |lines|)
    ensures (cell in Updates(spans, lines, n, p) <==> cell in spans)
    ensures cell in spans ==> Updates(spans, lines, n, p)[cell] == spans[cell]
    decreases |lines|
  {
    if lines != [] {
      AddFieldsOther(spans, lines[0].fields, 0, n, p, cell);
      UpdatesOther(AddLine(spans, lines[0], n, p), lines[1..], n + 1, p + lines[0].Size(), cell);
    }
  }

  /** The cells the fields add: row `n`, columns `k` on. */
  lemma {:induction false} AddFieldsKeys(spans: map<ProcFS.Cell, ProcFS.Span>, fields: seq<Field>, k: int, n: int, q: int,
                                         cell: ProcFS.Cell)
    requires cell in AddFields(spans, fields, k, n, q) && cell !in spans
    ensures cell.row == n && k <= cell.col < k + |fields|
    decreases |fields|
  {
    var f := fields[0];
    var next := spans[ProcFS.Cell(k, n) := ProcFS.Span(q + f.blanks, |f.token|)];
    if cell !in next {
      AddFieldsKeys(next, fields[1..], k + 1, n, q + f.Size(), cell);
    }
  }

  /** The cells the lines add: a column of a field in one of their rows. */
  lemma {:induction false} UpdatesKeys(spans: map<ProcFS.Cell, ProcFS.Span>, lines: seq<Line>, n: int, p: int,
                                       cell: ProcFS.Cell)
    requires cell in Updates(spans, lines, n, p) && cell !in spans
    ensures n <= cell.row < n + |lines| && 0 <= cell.col < |lines[cell.row - n].fields|
    decreases |lines|
  {
    var next := AddLine(spans, lines[0], n, p);
    if cell in next {
      AddFieldsKeys(spans, lines[0].fields, 0, n, p, cell);
    } else {
      UpdatesKeys(next, lines[1..], n + 1, p + lines[0].Size(), cell);
      assert lines[1..][cell.row - (n + 1)] == lines[cell.row - n];
    }
  }

  /** Column `k` of row `n + r` holds the span of the token of field `k` of
      line `r`, counted from `p`. */
  lemma {:induction false} UpdatesLookup(spans: map<ProcFS.Cell, ProcFS.Span>, lines: seq<Line>, n: int, p: int,
                                         r: int, k: int)
    requires 0 <= r < |lines| && 0 <= k < |lines[r].fields|
    ensures ProcFS.Cell(k, n + r) in Updates(spans, lines, n, p)
    ensures Updates(spans, lines, n, p)[ProcFS.Cell(k, n + r)] ==
      ProcFS.Span(p + Width(lines[..r]) + FieldsSize(lines[r].fields[..k]) + lines[r].fields[k].blanks,
                  |lines[r].fields[k].token|)
    decreases |lines|
  {
    var l := lines[0];
    var next := AddLine(spans, l, n, p);
    if r == 0 {
      AddFieldsLookup(spans, l.fields, 0, n, p, k);
      UpdatesOther(next, lines[1..], n + 1, p + l.Size(), ProcFS.Cell(k, n));
      assert lines[..0] == [];
    } else {
      UpdatesLookup(next, lines[1..], n + 1, p + l.Size(), r - 1, k);
      assert lines[..r][1..] == lines[1..][..r - 1];
    }
  }

  /** The chars of line `r` sit in the chars of the lines after those of
      the lines before it. */
  lemma {:induction false} FlattenAt(lines: seq<Line>, r: int)
    requires 0 <= r < |lines|
    ensures Width(lines[..r]) + lines[r].Size() <= Width(lines)
    ensures Flatten(lines)[Width(lines[..r])..Width(lines[..r]) + lines[r].Size()] == lines[r].Chars()
    decreases r, 1
  {
    if r == 0 {
      var head := lines[0].Chars();
      assert Flatten(lines) == head + Flatten(lines[1..]);
      assert lines[..0] == [];
      SliceOfHead(head, Flatten(lines[1..]), 0, |head|);
    } else {
      FlattenAtLater(lines, r);
    }
  }

  /** `FlattenAt` for a line after the first. */
  lemma {:induction false} FlattenAtLater(lines: seq<Line>, r: int)
    requires 0 < r < |lines|
    ensures Width(lines[..r]) + lines[r].Size() <= Width(lines)
    ensures Flatten(lines)[Width(lines[..r])..Width(lines[..r]) + lines[r].Size()] == lines[r].Chars()
    decreases r, 0
  {
    var head := lines[0].Chars();
    var tail := lines[1..];
    var all := Flatten(tail);
    assert Flatten(lines) == head + all;
    FlattenAt(tail, r - 1);
    assert lines[..r][1..] == tail[..r - 1];
    var w := Width(tail[..r - 1]);
    var size := lines[r].Size();
    assert tail[r - 1] == lines[r];
    assert all[w..w + size] == lines[r].Chars();
    assert Width(lines[..r]) == |head| + w;
    SliceOfTail(head, all, |head| + w, |head| + w + size);
  }

  /** The token of field `j` sits in the chars of the fields after its
      blanks and the fields before it. */
  lemma {:induction false} FieldsCharsAt(fields: seq<Field>, j: int)
    requires 0 <= j < |fields|
    ensures FieldsSize(fields[..j]) + fields[j].Size() <= FieldsSize(fields)
    ensures FieldsChars(fields)[FieldsSize(fields[..j]) + fields[j].blanks..FieldsSize(fields[..j]) + fields[j].Size()]
      == fields[j].token
    decreases j
  {
    var f := fields[0];
    var head := f.Chars();
    var tail := fields[1..];
    assert FieldsChars(fields) == head + FieldsChars(tail);
    if j == 0 {
      assert fields[..0] == [];
      SliceOfHead(head, FieldsChars(tail), f.blanks, |head|);
      assert head[f.blanks..] == f.token;
    } else {
      FieldsCharsAt(tail, j - 1);
      assert fields[..j][1..] == tail[..j - 1];
      var w := FieldsSize(tail[..j - 1]);
      assert FieldsSize(fields[..j]) == |head| + w;
      SliceOfTail(head, FieldsChars(tail), |head| + w + fields[j].blanks, |head| + w + fields[j].Size());
    }
  }

  // ---------------------------------------------------------------------------
  // Line breaks of well-formed lines

  /** The chars of fields with tokens hold no line break. */
  lemma {:induction false} FieldsNoBreak(fields: seq<Field>)
    requires fields != [] ==> Token(fields[0].token) && Spaced(fields[1..])
    ensures forall j :: 0 <= j < |FieldsChars(fields)| ==> FieldsChars(fields)[j] != NEWLINE
    decreases |fields|
  {
    if fields != [] {
      var f := fields[0];
      var cs := FieldsChars(fields);
      FieldsNoBreak(fields[1..]);
      assert cs == f.Chars() + FieldsChars(fields[1..]);
      forall j | 0 <= j < |cs|
        ensures cs[j] != NEWLINE
      {
        if j >= f.Size() {
          assert cs[j] == FieldsChars(fields[1..])[j - f.Size()];
        } else if j >= f.blanks {
          assert cs[j] == f.token[j - f.blanks];
        }
      }
    }
  }

  /** A well-formed line holds exactly one line break, its last char. */
  lemma LineBreaks(l: Line)
    requires l.WellFormed()
    ensures CountNewlines(l.Chars()) == 1
  {
    FieldsNoBreak(l.fields);
    var body := FieldsChars(l.fields) + l.rest;
    assert forall j :: 0 <= j < |body| ==> body[j] != NEWLINE;
    CountNewlinesNone(body);
    CountNewlinesAppend(body, [NEWLINE]);
    assert CountNewlines([NEWLINE]) == 1 by {
      assert [NEWLINE][..0] == [];
    }
  }

  /** Well-formed lines hold one line break each. */
  lemma {:induction false} FlattenBreaks(lines: seq<Line>)
    requires AllWellFormed(lines)
    ensures CountNewlines(Flatten(lines)) == |lines|
    decreases |lines|
  {
    if lines != [] {
      LineBreaks(lines[0]);
      FlattenBreaks(lines[1..]);
      CountNewlinesAppend(lines[0].Chars(), Flatten(lines[1..]));
    }
  }

  // ---------------------------------------------------------------------------
  // What `parse` makes of the first `ap + 1` lines of `/proc/stat`

  /** The chars of a text that a span covers. */
  function SpanText(text: seq<char16>, span: ProcFS.Span): (t: seq<char16>)
    requires Inside(text, span)
    ensures |t| == span.length
  {
    text[span.offset..span.offset + span.length]
  }

  /** A span that covers the token of field `k` of a line. */
  predicate Covers(text: seq<char16>, span: ProcFS.Span, l: Line, k: int)
  {
    0 <= k < |l.fields| && Inside(text, span) && SpanText(text, span) == l.fields[k].token
  }

  /** The token of field `k` sits in the chars of its line after the fields
      before it and its blanks. */
  lemma {:induction false} LineTokenAt(l: Line, k: int)
    requires 0 <= k < |l.fields|
    ensures FieldsSize(l.fields[..k]) + l.fields[k].Size() <= FieldsSize(l.fields)
    ensures l.Chars()[FieldsSize(l.fields[..k]) + l.fields[k].blanks..FieldsSize(l.fields[..k]) + l.fields[k].Size()]
      == l.fields[k].token
  {
    FieldsCharsAt(l.fields, k);
    var w := FieldsSize(l.fields[..k]);
    SliceOfHead(FieldsChars(l.fields), l.rest + [NEWLINE], w + l.fields[k].blanks, w + l.fields[k].Size());
    assert l.Chars() == FieldsChars(l.fields) + (l.rest + [NEWLINE]);
  }

  /** The span `parse` records for field `k` of line `r` covers its token. */
  lemma {:induction false} CellText(text: seq<char16>, lines: seq<Line>, tail: seq<char16>, r: int, k: int)
    requires text == Flatten(lines) + tail && 0 <= r < |lines| && 0 <= k < |lines[r].fields|
    ensures ProcFS.Cell(k, r) in Updates(map[], lines, 0, 0)
    ensures var sp := Updates(map[], lines, 0, 0)[ProcFS.Cell(k, r)];
      Inside(text, sp) && SpanText(text, sp) == lines[r].fields[k].token
  {
    UpdatesLookup(map[], lines, 0, 0, r, k);
    TokenInText(text, lines, tail, r, k);
  }

  /** The token of field `k` of line `r` in a text that starts with the
      lines: after the lines before it, the fields before it and its
      blanks. */
  lemma {:induction false} TokenInText(text: seq<char16>, lines: seq<Line>, tail: seq<char16>, r: int, k: int)
    requires text == Flatten(lines) + tail && 0 <= r < |lines| && 0 <= k < |lines[r].fields|
    ensures var from := 0 + Width(lines[..r]) + FieldsSize(lines[r].fields[..k]) + lines[r].fields[k].blanks;
      var to := from + |lines[r].fields[k].token|;
      0 <= from <= to <= |text| && text[from..to] == lines[r].fields[k].token
  {
    var l := lines[r];
    var f := l.fields[k];
    var w := Width(lines[..r]);
    var v := FieldsSize(l.fields[..k]);
    FlattenTokenAt(lines, r, k);
    SliceOfHead(Flatten(lines), tail, w + (v + f.blanks), w + (v + f.Size()));
  }

  /** The token of field `k` of line `r` in the chars of the lines. */
  lemma {:induction false} FlattenTokenAt(lines: seq<Line>, r: int, k: int)
    requires 0 <= r < |lines| && 0 <= k < |lines[r].fields|
    ensures var w := Width(lines[..r]);
      var v := FieldsSize(lines[r].fields[..k]);
      var f := lines[r].fields[k];
      0 <= w + (v + f.blanks) <= w + (v + f.Size()) <= |Flatten(lines)| &&
      Flatten(lines)[w + (v + f.blanks)..w + (v + f.Size())] == f.token
  {
    var l := lines[r];
    var f := l.fields[k];
    var w := Width(lines[..r]);
    var v := FieldsSize(l.fields[..k]);
    FlattenAt(lines, r);
    LineTokenAt(l, k);
    SliceInside(Flatten(lines), w, w + l.Size(), l.Chars(), v + f.blanks, v + f.Size(), f.token);
  }

  /** On `ap + 1` well-formed lines, the loop of `parse` closes one row per
      line and stops after the last of them. */
  lemma StatRun(text: seq<char16>, lines: seq<Line>, tail: seq<char16>, ap: int)
    requires ap >= 0 && |lines| == ap + 1 && AllWellFormed(lines) && text == Flatten(lines) + tail
    ensures |text| > 0 && Clamp(LineCount(text), ap) == ap + 1
    ensures Run(text, Begin, ap + 1) == Cursor(0, ap + 1, Width(lines), Width(lines), Updates(map[], lines, 0, 0))
  {
    var all := Flatten(lines);
    var w := Width(lines);
    assert |all| >= lines[0].Size() > 0;
    FlattenBreaks(lines);
    CountNewlinesAppend(all, tail);
    assert text[0..w] == all;
    var last := Cursor(0, ap + 1, w, w, Updates(map[], lines, 0, 0));
    RunLines(text, 0, 0, map[], lines, ap + 1, last);
    assert Run(text, last, ap + 1) == last;
  }

  /**
   * `parse` on a `/proc/stat` text whose first `ap + 1` lines are well
   * formed. The corrected parser closes exactly `ap + 1` rows, and the
   * parser as written does so exactly when the text ends with a line break
   * (otherwise the assertion after it fails). The spans of the corrected
   * parser are those of the lines.
   */
  lemma StatRows(text: seq<char16>, lines: seq<Line>, tail: seq<char16>, ap: int)
    requires ap >= 0 && |lines| == ap + 1 && text == Flatten(lines) + tail
    requires forall r :: 0 <= r < |lines| ==> lines[r].WellFormed()
    ensures |text| > 0
    ensures Parsed(text, ap, true).n == ap + 1
    ensures Parsed(text, ap, false).n == ap + 1 <==> text[|text| - 1] == NEWLINE
    ensures Parsed(text, ap, true).spans == Updates(map[], lines, 0, 0)
  {
    AllWellFormedFrom(lines);
    StatRun(text, lines, tail, ap);
    var r := Run(text, Begin, ap + 1);
    assert Parsed(text, ap, true) == Finish(text, r, ap + 1, true) == r;
    assert Parsed(text, ap, false) == Finish(text, r, ap + 1, false);
  }

  /** The cells of the corrected parser on well-formed lines are exactly
      the eight columns of their rows, each covering the token of its
      field. */
  lemma StatCells(text: seq<char16>, lines: seq<Line>, tail: seq<char16>, ap: int)
    requires ap >= 0 && |lines| == ap + 1 && text == Flatten(lines) + tail
    requires forall r :: 0 <= r < |lines| ==> lines[r].WellFormed()
    ensures |text| > 0
    ensures forall cell :: cell in Parsed(text, ap, true).spans <==> 0 <= cell.col < COLUMNS && 0 <= cell.row <= ap
    ensures forall r, k :: 0 <= r <= ap && 0 <= k < COLUMNS ==>
      Covers(text, Parsed(text, ap, true).spans[ProcFS.Cell(k, r)], lines[r], k)
  {
    StatRows(text, lines, tail, ap);
    var spans := Updates(map[], lines, 0, 0);
    forall cell
      ensures cell in spans <==> 0 <= cell.col < COLUMNS && 0 <= cell.row <= ap
    {
      StatKey(lines, cell);
    }
    forall r, k | 0 <= r <= ap && 0 <= k < COLUMNS
      ensures ProcFS.Cell(k, r) in spans && Covers(text, spans[ProcFS.Cell(k, r)], lines[r], k)
    {
      assert lines[r].WellFormed();
      CellText(text, lines, tail, r, k);
    }
  }

  /** The cells the spans of well-formed lines fill. */
  lemma StatKey(lines: seq<Line>, cell: ProcFS.Cell)
    requires forall r :: 0 <= r < |lines| ==> lines[r].WellFormed()
    ensures cell in Updates(map[], lines, 0, 0) <==> 0 <= cell.col < COLUMNS && 0 <= cell.row < |lines|
  {
    if cell in Updates(map[], lines, 0, 0) {
      StatKeyIn(lines, cell);
    } else if 0 <= cell.row < |lines| && 0 <= cell.col < COLUMNS {
      StatKeyOut(lines, cell);
    }
  }

  lemma StatKeyIn(lines: seq<Line>, cell: ProcFS.Cell)
    requires forall r :: 0 <= r < |lines| ==> lines[r].WellFormed()
    requires cell in Updates(map[], lines, 0, 0)
    ensures 0 <= cell.col < COLUMNS && 0 <= cell.row < |lines|
  {
    UpdatesKeys(map[], lines, 0, 0, cell);
    assert lines[cell.row].WellFormed();
  }

  lemma StatKeyOut(lines: seq<Line>, cell: ProcFS.Cell)
    requires forall r :: 0 <= r < |lines| ==> lines[r].WellFormed()
    requires 0 <= cell.col < COLUMNS && 0 <= cell.row < |lines|
    ensures cell in Updates(map[], lines, 0, 0)
  {
    assert lines[cell.row].WellFormed();
    UpdatesHas(map[], lines, 0, 0, cell);
  }

  /** Column `k` of row `n + r` is filled by the lines. */
  lemma UpdatesHas(spans: map<ProcFS.Cell, ProcFS.Span>, lines: seq<Line>, n: int, p: int, cell: ProcFS.Cell)
    requires 0 <= cell.row - n < |lines| && 0 <= cell.col < |lines[cell.row - n].fields|
    ensures cell in Updates(spans, lines, n, p)
  {
    UpdatesLookup(spans, lines, n, p, cell.row - n, cell.col);
    assert cell == ProcFS.Cell(cell.col, n + (cell.row - n));
  }

  /** Consecutive lines each well formed. */
  lemma {:induction false} AllWellFormedFrom(lines: seq<Line>)
    requires forall r :: 0 <= r < |lines| ==> lines[r].WellFormed()
    ensures AllWellFormed(lines)
    decreases |lines|
  {
    if lines != [] {
      assert forall r :: 0 <= r < |lines[1..]| ==> lines[1..][r] == lines[r + 1];
      AllWellFormedFrom(lines[1..]);
    }
  }


  /**
   * The closing of an unterminated last line after the loop, as written,
   * also runs when the loop stopped because `count` rows were closed: on
   * the three lines `"\n\nb"` of a device with one processor (`ap == 1`),
   * two rows are wanted, but `parse` closes three and its assertion fails.
   * The corrected parser closes the two rows.
   */
  lemma FinishAfterCount()
    ensures var text: seq<char16> := [NEWLINE, NEWLINE, 0x62];
      Clamp(LineCount(text), 1) == 2 && Parsed(text, 1, false).n == 3 && Parsed(text, 1, true).n == 2
  {
    var text: seq<char16> := [NEWLINE, NEWLINE, 0x62];
    assert [NEWLINE][..0] == [] && CountNewlines([NEWLINE]) == 1;
    assert [NEWLINE, NEWLINE][..1] == [NEWLINE] && CountNewlines([NEWLINE, NEWLINE]) == 2;
    assert text[..2] == [NEWLINE, NEWLINE] && CountNewlines(text) == 2;
    var s1 := Step(text, Begin);
    assert s1 == Cursor(0, 1, 1, 1, map[ProcFS.Cell(0, 0) := ProcFS.Span(0, 0)]);
    var s2 := Step(text, s1);
    assert s2 == Cursor(0, 2, 2, 2, map[ProcFS.Cell(0, 0) := ProcFS.Span(0, 0), ProcFS.Cell(0, 1) := ProcFS.Span(1, 0)]);
    assert Run(text, s1, 2) == s2;
    assert Run(text, Begin, 2) == s2;
  }
}
