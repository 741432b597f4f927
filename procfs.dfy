/**
 * `ProcFS`: the polling engine behind the `/proc` tables. A worker reads the
 * whole pseudo-file into a growing byte buffer, decodes it, counts its lines,
 * lets the table's parser cut it into (offset, length) spans, and publishes
 * the result by flipping the generation index `ix`: the worker fills
 * `data[ix]` while readers look at `data[1 - ix]`. Commands reach the worker
 * through a one-slot mailbox.
 */
module ProcFS {
  import opened JavaLang
  import Utf8
  import Text

  /** The byte buffer a fresh `Data` starts with. */
  const INITIAL_CAPACITY: nat := 4096

  /**
   * One generation of a table: the bytes read, the chars decoded from them,
   * and per column the offset and length of each row's span in `chars`.
   * The source keeps one `int[]` per column; all columns are always resized
   * together to the line count, so a `columns x rows` matrix holds the same.
   */
  class Data {
    const columns: nat
    var bytes: array<byte>
    var chars: array?<char16>
    var offsets: array2?<int>
    var lengths: array2?<int>

    ghost predicate Valid()
      reads this
    {
      (offsets == null <==> lengths == null) &&
      (offsets != null ==>
        offsets != lengths &&
        offsets.Length0 == columns && lengths.Length0 == columns &&
        offsets.Length1 == lengths.Length1)
    }

    constructor(columns: nat)
      ensures Valid() && this.columns == columns
      ensures fresh(bytes) && bytes.Length == INITIAL_CAPACITY
      ensures chars == null && offsets == null && lengths == null
    {
      this.columns := columns;
      bytes := new byte[INITIAL_CAPACITY];
      chars := null;
      offsets := null;
      lengths := null;
    }
  }

  /** Two generations share no array, so filling or parsing one leaves the
      other as it is. */
  ghost predicate Apart(a: Data, b: Data)
    reads a, b
  {
    a != b && a.bytes != b.bytes &&
    (a.chars != null ==> a.chars != b.chars) &&
    (a.offsets != null ==> a.offsets != b.offsets && a.offsets != b.lengths) &&
    (a.lengths != null ==> a.lengths != b.offsets && a.lengths != b.lengths)
  }

  /** A generation whose span arrays have one row per line of its text, as
      `read` leaves it once the lines are counted. */
  ghost predicate Counted(d: Data)
    reads d, d.chars
  {
    d.offsets != null ==>
      d.chars != null && d.chars.Length > 0 && d.offsets.Length1 == LineCount(d.chars[..])
  }

  /** A position `[col][row]` in a generation's span arrays. */
  datatype Cell = Cell(col: int, row: int)

  /** What a parser stores at a cell: `offsets[col][row]` and `lengths[col][row]`. */
  datatype Span = Span(offset: int, length: int)

  /** Every cell `spans` names lies in the span arrays of `d`, which hold
      that span there. */
  ghost predicate Holds(d: Data, spans: map<Cell, Span>)
    reads d, d.offsets, d.lengths
  {
    d.Valid() && d.offsets != null &&
    forall cell :: cell in spans ==>
      0 <= cell.col < d.columns && 0 <= cell.row < d.offsets.Length1 &&
      d.offsets[cell.col, cell.row] == spans[cell].offset &&
      d.lengths[cell.col, cell.row] == spans[cell].length
  }

  /** `d.offsets[col][row] = offset; d.lengths[col][row] = length`, with the
      spans a parser has written so far carried along: the one cell now
      holds `span`, every cell no span names holds what it held. */
  method Put(d: Data, ghost spans: map<Cell, Span>, cell: Cell, span: Span) returns (ghost spans': map<Cell, Span>)
    requires Holds(d, spans) && 0 <= cell.col < d.columns && 0 <= cell.row < d.offsets.Length1
    modifies d.offsets, d.lengths
    ensures spans' == spans[cell := span] && Holds(d, spans') && spans.Keys <= spans'.Keys
    ensures forall col, row :: 0 <= col < d.columns && 0 <= row < d.offsets.Length1 && Cell(col, row) !in spans' ==>
      d.offsets[col, row] == old(d.offsets[col, row]) && d.lengths[col, row] == old(d.lengths[col, row])
  {
    d.offsets[cell.col, cell.row] := span.offset;
    d.lengths[cell.col, cell.row] := span.length;
    spans' := spans[cell := span];
  }

  /** The window `getText(c, r)` returns on generation `d`: `offsets[c][r]`
      indexes the column array first, so a bad column is an index error even
      before the row arrays exist, which are `null` until the first parse. */
  function SpanAt(d: Data, c: int, r: int): (t: Result<Text.CharSubSequence>)
    requires d.Valid() && Counted(d)
    reads d, d.chars, d.offsets, d.lengths
  {
    if !(0 <= c < d.columns) then Err(IndexOutOfBounds)
    else if d.offsets == null then Err(NullPointer)
    else if !(0 <= r < d.offsets.Length1) then Err(IndexOutOfBounds)
    else
      var offset := d.offsets[c, r];
      Ok(Text.CharSubSequence(d.chars[..], offset, offset + d.lengths[c, r]))
  }

  /**
   * `countLines(d, len, hasLastLineBreak)`: the number of `'\n'` in
   * `chars[..len]`, plus one for an unterminated last line; every column's
   * span arrays end up with exactly that many rows (reused when they already
   * have that size, otherwise replaced by zeroed ones).
   */
  method CountLines(d: Data, len: int, hasLastLineBreak: bool) returns (count: int)
    requires d.Valid() && d.chars != null && 0 <= len <= d.chars.Length
    modifies d
    ensures d.bytes == old(d.bytes) && d.chars == old(d.chars)
    ensures count == CountNewlines(d.chars[..len]) + (if hasLastLineBreak then 0 else 1)
    ensures d.Valid() && d.offsets != null && d.offsets.Length1 == count
    ensures old(d.offsets) != null && old(d.offsets.Length1) == count ==>
      d.offsets == old(d.offsets) && d.lengths == old(d.lengths)
    ensures old(d.offsets) == null || old(d.offsets.Length1) != count ==>
      fresh(d.offsets) && fresh(d.lengths)
  {
    count := 0;
    var i := 0;
    while i < len
      invariant 0 <= i <= len
      invariant count == CountNewlines(d.chars[..i])
    {
      assert d.chars[..i + 1][..i] == d.chars[..i];
      count := count + (if d.chars[i] == NEWLINE then 1 else 0);
      i := i + 1;
    }
    count := count + (if !hasLastLineBreak then 1 else 0);
    if d.offsets == null || d.offsets.Length1 != count {
      d.offsets := new int[d.columns, count];
      d.lengths := new int[d.columns, count];
    }
  }

  /** When the flag is what the source computes, the count is the line count. */
  lemma CountLinesIsLineCount(chars: seq<char16>, len: int, hasLastLineBreak: bool)
    requires 0 < len <= |chars| && hasLastLineBreak == (chars[len - 1] == NEWLINE)
    ensures CountNewlines(chars[..len]) + (if hasLastLineBreak then 0 else 1) == LineCount(chars[..len])
    ensures LineCount(chars[..len]) >= 1
  {
    LineCountPositive(chars[..len]);
  }

  // ---------------------------------------------------------------------
  // Reading the file.

  /**
   * The open `RandomAccessFile`, reduced to what `read` uses: the file's
   * content, the file pointer, and the most bytes one `read` call returns
   * (a pseudo-file may hand out its content in pieces).
   */
  class Source {
    const content: seq<byte>
    const chunk: nat
    var position: nat

    ghost predicate Valid()
      reads this
    {
      chunk >= 1 && position <= |content|
    }

    constructor(content: seq<byte>, chunk: nat)
      requires chunk >= 1
      ensures Valid() && this.content == content && this.chunk == chunk && position == 0
    {
      this.content := content;
      this.chunk := chunk;
      position := 0;
    }

    /** `raf.seek(0)`. */
    method Rewind()
      requires Valid()
      modifies this
      ensures Valid() && position == 0
    {
      position := 0;
    }

    /** `raf.read(b, off, len)`: -1 at the end of the file, otherwise copies
        up to `len` bytes (at least one when `len > 0`) into `b[off..]`. */
    method Read(b: array<byte>, off: int, len: int) returns (k: int)
      requires Valid() && 0 <= off && 0 <= len && off + len <= b.Length
      modifies this, b
      ensures Valid()
      ensures old(position) == |content| ==> k == -1 && position == old(position) && b[..] == old(b[..])
      ensures old(position) < |content| ==>
        0 <= k <= len && (len > 0 ==> k > 0) && position == old(position) + k &&
        b[off..off + k] == content[old(position)..position]
      ensures b[..off] == old(b[..off])
    {
      if position == |content| {
        return -1;
      }
      k := len;
      if chunk < k {
        k := chunk;
      }
      if |content| - position < k {
        k := |content| - position;
      }
      var p := position;
      var j := 0;
      while j < k
        invariant 0 <= j <= k && position == p
        invariant b[off..off + j] == content[p..p + j]
        invariant b[..off] == old(b[..off])
      {
        b[off + j] := content[p + j];
        assert b[off..off + j + 1] == b[off..off + j] + [b[off + j]];
        j := j + 1;
      }
      position := position + k;
    }
  }

  /** The capacity `read` ends with: starting from `capacity`, the buffer
      grows to `capacity * 3 / 2` every time the bytes read fill it. */
  function CapacityFor(capacity: nat, size: nat): (c: nat)
    requires capacity >= 2
    ensures size < c && capacity <= c
    ensures c == capacity || c <= size * 3 / 2
    decreases if size < capacity then 0 else size + 1 - capacity
  {
    if size < capacity then capacity else CapacityFor(capacity * 3 / 2, size)
  }

  lemma CapacityStep(capacity: nat, size: nat)
    requires 2 <= capacity <= size
    ensures CapacityFor(capacity, size) == CapacityFor(capacity * 3 / 2, size)
  {
  }

  /**
   * The loop of `read` that fills `d.bytes` from the file: it reads until the
   * end of the file and replaces a full buffer by one half as large again,
   * with the old bytes as its prefix.
   */
  method ReadAll(d: Data, src: Source) returns (len: int)
    requires src.Valid() && d.bytes.Length >= 2
    modifies d, d.bytes, src
    ensures src.Valid()
    ensures len == |src.content| && d.bytes.Length == CapacityFor(old(d.bytes.Length), len)
    ensures d.bytes[..len] == src.content
    ensures d.bytes == old(d.bytes) || fresh(d.bytes)
    ensures d.chars == old(d.chars) && d.offsets == old(d.offsets) && d.lengths == old(d.lengths)
  {
    var bytes;
    bytes, len := ReadInto(src, d.bytes);
    d.bytes := bytes;
  }

  method ReadInto(src: Source, buffer: array<byte>) returns (bytes: array<byte>, len: int)
    requires src.Valid() && buffer.Length >= 2
    modifies src, buffer
    ensures src.Valid()
    ensures len == |src.content| && bytes.Length == CapacityFor(buffer.Length, len)
    ensures bytes[..len] == src.content
    ensures bytes == buffer || fresh(bytes)
  {
    len := 0;
    bytes := buffer;
    var remains := bytes.Length;
    var offset := 0;
    src.Rewind();
    while true
      invariant src.Valid() && src.position == len && offset == len
      invariant bytes.Length >= 2 && remains == bytes.Length - len && remains > 0
      invariant bytes[..len] == src.content[..len]
      invariant CapacityFor(bytes.Length, |src.content|) == CapacityFor(buffer.Length, |src.content|)
      invariant bytes == buffer || fresh(bytes)
      decreases |src.content| - len
    {
      var k, grown := ReadTurn(src, bytes, offset, remains);
      if k < 0 {
        break;
      }
      len := len + k;
      offset := offset + k;
      remains := grown.Length - len;
      bytes := grown;
    }
    assert src.content[..len] == src.content;
  }

  /** One turn of the loop of `read`: a read into the free part of `bytes`,
      then a larger copy when that part is used up. */
  method ReadTurn(src: Source, bytes: array<byte>, offset: int, remains: int)
      returns (k: int, grown: array<byte>)
    requires src.Valid() && src.position == offset && 0 <= offset
    requires remains > 0 && offset + remains == bytes.Length && bytes.Length >= 2
    requires bytes[..offset] == src.content[..offset]
    modifies src, bytes
    ensures src.Valid()
    ensures k < 0 ==> (k == -1 && offset == |src.content| && src.position == offset &&
      bytes[..offset] == src.content[..offset])
    ensures k >= 0 ==> (0 < k && src.position == offset + k &&
      offset + k < grown.Length && grown.Length >= 2 &&
      grown[..offset + k] == src.content[..offset + k] &&
      CapacityFor(grown.Length, |src.content|) == CapacityFor(bytes.Length, |src.content|) &&
      (grown == bytes || fresh(grown)))
  {
    grown := bytes;
    k := ReadMore(src, bytes, offset, remains);
    if k >= 0 && k == remains {
      var len := offset + k;
      assert bytes[..] == bytes[..len];
      grown := Grow(bytes, src.content[..len]);
      CapacityStep(bytes.Length, |src.content|);
    }
  }

  /** `raf.read(bytes, offset, remains)` with the first `offset` bytes of the
      file already in `bytes`: afterwards the first `offset + k` are. */
  method ReadMore(src: Source, bytes: array<byte>, offset: int, remains: int) returns (k: int)
    requires src.Valid() && src.position == offset && 0 <= offset
    requires remains > 0 && offset + remains == bytes.Length
    requires bytes[..offset] == src.content[..offset]
    modifies src, bytes
    ensures src.Valid()
    ensures k < 0 ==> (k == -1 && offset == |src.content| && src.position == offset &&
      bytes[..offset] == src.content[..offset])
    ensures k >= 0 ==> (0 < k <= remains && src.position == offset + k &&
      bytes[..offset + k] == src.content[..offset + k])
  {
    k := src.Read(bytes, offset, remains);
    if k >= 0 {
      assert bytes[..offset + k] == bytes[..offset] + bytes[offset..offset + k];
      assert src.content[..offset + k] == src.content[..offset] + src.content[offset..offset + k];
    }
  }

  /** A full buffer is replaced by one half as large again, holding the old
      bytes as its prefix. */
  method Grow(bytes: array<byte>, ghost held: seq<byte>) returns (realloc: array<byte>)
    requires bytes.Length >= 2 && bytes[..] == held
    ensures fresh(realloc) && realloc.Length == bytes.Length * 3 / 2 > bytes.Length
    ensures realloc[..|held|] == held
  {
    realloc := new byte[bytes.Length * 3 / 2];
    forall i | 0 <= i < bytes.Length {
      realloc[i] := bytes[i];
    }
  }

  // ---------------------------------------------------------------------
  // The command mailbox between `update`/`close` and the worker's loop.

  /** The two `Runnable`s the source puts in the slot: `read` and `QUIT`. */
  datatype Command = ReadCommand | QuitCommand

  /** Where the worker thread is in `updater()`: blocked on the empty slot,
      running a command, or gone after `QUIT`. */
  datatype WorkerState = Waiting | Running | Stopped

  /** A completion callback, by identity. */
  type Callback = nat

  /** The mailbox as one value: the slot `queue[0]`, the pending `done`
      callback, the worker's position and the callbacks posted so far to the
      main thread. */
  datatype Mailbox = Mailbox(
    slot: Option<Command>, done: Option<Callback>, worker: WorkerState, posted: seq<Callback>)

  /** `update(updated)`: remember the callback and overwrite the slot with a read. */
  function UpdateStep(m: Mailbox, updated: Option<Callback>): (m': Mailbox)
    ensures m'.slot == Some(ReadCommand) && m'.done == updated
    ensures m'.worker == m.worker && m'.posted == m.posted
  {
    m.(slot := Some(ReadCommand), done := updated)
  }

  /** The first statement of `close()`: overwrite the slot with `QUIT`. */
  function CloseStep(m: Mailbox): (m': Mailbox)
    ensures m'.slot == Some(QuitCommand)
    ensures m'.done == m.done && m'.worker == m.worker && m'.posted == m.posted
  {
    m.(slot := Some(QuitCommand))
  }

  /** The worker takes the command out of the slot, leaving it empty; `QUIT`
      ends its loop without running anything. */
  function TakeStep(m: Mailbox): (m': Mailbox)
    requires m.worker == Waiting && m.slot.Some?
    ensures m'.slot == None && m'.done == m.done && m'.posted == m.posted
    ensures m'.worker == (if m.slot == Some(QuitCommand) then Stopped else Running)
  {
    m.(slot := None, worker := if m.slot.value == QuitCommand then Stopped else Running)
  }

  /** After a command has run: a pending `done` is posted once and cleared. */
  function FinishStep(m: Mailbox): (m': Mailbox)
    requires m.worker == Running
    ensures m'.worker == Waiting && m'.slot == m.slot && m'.done == None
    ensures m'.posted == m.posted + (if m.done.Some? then [m.done.value] else [])
  {
    if m.done.Some? then m.(worker := Waiting, done := None, posted := m.posted + [m.done.value])
    else m.(worker := Waiting)
  }

  /** Two updates before the worker looks at the slot cause a single read,
      after which only the second callback is posted, once, and the slot is
      empty again. */
  lemma UpdatesCoalesce(m: Mailbox, first: Callback, second: Callback)
    requires m.worker == Waiting
    ensures var m1 := TakeStep(UpdateStep(UpdateStep(m, Some(first)), Some(second)));
      m1.worker == Running &&
      FinishStep(m1).posted == m.posted + [second] &&
      FinishStep(m1).slot == None && FinishStep(m1).worker == Waiting
  {
  }

  /** `close` replaces a read that has not been taken: the worker stops
      without reading and without posting the pending callback. */
  lemma CloseCancelsRead(m: Mailbox, updated: Option<Callback>)
    requires m.worker == Waiting
    ensures var m1 := TakeStep(CloseStep(UpdateStep(m, updated)));
      m1.worker == Stopped && m1.posted == m.posted
  {
  }

  /** A cycle with no `update` since the last one posts nothing. */
  lemma NoUpdateNoPost(m: Mailbox)
    requires m.worker == Running
    ensures var m1 := FinishStep(m);
      m1.slot.Some? && m1.slot.value == ReadCommand ==>
        FinishStep(TakeStep(m1)).posted == m1.posted
  {
  }

  // ---------------------------------------------------------------------
  // The generation index.

  /** `ai.incrementAndGet()`: the counter wraps around like a Java `int`. */
  function Increment(ai: int): (n: int)
    requires IsInt(ai)
    ensures IsInt(n)
    ensures ai < INT_MAX ==> n == ai + 1
    ensures ai == INT_MAX ==> n == INT_MIN
  {
    Wrap32(ai + 1)
  }

  /** `ix = ai.incrementAndGet() % 2` as written, with Java's `%`. */
  function GenerationAsWritten(counter: int): (ix: int)
    ensures counter >= 0 ==> ix == counter % 2
  {
    JavaRem(counter, 2)
  }

  /** Once the counter has wrapped past `Integer.MIN_VALUE`, the source's
      index becomes -1, and `data[ix]` is out of bounds. */
  lemma GenerationAsWrittenGoesNegative()
    ensures Increment(Increment(INT_MAX)) == INT_MIN + 1
    ensures GenerationAsWritten(Increment(Increment(INT_MAX))) == -1
  {
    assert Increment(INT_MAX) == INT_MIN;
    assert JavaDiv(INT_MIN + 1, 2) == -0x3FFF_FFFF;
  }

  /** The index the engine uses: the counter's parity (`Math.floorMod(counter, 2)`). */
  function Generation(counter: int): (ix: int)
    ensures ix == 0 || ix == 1
    ensures counter >= 0 ==> ix == GenerationAsWritten(counter)
  {
    counter % 2
  }

  /** Every increment of the counter, wrap-around included, flips the index. */
  lemma GenerationAlternates(ai: int)
    requires IsInt(ai)
    ensures Generation(Increment(ai)) == 1 - Generation(ai)
  {
    if ai == INT_MAX {
      assert Increment(ai) == INT_MIN;
    }
  }

  /** What `read` leaves in `d` before `parse` runs, for a file `content`
      read into a buffer that had room for `capacity` bytes. */
  ghost predicate Loads(d: Data, capacity: nat, content: seq<byte>, r: Result<Loaded>)
    requires capacity >= 2
    reads d, d.bytes, d.chars
  {
    (r.Err? <==> |content| == 0) &&
    (r.Err? ==> r.error == IndexOutOfBounds) &&
    (r.Ok? ==>
      var l := r.value;
      l.len == |content| && l.len <= d.bytes.Length && d.bytes[..l.len] == content &&
      d.bytes.Length == CapacityFor(capacity, l.len) &&
      d.chars != null && d.chars.Length == l.len &&
      l.hasLastLineBreak == (d.chars[l.len - 1] == NEWLINE) &&
      l.count == LineCount(d.chars[..]) &&
      d.offsets != null && d.offsets.Length1 == l.count &&
      Decoded(d.chars[..], content))
  }

  /** `chars` starts with the decoding of `content`, unless the decoder gave
      up because the last char it would write is the low half of a pair. */
  ghost predicate Decoded(chars: seq<char16>, content: seq<byte>)
  {
    var out := Utf8.Decode(content);
    |out| <= |chars| &&
    (!(|out| == |chars| && Utf8.EndsInPair(content)) ==> chars[..|out|] == out)
  }

  /**
   * `read` up to the call of `parse` (the table's parser runs next, on `d`):
   * fill the bytes from the start of the file, size `chars` to the byte
   * count and decode into it, then test the last char and count the lines.
   * An empty file ends in an index error at `chars[len - 1]`.
   */
  method Load(d: Data, src: Source) returns (r: Result<Loaded>)
    requires d.Valid() && src.Valid() && d.bytes.Length >= 2
    modifies d, d.bytes, d.chars, src
    ensures d.Valid() && src.Valid() && d.bytes.Length >= 2
    ensures d.bytes == old(d.bytes) || fresh(d.bytes)
    ensures d.chars == old(d.chars) || fresh(d.chars)
    ensures (d.offsets == old(d.offsets) && d.lengths == old(d.lengths)) ||
      (fresh(d.offsets) && fresh(d.lengths))
    ensures Loads(d, old(d.bytes.Length), src.content, r)
  {
    var len := ReadAll(d, src);
    SizeChars(d, len);
    DecodeInto(d, len, src.content);
    if len == 0 {
      return Err(IndexOutOfBounds);
    }
    var hasLastLineBreak := d.chars[len - 1] == NEWLINE;
    var count := CountLines(d, len, hasLastLineBreak);
    CountLinesIsLineCount(d.chars[..], len, hasLastLineBreak);
    assert d.chars[..][..len] == d.chars[..];
    return Ok(Loaded(len, count, hasLastLineBreak));
  }

  /** `if (d.chars == null || d.chars.length != len) d.chars = new char[len]`. */
  method SizeChars(d: Data, len: nat)
    modifies d
    ensures d.chars != null && d.chars.Length == len
    ensures d.chars == old(d.chars) || fresh(d.chars)
    ensures d.bytes == old(d.bytes) && d.offsets == old(d.offsets) && d.lengths == old(d.lengths)
  {
    if d.chars == null || d.chars.Length != len {
      d.chars := new char16[len];
    }
  }

  /** `utf8.decode(d.bytes, 0, len, d.chars, 0, d.chars.length)`. */
  method DecodeInto(d: Data, len: nat, content: seq<byte>)
    requires d.chars != null && d.chars.Length == len && len <= d.bytes.Length
    requires d.bytes[..len] == content
    modifies d.chars
    ensures Decoded(d.chars[..], content)
  {
    var decoded := Utf8.Decoder(d.bytes, 0, len, d.chars, 0, d.chars.Length);
    assert d.bytes[0..len] == content;
    Utf8.DecodeLength(content);
    if decoded.Ok? && decoded.value != -1 {
      assert d.chars[..][..|Utf8.Decode(content)|] == d.chars[0..decoded.value];
    }
  }

  // ---------------------------------------------------------------------
  // The engine.

  /** What `read` hands to the table's `parse`: the char count, the line
      count and whether the text ends with a line break. */
  datatype Loaded = Loaded(len: int, count: int, hasLastLineBreak: bool)

  /**
   * The state `ProcFS` keeps: two generations of `Data`, the generation
   * index `ix` with the counter `ai` it is derived from, the one-slot
   * command queue, the pending `done` callback, where the worker thread is,
   * and the callbacks posted to the main thread so far.
   */
  class Engine {
    const data0: Data
    const data1: Data
    var ix: int
    var ai: int
    const queue: array<Option<Command>>
    var done: Option<Callback>
    var worker: WorkerState
    var posted: seq<Callback>

    ghost predicate Valid()
      reads this, data0, data1, data0.chars, data1.chars
    {
      data0 != data1 && data0.columns == data1.columns &&
      data0.Valid() && data1.Valid() && Apart(data0, data1) &&
      (ix == 0 || ix == 1) && Counted(if ix == 1 then data0 else data1) &&
      data0.bytes.Length >= 2 && data1.bytes.Length >= 2 &&
      queue.Length == 1 && IsInt(ai) && ix == Generation(ai)
    }

    /** The generation the worker writes: `data[ix]`. */
    function Current(): (d: Data)
      reads this
      ensures d == data0 || d == data1
    {
      if ix == 0 then data0 else data1
    }

    /** The generation readers see: `data[1 - ix]`. */
    function Published(): (d: Data)
      reads this
      requires ix == 0 || ix == 1
      ensures d == data0 || d == data1
      ensures d != Current() || data0 == data1
    {
      if ix == 1 then data0 else data1
    }

    /** The mailbox fields as one value. */
    function Mail(): Mailbox
      reads this, queue
      requires queue.Length == 1
    {
      Mailbox(queue[0], done, worker, posted)
    }

    /** `ProcFS(columns)`: two empty generations, nothing queued, `ix == 0`. */
    constructor(columns: nat)
      ensures Valid() && fresh(data0) && fresh(data1) && fresh(queue)
      ensures data0.columns == columns && ix == 0 && ai == 0
      ensures Mail() == Mailbox(None, None, Waiting, [])
    {
      var d0 := new Data(columns);
      var d1 := new Data(columns);
      data0, data1 := d0, d1;
      ix := 0;
      ai := 0;
      queue := new Option<Command>[1](_ => None);
      done := None;
      worker := Waiting;
      posted := [];
    }

    /** `update(updated)`. */
    method Update(updated: Option<Callback>)
      requires Valid()
      modifies this, queue
      ensures Valid() && Mail() == UpdateStep(old(Mail()), updated)
      ensures ix == old(ix) && ai == old(ai)
    {
      done := updated;
      queue[0] := Some(ReadCommand);
    }

    /** `close()` up to the point where it waits for the worker. */
    method Close()
      requires Valid()
      modifies queue
      ensures Valid() && Mail() == CloseStep(old(Mail()))
    {
      queue[0] := Some(QuitCommand);
    }

    /** The worker's `synchronized (queue)` block that takes the command. */
    method WorkerTake() returns (q: Command)
      requires Valid() && worker == Waiting && queue[0].Some?
      modifies this, queue
      ensures Valid() && Mail() == TakeStep(old(Mail())) && Some(q) == old(queue[0])
      ensures ix == old(ix) && ai == old(ai)
    {
      q := queue[0].value;
      queue[0] := None;
      worker := if q == QuitCommand then Stopped else Running;
    }

    /** The worker's `synchronized (queue)` block after a command has run. */
    method WorkerFinish()
      requires Valid() && worker == Running
      modifies this
      ensures Valid() && Mail() == FinishStep(old(Mail()))
      ensures ix == old(ix) && ai == old(ai)
    {
      if done.Some? {
        posted := posted + [done.value];
        done := None;
      }
      worker := Waiting;
    }

    /** `columns()`: the column count the engine was made with. */
    function Columns(): (n: nat)
      requires Valid()
      reads this, data0, data1, data0.chars, data1.chars
      ensures n == data0.columns
    {
      Published().columns
    }

    /** `rows()`: the row count of the published generation, which is its
        line count; before any generation is published `offsets[0]` is
        still `null`, and with no columns at all it does not exist. */
    function Rows(): (r: Result<int>)
      requires Valid()
      reads this, data0, data1, data0.chars, data1.chars
      ensures r.Err? <==> Published().offsets == null || Columns() == 0
      ensures r.Err? ==> r.error == (if Columns() == 0 then IndexOutOfBounds else NullPointer)
      ensures r.Ok? ==> r.value == LineCount(Published().chars[..]) && r.value >= 1
    {
      var d := Published();
      if d.columns == 0 then Err(IndexOutOfBounds)
      else if d.offsets == null then Err(NullPointer)
      else
        LineCountPositive(d.chars[..]);
        Ok(d.offsets.Length1)
    }

    /** `getText(c, r)`: the published span of column `c`, row `r`, as a
        window on the published chars. */
    function GetText(c: int, r: int): (t: Result<Text.CharSubSequence>)
      requires Valid()
      reads this, data0, data1, data0.chars, data1.chars,
        data0.offsets, data0.lengths, data1.offsets, data1.lengths
      ensures t.Err? <==> Rows().Err? || !(0 <= c < Columns() && 0 <= r < Rows().value)
      ensures t.Err? ==>
        t.error == (if 0 <= c < Columns() && Published().offsets == null then NullPointer else IndexOutOfBounds)
      ensures t.Ok? ==> (t.value.buf == Published().chars[..] &&
        t.value.start == Published().offsets[c, r] &&
        t.value.end - t.value.start == Published().lengths[c, r])
    {
      SpanAt(Published(), c, r)
    }

    /** `read` up to the call of `parse`, on the current generation; the
        readers' generation is left alone. */
    method Fill(src: Source) returns (r: Result<Loaded>)
      requires Valid() && src.Valid()
      modifies Current(), Current().bytes, Current().chars, src
      ensures Valid() && src.Valid() && Mail() == old(Mail()) && ix == old(ix) && ai == old(ai)
      ensures Loads(Current(), old(Current().bytes.Length), src.content, r)
      ensures (Current().offsets == old(Current().offsets) && Current().lengths == old(Current().lengths)) ||
        (fresh(Current().offsets) && fresh(Current().lengths))
      ensures Published() == old(Published()) && Rows() == old(Rows())
      ensures forall c, row :: GetText(c, row) == old(GetText(c, row))
    {
      r := Load(Current(), src);
    }

    /** The last line of `read`: `ix = ai.incrementAndGet() % 2`, with the
        index taken as the counter's parity. */
    method Publish()
      requires Valid() && Counted(Current())
      modifies this
      ensures Valid() && Mail() == old(Mail())
      ensures ai == Increment(old(ai))
      ensures Published() == old(Current()) && Current() == old(Published())
    {
      GenerationAlternates(ai);
      ai := Increment(ai);
      ix := Generation(ai);
    }
  }

  /** Spans held by the published generation are what `getText` returns. */
  lemma PublishedText(e: Engine, spans: map<Cell, Span>)
    requires e.Valid() && Holds(e.Published(), spans)
    ensures forall cell :: cell in spans ==>
      e.GetText(cell.col, cell.row) ==
        Ok(Text.CharSubSequence(e.Published().chars[..], spans[cell].offset, spans[cell].offset + spans[cell].length))
  {
  }
}
