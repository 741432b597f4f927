/**
 * The second half of the CPU table: the counters read from the parsed
 * lines of `/proc/stat`, the busy share of each processor between two
 * reads, the per-second rates, and what the table shows for each cell.
 *
 * A `Stats` record is a value here; the source keeps one object per slot
 * and assigns its fields, which the model does by assigning the slot of an
 * `array<Stats>`. The busy share (`load`, a `float` percentage in the
 * source) is held as an integer count of tenths of a percent.
 */
module CpuStats {
  import opened JavaLang
  import ProcFS
  import Text
  import Numbers
  import Cpu

  /** `C.NANOS_IN_SECOND`. */
  const NANOS_IN_SECOND: int := 1_000_000_000

  /** The counters of one slot: the processor number (`-1` for the
      aggregate line), seven counters in clock ticks, the busy share in
      tenths of a percent and a `System.nanoTime` timestamp. */
  datatype Stats = Stats(cpu: int, user: int, nice: int, system: int, idle: int,
                         iowait: int, irq: int, softirq: int, load: int, nanos: int)

  /** `new Stats()`: every field zero. */
  const Zero: Stats := Stats(0, 0, 0, 0, 0, 0, 0, 0, 0, 0)

  /** The counter at field position `r` of a line (`user` is 1, `softirq` is 7). */
  function Counter(s: Stats, r: int): int
    requires 1 <= r < Cpu.COLUMNS
  {
    match r
    case 1 => s.user
    case 2 => s.nice
    case 3 => s.system
    case 4 => s.idle
    case 5 => s.iowait
    case 6 => s.irq
    case _ => s.softirq
  }

  /** The `switch (r)` of `textToStats`: the counter at field position `r`
      becomes `v`, every other field stays. */
  function SetCounter(s: Stats, r: int, v: int): (s': Stats)
    requires 1 <= r < Cpu.COLUMNS
    ensures Counter(s', r) == v
    ensures forall j :: 1 <= j < Cpu.COLUMNS && j != r ==> Counter(s', j) == Counter(s, j)
    ensures s'.cpu == s.cpu && s'.load == s.load && s'.nanos == s.nanos
  {
    match r
    case 1 => s.(user := v)
    case 2 => s.(nice := v)
    case 3 => s.(system := v)
    case 4 => s.(idle := v)
    case 5 => s.(iowait := v)
    case 6 => s.(irq := v)
    case _ => s.(softirq := v)
  }

  /** Every counter, the timestamp and the processor number fit the
      source's field types. */
  predicate Fits(s: Stats)
  {
    IsInt(s.cpu) && IsLong(s.nanos) && IsInt(s.load) &&
    IsLong(s.user) && IsLong(s.nice) && IsLong(s.system) && IsLong(s.idle) &&
    IsLong(s.iowait) && IsLong(s.irq) && IsLong(s.softirq)
  }

  // ---------------------------------------------------------------------
  // `load(cpu, stats0, stats1)`.

  /** `s.user + s.nice + s.system + s.irq + s.softirq` in `long` arithmetic. */
  function Busy(s: Stats): int
  {
    Wrap64(Wrap64(Wrap64(Wrap64(s.user + s.nice) + s.system) + s.irq) + s.softirq)
  }

  /** `s.idle + s.iowait` in `long` arithmetic. */
  function Idle(s: Stats): int
  {
    Wrap64(s.idle + s.iowait)
  }

  /** `Math.round(busy * 1000f / total)`: 1000 times the busy fraction
      rounded half up, saturated to the `int` range; no ticks at all give 0. */
  function Tenths(busy: int, total: int): (t: int)
    ensures IsInt(t)
    ensures total == 0 ==> t == 0
  {
    if total == 0 then 0
    else
      var q := FloorDiv(2000 * busy + total, 2 * total);
      if q < INT_MIN then INT_MIN else if q > INT_MAX then INT_MAX else q
  }

  /** `load(cpu, stats0, stats1)`: the share of ticks spent busy between
      `s0` and `s1`, in tenths of a percent. */
  function Load(s0: Stats, s1: Stats): (t: int)
    ensures IsInt(t)
  {
    var busy := Wrap64(Busy(s1) - Busy(s0));
    var idle := Wrap64(Idle(s1) - Idle(s0));
    Tenths(busy, Wrap64(busy + idle))
  }

  /** A busy share of ticks between none and all of them is between 0 and
      100 percent, and it is the tenth of a percent nearest to the exact
      share, halves rounded up. */
  lemma TenthsWithin(busy: int, total: int)
    requires 0 <= busy <= total && total > 0
    ensures 0 <= Tenths(busy, total) <= 1000
    ensures var t := Tenths(busy, total);
      t * (2 * total) <= 2000 * busy + total < t * (2 * total) + 2 * total
  {
    var a, b := 2000 * busy + total, 2 * total;
    var q := FloorDiv(a, b);
    assert q * b <= a < q * b + b;
    if q < 0 {
      MulMonotone(q, -1, b);
    }
    if q > 1000 {
      MulMonotone(1001, q, b);
    }
  }

  /** Multiplying by a positive factor keeps the order. */
  lemma MulMonotone(x: int, y: int, b: int)
    requires x <= y && b > 0
    ensures x * b <= y * b
  {
  }

  /** Counters that only grew from `s0` to `s1`, with no sum leaving the
      `long` range. */
  predicate Grown(s0: Stats, s1: Stats)
  {
    0 <= s0.user <= s1.user && 0 <= s0.nice <= s1.nice && 0 <= s0.system <= s1.system &&
    0 <= s0.idle <= s1.idle && 0 <= s0.iowait <= s1.iowait &&
    0 <= s0.irq <= s1.irq && 0 <= s0.softirq <= s1.softirq &&
    s1.user + s1.nice + s1.system + s1.irq + s1.softirq + s1.idle + s1.iowait <= LONG_MAX
  }

  /** Between two reads of growing counters the busy share lies in
      [0, 100] percent and is the rounded exact share of busy ticks; when no
      tick passed it is 0. */
  lemma LoadWithin(s0: Stats, s1: Stats)
    requires Grown(s0, s1)
    ensures var busy := (s1.user + s1.nice + s1.system + s1.irq + s1.softirq) -
                        (s0.user + s0.nice + s0.system + s0.irq + s0.softirq);
      var total := busy + (s1.idle + s1.iowait) - (s0.idle + s0.iowait);
      var t := Load(s0, s1);
      0 <= busy <= total &&
      (total == 0 ==> t == 0) &&
      (total > 0 ==> 0 <= t <= 1000 && t * (2 * total) <= 2000 * busy + total < t * (2 * total) + 2 * total)
  {
    var b0 := s0.user + s0.nice + s0.system + s0.irq + s0.softirq;
    var b1 := s1.user + s1.nice + s1.system + s1.irq + s1.softirq;
    assert Busy(s0) == b0 && Busy(s1) == b1;
    assert Idle(s0) == s0.idle + s0.iowait && Idle(s1) == s1.idle + s1.iowait;
    var busy := b1 - b0;
    var total := busy + (s1.idle + s1.iowait) - (s0.idle + s0.iowait);
    if total > 0 {
      TenthsWithin(busy, total);
    }
  }

  // ---------------------------------------------------------------------
  // `delta(st)`.

  /** `(cur - prev) * 1000 / ms` in `long` arithmetic. */
  function Rate(cur: int, prev: int, ms: int): int
    requires ms > 0
  {
    Wrap64(JavaDiv(Wrap64(Wrap64(cur - prev) * 1000), ms))
  }

  /** Whole milliseconds in `nanos`: `nanos * 1000 / C.NANOS_IN_SECOND`. */
  function Millis(nanos: int): int
  {
    Wrap64(JavaDiv(Wrap64(nanos * 1000), NANOS_IN_SECOND))
  }

  /**
   * One slot of `delta`: the processor number is copied; with at least a
   * millisecond between the two reads every counter becomes a rate per
   * second and the busy share is copied; otherwise everything is zero and
   * the timestamp is the clock reading `now`.
   */
  function DeltaOf(cur: Stats, prev: Stats, now: int): (d: Stats)
    requires IsLong(now)
    ensures d.cpu == cur.cpu
    ensures IsLong(d.user) && IsLong(d.nice) && IsLong(d.system) && IsLong(d.idle) &&
      IsLong(d.iowait) && IsLong(d.irq) && IsLong(d.softirq) && IsLong(d.nanos)
  {
    var nanos := Wrap64(cur.nanos - prev.nanos);
    var ms := Millis(nanos);
    if ms > 0 then
      Stats(cur.cpu, Rate(cur.user, prev.user, ms), Rate(cur.nice, prev.nice, ms),
            Rate(cur.system, prev.system, ms), Rate(cur.idle, prev.idle, ms),
            Rate(cur.iowait, prev.iowait, ms), Rate(cur.irq, prev.irq, ms),
            Rate(cur.softirq, prev.softirq, ms), cur.load, nanos)
    else
      Stats(cur.cpu, 0, 0, 0, 0, 0, 0, 0, 0, now)
  }

  /** What `delta` makes of every slot. */
  function Deltas(st: seq<Stats>, prev: seq<Stats>, now: int): (ds: seq<Stats>)
    requires |st| == |prev| && IsLong(now)
    ensures |ds| == |st|
    ensures forall k :: 0 <= k < |st| ==> ds[k] == DeltaOf(st[k], prev[k], now)
  {
    seq(|st|, k requires 0 <= k < |st| => DeltaOf(st[k], prev[k], now))
  }

  /** Without overflow, `Millis` counts the whole milliseconds elapsed. */
  lemma MillisWithin(nanos: int)
    requires 0 <= nanos && nanos * 1000 <= LONG_MAX
    ensures var ms := Millis(nanos); ms * 1_000_000 <= nanos < (ms + 1) * 1_000_000
  {
    var ms := Millis(nanos);
    assert ms == (nanos * 1000) / NANOS_IN_SECOND;
    assert ms * NANOS_IN_SECOND <= nanos * 1000 < (ms + 1) * NANOS_IN_SECOND;
  }

  /** Every counter grew from `s0` to `s1`, by less than a thousandth of
      the `long` range. */
  predicate Growth(s0: Stats, s1: Stats)
  {
    forall r :: 1 <= r < Cpu.COLUMNS ==>
      0 <= Counter(s1, r) - Counter(s0, r) && (Counter(s1, r) - Counter(s0, r)) * 1000 <= LONG_MAX
  }

  /** `rate` is `growth` ticks over `ms` milliseconds per second, rounded down. */
  predicate PerSecond(rate: int, growth: int, ms: int)
  {
    rate * ms <= growth * 1000 < (rate + 1) * ms
  }

  /** Without overflow, a rate is the growth per second rounded down. */
  lemma RateWithin(cur: int, prev: int, ms: int)
    requires ms > 0 && 0 <= cur - prev && (cur - prev) * 1000 <= LONG_MAX
    ensures PerSecond(Rate(cur, prev, ms), cur - prev, ms)
  {
    var x := (cur - prev) * 1000;
    assert Wrap64(cur - prev) == cur - prev;
    assert Wrap64(Wrap64(cur - prev) * 1000) == x;
    var q := x / ms;
    assert JavaDiv(x, ms) == q;
    QuotientBelow(x, ms);
    assert Rate(cur, prev, ms) == q;
  }

  /** A quotient by a positive divisor lies between zero and the dividend
      and brackets it. */
  lemma QuotientBelow(x: int, m: int)
    requires 0 <= x && m > 0
    ensures 0 <= x / m <= x && x / m * m <= x < (x / m + 1) * m
  {
    MulMonotone(1, m, x / m + 1);
  }

  /** The counter `r` of a slot `delta` fills once a millisecond passed. */
  lemma DeltaCounter(cur: Stats, prev: Stats, now: int, r: int)
    requires IsLong(now) && 1 <= r < Cpu.COLUMNS
    requires Millis(Wrap64(cur.nanos - prev.nanos)) > 0
    ensures Counter(DeltaOf(cur, prev, now), r) ==
      Rate(Counter(cur, r), Counter(prev, r), Millis(Wrap64(cur.nanos - prev.nanos)))
  {
  }

  /** The fields of a slot `delta` fills besides the counters. */
  lemma DeltaShape(cur: Stats, prev: Stats, now: int)
    requires IsLong(now)
    ensures var ms := Millis(Wrap64(cur.nanos - prev.nanos));
      var d := DeltaOf(cur, prev, now);
      (ms > 0 ==> d.load == cur.load && d.nanos == Wrap64(cur.nanos - prev.nanos)) &&
      (ms <= 0 ==> d == Stats(cur.cpu, 0, 0, 0, 0, 0, 0, 0, 0, now))
  {
  }

  /** Once a millisecond passed, every counter of a slot is its growth per second. */
  lemma DeltaRates(cur: Stats, prev: Stats, now: int, ms: int)
    requires IsLong(now) && ms > 0 && ms == Millis(Wrap64(cur.nanos - prev.nanos)) && Growth(prev, cur)
    ensures forall r :: 1 <= r < Cpu.COLUMNS ==>
      PerSecond(Counter(DeltaOf(cur, prev, now), r), Counter(cur, r) - Counter(prev, r), ms)
  {
    forall r | 1 <= r < Cpu.COLUMNS
      ensures PerSecond(Counter(DeltaOf(cur, prev, now), r), Counter(cur, r) - Counter(prev, r), ms)
    {
      DeltaCounter(cur, prev, now, r);
      RateWithin(Counter(cur, r), Counter(prev, r), ms);
    }
  }

  /**
   * `delta` between two reads of growing counters taken a millisecond or
   * more apart: every counter becomes its growth per second over the whole
   * milliseconds elapsed, rounded down; the processor number, the busy
   * share and the elapsed time are kept.
   */
  lemma DeltaPerSecond(cur: Stats, prev: Stats, now: int)
    requires Growth(prev, cur) && IsLong(now)
    requires 1_000_000 <= cur.nanos - prev.nanos && (cur.nanos - prev.nanos) * 1000 <= LONG_MAX
    ensures var d := DeltaOf(cur, prev, now);
      var ms := (cur.nanos - prev.nanos) / 1_000_000;
      d.cpu == cur.cpu && d.load == cur.load && d.nanos == cur.nanos - prev.nanos &&
      forall r :: 1 <= r < Cpu.COLUMNS ==> PerSecond(Counter(d, r), Counter(cur, r) - Counter(prev, r), ms)
  {
    var nanos := cur.nanos - prev.nanos;
    assert Wrap64(nanos) == nanos;
    MillisWithin(nanos);
    var ms := Millis(nanos);
    assert ms == nanos / 1_000_000;
    DeltaShape(cur, prev, now);
    DeltaRates(cur, prev, now, ms);
  }

  /** `delta` between two reads less than a millisecond apart clears the
      slot, keeps the processor number and stamps it with `now`. */
  lemma DeltaTooSoon(cur: Stats, prev: Stats, now: int)
    requires IsLong(now) && 0 <= cur.nanos - prev.nanos < 1_000_000
    ensures DeltaOf(cur, prev, now) == Stats(cur.cpu, 0, 0, 0, 0, 0, 0, 0, 0, now)
  {
    var nanos := cur.nanos - prev.nanos;
    assert Wrap64(nanos) == nanos;
    MillisWithin(nanos);
    DeltaShape(cur, prev, now);
  }

  // ---------------------------------------------------------------------
  // `textToStats(d, n)`: what it computes.

  /** `"cpu"`, the prefix of the lines `textToStats` reads. */
  const CPU_PREFIX: seq<char16> := [0x63, 0x70, 0x75]

  /** What a part of `textToStats` leaves behind, and the exception that
      ended it early, if one did. */
  datatype Partial<T> = Partial(value: T, failure: Option<Failure>)

  /** The chars a read of `buf.wrap(d.chars, offset, length)` sees; a span
      reaching outside the chars throws at its first read. */
  function Token(text: seq<char16>, span: ProcFS.Span): (t: Result<seq<char16>>)
  {
    if Cpu.Inside(text, span) then Ok(Cpu.SpanText(text, span)) else Err(IndexOutOfBounds)
  }

  /** The slot (`cpu`) the first token of line `c` selects: none (-1) unless
      the token starts with "cpu"; 0 on the first line; on the others one
      past the processor number that follows the prefix, cast to `int`. */
  function Slot(text: seq<char16>, span: ProcFS.Span, c: int): (slot: Result<int>)
    ensures slot.Ok? ==> IsInt(slot.value)
  {
    match Token(text, span)
    case Err(e) => Err(e)
    case Ok(t) =>
      if !Text.IsPrefix(t, CPU_PREFIX) then Ok(-1)
      else if c == 0 then Ok(0)
      else
        match Numbers.ParseLongSpec(t[3..])
        case Err(e) => Err(e)
        case Ok(v) => Ok(Wrap32(Wrap32(v) + 1))
  }

  /** The counters of fields `r..7` of a line, parsed into `s` in order
      until one of them fails. */
  function Counters(text: seq<char16>, line: seq<ProcFS.Span>, r: int, s: Stats): Partial<Stats>
    requires |line| == Cpu.COLUMNS && 1 <= r <= Cpu.COLUMNS
    decreases Cpu.COLUMNS - r
  {
    if r == Cpu.COLUMNS then Partial(s, None)
    else
      match Field(text, line[r])
      case Err(e) => Partial(s, Some(e))
      case Ok(v) => Counters(text, line, r + 1, SetCounter(s, r, v))
  }

  /** `Numbers.parse` of the token under `span`. */
  function Field(text: seq<char16>, span: ProcFS.Span): Result<int>
  {
    match Token(text, span)
    case Err(e) => Err(e)
    case Ok(t) => Numbers.ParseLongSpec(t)
  }

  /**
   * One pass of the outer loop of `textToStats`, on line `c` whose eight
   * spans are `line`: a line that selects a slot sets its processor number
   * and its seven counters and, once the previous aggregate has ticks, its
   * busy share since the previous read; any other line changes nothing.
   */
  function LineStats(text: seq<char16>, line: seq<ProcFS.Span>, c: int, st: seq<Stats>, prev: seq<Stats>)
    : (o: Partial<seq<Stats>>)
    requires |line| == Cpu.COLUMNS && |prev| == |st|
    ensures |o.value| == |st|
  {
    match Slot(text, line[0], c)
    case Err(e) => Partial(st, Some(e))
    case Ok(cpu) => Selected(text, line, cpu, st, prev)
  }

  /** The rest of a pass once the first token chose `cpu`. */
  function Selected(text: seq<char16>, line: seq<ProcFS.Span>, cpu: int, st: seq<Stats>, prev: seq<Stats>)
    : (o: Partial<seq<Stats>>)
    requires |line| == Cpu.COLUMNS && |prev| == |st|
    ensures |o.value| == |st|
  {
    if cpu < 0 then Partial(st, None)
    else if cpu >= |st| then Partial(st, Some(IndexOutOfBounds))
    else
      var f := Counters(text, line, 1, st[cpu].(cpu := cpu - 1));
      if f.failure.Some? then Partial(st[cpu := f.value], f.failure)
      else if prev[0].user > 0 then Partial(st[cpu := f.value.(load := Load(prev[cpu], f.value))], None)
      else Partial(st[cpu := f.value], None)
  }

  /** The outer loop of `textToStats` over the lines whose spans are `grid`,
      up to the first exception. */
  function Lines(text: seq<char16>, grid: seq<seq<ProcFS.Span>>, st: seq<Stats>, prev: seq<Stats>)
    : (o: Partial<seq<Stats>>)
    requires (forall c :: 0 <= c < |grid| ==> |grid[c]| == Cpu.COLUMNS) && |prev| == |st|
    ensures |o.value| == |st|
  {
    if grid == [] then Partial(st, None)
    else
      var o := Lines(text, grid[..|grid| - 1], st, prev);
      if o.failure.Some? then o else LineStats(text, grid[|grid| - 1], |grid| - 1, o.value, prev)
  }

  /** The first loop of `textToStats` on one slot: counters and busy share
      zeroed, the timestamp taken; the processor number stays. */
  function Cleared(s: Stats, now: int): Stats
  {
    s.(user := 0, nice := 0, system := 0, idle := 0, iowait := 0, irq := 0, softirq := 0,
       load := 0, nanos := now)
  }

  /** The first loop of `textToStats`: the first `n` slots cleared. */
  function Reset(st: seq<Stats>, n: int, now: int): (st': seq<Stats>)
    ensures |st'| == |st|
  {
    seq(|st|, k requires 0 <= k < |st| => if k < n then Cleared(st[k], now) else st[k])
  }

  /** `textToStats` on the lines whose spans are `grid`, from the slots
      `st`, with the previous read's slots `prev`. */
  function StatsOf(text: seq<char16>, grid: seq<seq<ProcFS.Span>>, st: seq<Stats>, prev: seq<Stats>, now: int)
    : (o: Partial<seq<Stats>>)
    requires (forall c :: 0 <= c < |grid| ==> |grid[c]| == Cpu.COLUMNS) && |prev| == |st|
    ensures |o.value| == |st|
  {
    Lines(text, grid, Reset(st, |grid|, now), prev)
  }

  /** The eight spans `offsets[r][c]`, `lengths[r][c]` of line `c`. */
  ghost function LineSpans(d: ProcFS.Data, c: int): (line: seq<ProcFS.Span>)
    requires d.Valid() && d.columns == Cpu.COLUMNS && d.offsets != null && 0 <= c < d.offsets.Length1
    reads d, d.offsets, d.lengths
    ensures |line| == Cpu.COLUMNS
    ensures forall r :: 0 <= r < Cpu.COLUMNS ==> line[r] == ProcFS.Span(d.offsets[r, c], d.lengths[r, c])
  {
    var o, l := d.offsets, d.lengths;
    [ProcFS.Span(o[0, c], l[0, c]), ProcFS.Span(o[1, c], l[1, c]), ProcFS.Span(o[2, c], l[2, c]),
     ProcFS.Span(o[3, c], l[3, c]), ProcFS.Span(o[4, c], l[4, c]), ProcFS.Span(o[5, c], l[5, c]),
     ProcFS.Span(o[6, c], l[6, c]), ProcFS.Span(o[7, c], l[7, c])]
  }

  /** The spans of the first `n` lines. */
  ghost function Grid(d: ProcFS.Data, n: int): (grid: seq<seq<ProcFS.Span>>)
    requires d.Valid() && d.columns == Cpu.COLUMNS && d.offsets != null && 0 <= n <= d.offsets.Length1
    reads d, d.offsets, d.lengths
    ensures |grid| == n
    ensures forall c :: 0 <= c < n ==> grid[c] == LineSpans(d, c)
  {
    if n == 0 then [] else Grid(d, n - 1) + [LineSpans(d, n - 1)]
  }

  // ---------------------------------------------------------------------
  // `textToStats(d, n)` and `delta(st)`: the loops.

  /** The first loop of `textToStats`: slots `0..n-1` cleared and stamped. */
  method ClearSlots(st: array<Stats>, n: int, now: int)
    requires 0 <= n <= st.Length
    modifies st
    ensures st[..] == Reset(old(st[..]), n, now)
  {
    var c := 0;
    while c < n
      invariant 0 <= c <= n
      invariant forall k :: 0 <= k < st.Length ==> st[k] == (if k < c then Cleared(old(st[k]), now) else old(st[k]))
    {
      st[c] := Cleared(st[c], now);
      c := c + 1;
    }
  }

  /**
   * One pass of the outer loop of `textToStats`: the loop over the eight
   * fields of line `c`, then the busy share of the slot it filled, once
   * the previous aggregate has ticks. An exception leaves the slot as far
   * as it got.
   */
  method LineToStats(d: ProcFS.Data, ghost text: seq<char16>, c: int, ghost line: seq<ProcFS.Span>,
                     st: array<Stats>, prev: array<Stats>) returns (f: Option<Failure>)
    requires Reads(d, text, c, line) && st.Length == prev.Length && st != prev
    modifies st
    ensures var o := LineStats(text, line, c, old(st[..]), prev[..]);
      st[..] == o.value && f == o.failure
  {
    ghost var st0 := st[..];
    var cpu;
    cpu, f := Fields(d, text, c, line, st);
    FieldsThenLoad(text, line, c, st0, prev[..], cpu, f, st[..]);
    if f.Some? {
      return;
    }
    if cpu >= 0 {
      if prev[0].user > 0 {
        st[cpu] := st[cpu].(load := Load(prev[cpu], st[cpu]));
      }
    }
  }

  /** What the pass leaves once the field loop left `st1` behind: the slot
      it filled gets its busy share, unless an exception ended the loop. */
  lemma FieldsThenLoad(text: seq<char16>, line: seq<ProcFS.Span>, c: int, st0: seq<Stats>, prev: seq<Stats>,
                       cpu: int, f: Option<Failure>, st1: seq<Stats>)
    requires |line| == Cpu.COLUMNS && |prev| == |st0| == |st1|
    requires var slot := Slot(text, line[0], c);
      (slot.Err? ==> f == Some(slot.error) && st1 == st0) &&
      (slot.Ok? ==> cpu == slot.value) &&
      (slot.Ok? && (cpu < 0 || cpu >= |st0|) ==> st1 == st0 && f == (if cpu < 0 then None else Some(IndexOutOfBounds))) &&
      (slot.Ok? && 0 <= cpu < |st0| ==>
        Counters(text, line, 1, st0[cpu].(cpu := cpu - 1)) == Partial(st1[cpu], f) && st1 == st0[cpu := st1[cpu]])
    ensures var o := LineStats(text, line, c, st0, prev);
      if f.Some? || cpu < 0 || prev[0].user <= 0 then o == Partial(st1, f)
      else 0 <= cpu < |st1| && o == Partial(st1[cpu := st1[cpu].(load := Load(prev[cpu], st1[cpu]))], None)
  {
    var slot := Slot(text, line[0], c);
    if slot.Err? {
      LineStatsFails(text, line, c, st0, prev);
      assert st1 == st0 && f == Some(slot.error);
    } else if cpu >= |st0| {
      LineStatsFails(text, line, c, st0, prev);
      assert st1 == st0 && f == Some(IndexOutOfBounds);
    } else if cpu < 0 {
      LineStatsSkips(text, line, c, st0, prev);
      assert st1 == st0 && f == None;
    } else {
      var s := st1[cpu];
      assert Counters(text, line, 1, st0[cpu].(cpu := cpu - 1)) == Partial(s, f);
      LineStatsCounted(text, line, c, st0, prev, cpu, s, f);
      var x := s.(load := Load(prev[cpu], s));
      UpdateTwice(st0, st1, cpu, x);
    }
  }

  /** Updating a slot of a sequence that differs from another in that slot
      only gives the same sequence. */
  lemma UpdateTwice<T>(a: seq<T>, b: seq<T>, k: int, x: T)
    requires 0 <= k < |a| && |b| == |a| && b == a[k := b[k]]
    ensures b[k := x] == a[k := x]
  {
  }

  /** `text` holds the chars of generation `d` and `line` the spans of its
      line `c`. */
  ghost predicate Reads(d: ProcFS.Data, text: seq<char16>, c: int, line: seq<ProcFS.Span>)
    reads d, d.chars, d.offsets, d.lengths
  {
    d.Valid() && d.columns == Cpu.COLUMNS && d.offsets != null && d.chars != null &&
    0 <= c < d.offsets.Length1 && text == d.chars[..] && line == LineSpans(d, c)
  }

  /**
   * The loop over the eight fields of line `c`: the first token decides
   * the slot, then each further field sets its counter of that slot, up to
   * the first exception.
   */
  method Fields(d: ProcFS.Data, ghost text: seq<char16>, c: int, ghost line: seq<ProcFS.Span>, st: array<Stats>)
    returns (cpu: int, f: Option<Failure>)
    requires Reads(d, text, c, line)
    modifies st
    ensures var slot := Slot(text, line[0], c);
      (slot.Err? ==> f == Some(slot.error) && st[..] == old(st[..])) &&
      (slot.Ok? ==> cpu == slot.value) &&
      (slot.Ok? && (cpu < 0 || cpu >= st.Length) ==>
        st[..] == old(st[..]) && f == (if cpu < 0 then None else Some(IndexOutOfBounds))) &&
      (slot.Ok? && 0 <= cpu < st.Length ==>
        Counters(text, line, 1, old(st[cpu]).(cpu := cpu - 1)) == Partial(st[cpu], f) &&
        st[..] == old(st[..])[cpu := st[cpu]])
  {
    cpu, f := FirstField(d, text, c, line, st);
    if f.Some? || cpu < 0 {
      return;
    }
    f := Counts(d, text, c, line, cpu, st);
  }

  /** The passes `r >= 1` of the field loop on a line that selected slot
      `cpu`: its counters, parsed field by field up to the first exception. */
  method Counts(d: ProcFS.Data, ghost text: seq<char16>, c: int, ghost line: seq<ProcFS.Span>,
                cpu: int, st: array<Stats>) returns (f: Option<Failure>)
    requires Reads(d, text, c, line) && 0 <= cpu < st.Length
    modifies st
    ensures st[..] == old(st[..])[cpu := st[cpu]]
    ensures Counters(text, line, 1, old(st[cpu])) == Partial(st[cpu], f)
  {
    f := None;
    var r := 1;
    while r < Cpu.COLUMNS
      invariant 1 <= r <= Cpu.COLUMNS && f.None?
      invariant st[..] == old(st[..])[cpu := st[cpu]]
      invariant Counters(text, line, r, st[cpu]) == Counters(text, line, 1, old(st[cpu]))
    {
      f := NextField(d, text, c, line, r, cpu, st);
      if f.Some? {
        return;
      }
      r := r + 1;
    }
  }

  /** A line whose first token cannot be read or selects a slot past the
      last one ends `textToStats` with nothing changed. */
  lemma LineStatsFails(text: seq<char16>, line: seq<ProcFS.Span>, c: int, st: seq<Stats>, prev: seq<Stats>)
    requires |line| == Cpu.COLUMNS && |prev| == |st|
    requires var slot := Slot(text, line[0], c); slot.Err? || slot.value >= |st|
    ensures var slot := Slot(text, line[0], c);
      LineStats(text, line, c, st, prev) == Partial(st, Some(if slot.Err? then slot.error else IndexOutOfBounds))
  {
  }

  /** A line that selects no slot changes nothing. */
  lemma LineStatsSkips(text: seq<char16>, line: seq<ProcFS.Span>, c: int, st: seq<Stats>, prev: seq<Stats>)
    requires |line| == Cpu.COLUMNS && |prev| == |st|
    requires var slot := Slot(text, line[0], c); slot.Ok? && slot.value < 0
    ensures LineStats(text, line, c, st, prev) == Partial(st, None)
  {
  }

  /** A line that selects slot `cpu` whose counters end as `s`. */
  lemma LineStatsCounted(text: seq<char16>, line: seq<ProcFS.Span>, c: int, st: seq<Stats>, prev: seq<Stats>,
                         cpu: int, s: Stats, fail: Option<Failure>)
    requires |line| == Cpu.COLUMNS && |prev| == |st|
    requires Slot(text, line[0], c) == Ok(cpu) && 0 <= cpu < |st|
    requires Counters(text, line, 1, st[cpu].(cpu := cpu - 1)) == Partial(s, fail)
    ensures LineStats(text, line, c, st, prev) ==
      if fail.Some? then Partial(st[cpu := s], fail)
      else if prev[0].user > 0 then Partial(st[cpu := s.(load := Load(prev[cpu], s))], None)
      else Partial(st[cpu := s], None)
  {
  }

  /** The pass `r == 0` of the field loop: the slot the first token
      selects, whose processor number is set to one less than the slot. */
  method FirstField(d: ProcFS.Data, ghost text: seq<char16>, c: int, ghost line: seq<ProcFS.Span>, st: array<Stats>)
    returns (cpu: int, f: Option<Failure>)
    requires Reads(d, text, c, line)
    modifies st
    ensures var slot := Slot(text, line[0], c);
      (slot.Err? ==> f == Some(slot.error) && st[..] == old(st[..])) &&
      (slot.Ok? ==> (cpu == slot.value && (f.Some? <==> cpu >= st.Length) &&
        (f.Some? ==> f.value == IndexOutOfBounds) &&
        (0 <= cpu < st.Length ==> st[..] == old(st[..])[cpu := old(st[cpu]).(cpu := cpu - 1)]) &&
        (cpu < 0 || cpu >= st.Length ==> st[..] == old(st[..]))))
  {
    var span := ProcFS.Span(d.offsets[0, c], d.lengths[0, c]);
    assert span == line[0];
    var slot := SlotOf(d.chars, span, c);
    if slot.Err? {
      return -1, Some(slot.error);
    }
    cpu, f := slot.value, None;
    if cpu >= 0 {
      if cpu >= st.Length {
        return cpu, Some(IndexOutOfBounds);
      }
      st[cpu] := st[cpu].(cpu := cpu - 1);
    }
  }

  /** `r == 0 && Text.startsWith(buf, "cpu")` and the processor number
      after the prefix. */
  method SlotOf(chars: array<char16>, span: ProcFS.Span, c: int) returns (slot: Result<int>)
    ensures slot == Slot(chars[..], span, c)
  {
    if !Cpu.Inside(chars[..], span) {
      return Err(IndexOutOfBounds);
    }
    var token := chars[span.offset..span.offset + span.length];
    assert Token(chars[..], span) == Ok(token);
    var prefixed := Text.StartsWith(token, CPU_PREFIX);
    if !prefixed {
      return Ok(-1);
    }
    if c == 0 {
      return Ok(0);
    }
    var v := Numbers.ParseLong(token, 3, |token| - 3);
    assert token[3..|token|] == token[3..];
    if v.Err? {
      return Err(v.error);
    }
    slot := Ok(Wrap32(Wrap32(v.value) + 1));
  }

  /** A pass `r >= 1` of the field loop on a line that selected slot `cpu`:
      counter `r` of the slot parsed from field `r`. */
  method NextField(d: ProcFS.Data, ghost text: seq<char16>, c: int, ghost line: seq<ProcFS.Span>,
                   r: int, cpu: int, st: array<Stats>) returns (f: Option<Failure>)
    requires Reads(d, text, c, line) && 1 <= r < Cpu.COLUMNS && 0 <= cpu < st.Length
    modifies st
    ensures st[..] == old(st[..])[cpu := st[cpu]] &&
      (f.Some? ==> st[cpu] == old(st[cpu]) && Counters(text, line, r, st[cpu]) == Partial(st[cpu], f)) &&
      (f.None? ==> Counters(text, line, r, old(st[cpu])) == Counters(text, line, r + 1, st[cpu]))
  {
    var span := ProcFS.Span(d.offsets[r, c], d.lengths[r, c]);
    assert span == line[r];
    if !Cpu.Inside(d.chars[..], span) {
      return Some(IndexOutOfBounds);
    }
    var v := Numbers.ParseLong(d.chars[..], span.offset, span.length);
    if v.Err? {
      return Some(v.error);
    }
    st[cpu] := SetCounter(st[cpu], r, v.value);
    f := None;
  }

  /**
   * `textToStats(d, n)` on the generation `d` that `parse` just laid out,
   * writing slots `st` with the previous read's slots `prev` beside them,
   * then `delta(st)` into `delta`. Every reading of `System.nanoTime()` is
   * `now`. An exception ends the pass with the slots as far as it got and
   * `delta` untouched.
   */
  method TextToStats(d: ProcFS.Data, ghost text: seq<char16>, n: int, ghost grid: seq<seq<ProcFS.Span>>,
                     st: array<Stats>, prev: array<Stats>, delta: array<Stats>, now: int)
    returns (f: Option<Failure>)
    requires d.Valid() && d.columns == Cpu.COLUMNS && d.chars != null && d.offsets != null
    requires 0 <= n <= d.offsets.Length1 && n <= st.Length
    requires text == d.chars[..] && grid == Grid(d, n)
    requires st.Length == prev.Length == delta.Length && st != prev && delta != st && delta != prev
    requires IsLong(now)
    modifies st, delta
    ensures var o := StatsOf(text, grid, old(st[..]), prev[..], now);
      st[..] == o.value && f == o.failure
    ensures f.None? ==> delta[..] == Deltas(st[..], prev[..], now)
    ensures f.Some? ==> delta[..] == old(delta[..])
  {
    ghost var goal := StatsOf(text, grid, st[..], prev[..], now);
    ClearSlots(st, n, now);
    ghost var st1 := st[..];
    assert grid[..0] == [] && goal == Lines(text, grid, st1, prev[..]);
    var c := 0;
    while c < n
      invariant 0 <= c <= n && delta[..] == old(delta[..])
      invariant Lines(text, grid[..c], st1, prev[..]) == Partial(st[..], None)
    {
      LinesStep(text, grid, c, st1, prev[..]);
      assert grid[c] == LineSpans(d, c);
      f := LineToStats(d, text, c, grid[c], st, prev);
      if f.Some? {
        LinesStop(text, grid, c + 1, st1, prev[..]);
        assert goal == Partial(st[..], f);
        return;
      }
      c := c + 1;
    }
    assert grid[..n] == grid;
    Delta(st, prev, delta, now);
    f := None;
    assert goal == Partial(st[..], f);
  }

  /** The pass over line `c` continues the passes over the lines before it. */
  lemma LinesStep(text: seq<char16>, grid: seq<seq<ProcFS.Span>>, c: int, st: seq<Stats>, prev: seq<Stats>)
    requires (forall k :: 0 <= k < |grid| ==> |grid[k]| == Cpu.COLUMNS) && |prev| == |st|
    requires 0 <= c < |grid| && Lines(text, grid[..c], st, prev).failure.None?
    ensures Lines(text, grid[..c + 1], st, prev) ==
      LineStats(text, grid[c], c, Lines(text, grid[..c], st, prev).value, prev)
  {
    assert grid[..c + 1][..c] == grid[..c];
  }

  /** Lines past the one that threw are never read. */
  lemma {:induction false} LinesStop(text: seq<char16>, grid: seq<seq<ProcFS.Span>>, k: int, st: seq<Stats>, prev: seq<Stats>)
    requires (forall c :: 0 <= c < |grid| ==> |grid[c]| == Cpu.COLUMNS) && |prev| == |st|
    requires 0 <= k <= |grid| && Lines(text, grid[..k], st, prev).failure.Some?
    ensures Lines(text, grid, st, prev) == Lines(text, grid[..k], st, prev)
    decreases |grid| - k
  {
    if k < |grid| {
      assert grid[..|grid| - 1][..k] == grid[..k];
      LinesStop(text, grid[..|grid| - 1], k, st, prev);
    } else {
      assert grid[..k] == grid;
    }
  }

  /** `delta(st)`: each slot's counters per second since the previous read. */
  method Delta(st: array<Stats>, prev: array<Stats>, delta: array<Stats>, now: int)
    requires st.Length == prev.Length == delta.Length && delta != st && delta != prev
    requires IsLong(now)
    modifies delta
    ensures delta[..] == Deltas(st[..], prev[..], now)
  {
    var cpu := 0;
    while cpu < delta.Length
      invariant 0 <= cpu <= delta.Length
      invariant forall k :: 0 <= k < cpu ==> delta[k] == DeltaOf(st[k], prev[k], now)
    {
      var dt := DeltaSlot(st[cpu], prev[cpu], now);
      delta[cpu] := dt;
      cpu := cpu + 1;
    }
  }

  /** The body of the loop of `delta` on one slot: the per-second rates
      when at least a millisecond has passed, otherwise a cleared slot
      stamped with the time. */
  method DeltaSlot(cur: Stats, prev: Stats, now: int) returns (dt: Stats)
    requires IsLong(now)
    ensures dt == DeltaOf(cur, prev, now)
  {
    var nanos := Wrap64(cur.nanos - prev.nanos);
    var milliseconds := Millis(nanos);
    if milliseconds > 0 {
      dt := Stats(cur.cpu,
        Rate(cur.user, prev.user, milliseconds), Rate(cur.nice, prev.nice, milliseconds),
        Rate(cur.system, prev.system, milliseconds), Rate(cur.idle, prev.idle, milliseconds),
        Rate(cur.iowait, prev.iowait, milliseconds), Rate(cur.irq, prev.irq, milliseconds),
        Rate(cur.softirq, prev.softirq, milliseconds), cur.load, nanos);
    } else {
      dt := Stats(cur.cpu, 0, 0, 0, 0, 0, 0, 0, 0, now);
    }
  }

  // ---------------------------------------------------------------------
  // What a pass makes of a line.

  /** The counters read from a line whose fields `r..7` all parse: each
      counter from its own field, the earlier ones, the processor number,
      the busy share and the timestamp as they were. */
  lemma {:induction false} CountersRead(text: seq<char16>, line: seq<ProcFS.Span>, r: int, s: Stats)
    requires |line| == Cpu.COLUMNS && 1 <= r <= Cpu.COLUMNS
    requires forall k :: r <= k < Cpu.COLUMNS ==> Field(text, line[k]).Ok?
    ensures var o := Counters(text, line, r, s);
      o.failure.None? && o.value.cpu == s.cpu && o.value.load == s.load && o.value.nanos == s.nanos &&
      (forall k :: r <= k < Cpu.COLUMNS ==> Counter(o.value, k) == Field(text, line[k]).value) &&
      (forall k :: 1 <= k < r ==> Counter(o.value, k) == Counter(s, k))
    decreases Cpu.COLUMNS - r
  {
    if r < Cpu.COLUMNS {
      var s' := SetCounter(s, r, Field(text, line[r]).value);
      assert Counters(text, line, r, s) == Counters(text, line, r + 1, s');
      CountersRead(text, line, r + 1, s');
      var o := Counters(text, line, r + 1, s');
      forall k | 1 <= k < r + 1
        ensures Counter(o.value, k) == (if k == r then Field(text, line[r]).value else Counter(s, k))
      {
        assert Counter(o.value, k) == Counter(s', k);
      }
    }
  }

  /** The first field of `r..7` that does not parse ends the counters with
      its exception. */
  lemma {:induction false} CountersStop(text: seq<char16>, line: seq<ProcFS.Span>, r: int, s: Stats, j: int)
    requires |line| == Cpu.COLUMNS && 1 <= r <= j < Cpu.COLUMNS
    requires forall k :: r <= k < j ==> Field(text, line[k]).Ok?
    requires Field(text, line[j]).Err?
    ensures Counters(text, line, r, s).failure == Some(Field(text, line[j]).error)
    decreases j - r
  {
    if r < j {
      var s' := SetCounter(s, r, Field(text, line[r]).value);
      assert Counters(text, line, r, s) == Counters(text, line, r + 1, s');
      CountersStop(text, line, r + 1, s', j);
    }
  }

  /** Counters before field `r` are not touched by the fields from `r` on. */
  lemma {:induction false} CountersKeep(text: seq<char16>, line: seq<ProcFS.Span>, r: int, s: Stats, k: int)
    requires |line| == Cpu.COLUMNS && 1 <= k < r <= Cpu.COLUMNS
    ensures Counter(Counters(text, line, r, s).value, k) == Counter(s, k)
    decreases Cpu.COLUMNS - r
  {
    if r < Cpu.COLUMNS {
      match Field(text, line[r])
      case Err(_) =>
      case Ok(v) =>
        CountersKeep(text, line, r + 1, SetCounter(s, r, v), k);
    }
  }

  /** The first line whose first token starts with "cpu" selects slot 0,
      the aggregate, whatever follows the prefix. */
  lemma AggregateSlot(text: seq<char16>, span: ProcFS.Span)
    requires Token(text, span).Ok? && Text.IsPrefix(Token(text, span).value, CPU_PREFIX)
    ensures Slot(text, span, 0) == Ok(0)
  {
  }

  /** On any other line, the token "cpu" followed by the decimal form of
      processor number `k` selects slot `k + 1`. */
  lemma ProcessorSlot(text: seq<char16>, span: ProcFS.Span, c: int, k: int)
    requires c != 0 && 0 <= k < INT_MAX
    requires Token(text, span) == Ok(CPU_PREFIX + Numbers.Render(k, 10))
    ensures Slot(text, span, c) == Ok(k + 1)
  {
    var t := CPU_PREFIX + Numbers.Render(k, 10);
    assert t[..3] == CPU_PREFIX && t[3..] == Numbers.Render(k, 10);
    Numbers.ParseRenderRoundTrip(k);
  }

  /** A token that does not start with "cpu" selects no slot, and the pass
      over its line changes nothing. */
  lemma OtherLineIgnored(text: seq<char16>, line: seq<ProcFS.Span>, c: int, st: seq<Stats>, prev: seq<Stats>)
    requires |line| == Cpu.COLUMNS && |prev| == |st|
    requires Token(text, line[0]).Ok? && !Text.IsPrefix(Token(text, line[0]).value, CPU_PREFIX)
    ensures Slot(text, line[0], c) == Ok(-1)
    ensures LineStats(text, line, c, st, prev) == Partial(st, None)
  {
  }

  /** A line that selects slot `cpu` and whose seven counters all parse:
      the slot gets processor number `cpu - 1`, the parsed counters and,
      once the previous aggregate has ticks, its busy share since the
      previous read; no other slot changes. */
  lemma CountedLine(text: seq<char16>, line: seq<ProcFS.Span>, c: int, st: seq<Stats>, prev: seq<Stats>, cpu: int)
    requires |line| == Cpu.COLUMNS && |prev| == |st|
    requires Slot(text, line[0], c) == Ok(cpu) && 0 <= cpu < |st|
    requires forall k :: 1 <= k < Cpu.COLUMNS ==> Field(text, line[k]).Ok?
    ensures var o := LineStats(text, line, c, st, prev);
      o.failure.None? && |o.value| == |st| &&
      (forall j :: 0 <= j < |st| && j != cpu ==> o.value[j] == st[j]) &&
      o.value[cpu].cpu == cpu - 1 && o.value[cpu].nanos == st[cpu].nanos &&
      (forall k :: 1 <= k < Cpu.COLUMNS ==> Counter(o.value[cpu], k) == Field(text, line[k]).value) &&
      o.value[cpu].load == (if prev[0].user > 0 then Load(prev[cpu], o.value[cpu]) else st[cpu].load)
  {
    var s := st[cpu].(cpu := cpu - 1);
    CountersRead(text, line, 1, s);
    var f := Counters(text, line, 1, s);
    LineStatsCounted(text, line, c, st, prev, cpu, f.value, f.failure);
    var l := Load(prev[cpu], f.value);
    assert Load(prev[cpu], f.value.(load := l)) == l by {
      LoadIgnoresLoad(prev[cpu], f.value, l);
    }
  }

  /** The busy share depends on the counters only. */
  lemma LoadIgnoresLoad(s0: Stats, s1: Stats, l: int)
    ensures Load(s0, s1.(load := l)) == Load(s0, s1)
  {
    SharesIgnoreLoad(s1, l);
  }

  lemma SharesIgnoreLoad(s: Stats, l: int)
    ensures Busy(s.(load := l)) == Busy(s) && Idle(s.(load := l)) == Idle(s)
  {
  }

  // ---------------------------------------------------------------------
  // Every slot keeps to the source's field types.

  /** Every slot of `st` fits the source's field types. */
  predicate AllFit(st: seq<Stats>)
  {
    forall k :: 0 <= k < |st| ==> Fits(st[k])
  }

  /** Parsed counters are `long`s. */
  lemma {:induction false} CountersFit(text: seq<char16>, line: seq<ProcFS.Span>, r: int, s: Stats)
    requires |line| == Cpu.COLUMNS && 1 <= r <= Cpu.COLUMNS && Fits(s)
    ensures Fits(Counters(text, line, r, s).value)
    decreases Cpu.COLUMNS - r
  {
    if r < Cpu.COLUMNS {
      match Field(text, line[r])
      case Err(_) =>
      case Ok(v) =>
        var s' := SetCounter(s, r, v);
        assert Fits(s');
        CountersFit(text, line, r + 1, s');
    }
  }

  /** A pass over one line keeps every slot within the field types. */
  lemma LineStatsFit(text: seq<char16>, line: seq<ProcFS.Span>, c: int, st: seq<Stats>, prev: seq<Stats>)
    requires |line| == Cpu.COLUMNS && |prev| == |st| && AllFit(st)
    ensures AllFit(LineStats(text, line, c, st, prev).value)
  {
    var slot := Slot(text, line[0], c);
    if slot.Err? || slot.value >= |st| {
      LineStatsFails(text, line, c, st, prev);
    } else if slot.value < 0 {
      LineStatsSkips(text, line, c, st, prev);
    } else {
      var cpu := slot.value;
      var f := Counters(text, line, 1, st[cpu].(cpu := cpu - 1));
      CountersFit(text, line, 1, st[cpu].(cpu := cpu - 1));
      LineStatsCounted(text, line, c, st, prev, cpu, f.value, f.failure);
      var s := if f.failure.None? && prev[0].user > 0 then f.value.(load := Load(prev[cpu], f.value)) else f.value;
      assert Fits(s);
      assert LineStats(text, line, c, st, prev).value == st[cpu := s];
    }
  }

  /** The passes over all lines keep every slot within the field types. */
  lemma {:induction false} LinesFit(text: seq<char16>, grid: seq<seq<ProcFS.Span>>, st: seq<Stats>, prev: seq<Stats>)
    requires (forall c :: 0 <= c < |grid| ==> |grid[c]| == Cpu.COLUMNS) && |prev| == |st| && AllFit(st)
    ensures AllFit(Lines(text, grid, st, prev).value)
  {
    if grid != [] {
      var o := Lines(text, grid[..|grid| - 1], st, prev);
      LinesFit(text, grid[..|grid| - 1], st, prev);
      if o.failure.None? {
        LineStatsFit(text, grid[|grid| - 1], |grid| - 1, o.value, prev);
      }
    }
  }

  /** `textToStats` keeps every slot within the field types, whether or not
      it ends early. */
  lemma StatsOfFit(text: seq<char16>, grid: seq<seq<ProcFS.Span>>, st: seq<Stats>, prev: seq<Stats>, now: int)
    requires (forall c :: 0 <= c < |grid| ==> |grid[c]| == Cpu.COLUMNS) && |prev| == |st|
    requires AllFit(st) && IsLong(now)
    ensures AllFit(StatsOf(text, grid, st, prev, now).value)
  {
    LinesFit(text, grid, Reset(st, |grid|, now), prev);
  }

  /** The rates `delta` computes are within the field types. */
  lemma DeltasFit(st: seq<Stats>, prev: seq<Stats>, now: int)
    requires |st| == |prev| && AllFit(st) && IsLong(now)
    ensures AllFit(Deltas(st, prev, now))
  {
  }
}
