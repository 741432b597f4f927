/**
 * The `CPU` table as the view sees it: `ap + 2` columns (the row labels,
 * the aggregate, one per processor) by nine rows (the processor, seven
 * counters per second, the busy share), read from the `delta` slots; and
 * `read`, which loads `/proc/stat` into the current generation, lays out
 * its spans, derives the slots of `stats[ix]` against `stats[1 - ix]` and
 * the rates into `delta`, then publishes the generation.
 */
module CpuTable {
  import opened JavaLang
  import ProcFS
  import Numbers
  import Cpu
  import opened CpuStats

  /** The rows of the table. */
  const ROWS: int := 9

  /** The row labels of column 0: "cpu", "user", "nice", "system", "idle",
      "iowait", "irq", "softirq", "load". */
  const LABELS: seq<seq<char16>> := [
    [0x63, 0x70, 0x75],
    [0x75, 0x73, 0x65, 0x72],
    [0x6E, 0x69, 0x63, 0x65],
    [0x73, 0x79, 0x73, 0x74, 0x65, 0x6D],
    [0x69, 0x64, 0x6C, 0x65],
    [0x69, 0x6F, 0x77, 0x61, 0x69, 0x74],
    [0x69, 0x72, 0x71],
    [0x73, 0x6F, 0x66, 0x74, 0x69, 0x72, 0x71],
    [0x6C, 0x6F, 0x61, 0x64]]

  /** "all": the processor cell of the aggregate. */
  const ALL: seq<char16> := [0x61, 0x6C, 0x6C]

  /** "100.00%": the widest cell, shown while the view measures. */
  const WIDEST: seq<char16> := [0x31, 0x30, 0x30, 0x2E, 0x30, 0x30, 0x25]

  /** What a cell shows: chars, or a busy share in tenths of a percent,
      which the source formats as a float followed by '%'. */
  datatype Shown = Chars(chars: seq<char16>) | Percent(tenths: int)

  /** "all" is not a number, so no processor cell reads as "all". */
  lemma AllIsNotNumber()
    ensures Numbers.ParseLongSpec(ALL).Err?
  {
    assert Numbers.SkipWhitespace(ALL) == ALL;
    assert !Numbers.AllDecimalDigits(ALL);
  }

  class Table {
    const ap: nat
    const engine: ProcFS.Engine
    const stats0: array<Stats>
    const stats1: array<Stats>
    const delta: array<Stats>
    var measuring: int

    /** Both generations of slots and the rates have `ap + 1` slots, all
        distinct arrays whose values fit the source's field types, beside a
        valid engine of eight span columns. */
    ghost predicate Valid()
      reads this, engine, engine.data0, engine.data1, engine.data0.chars, engine.data1.chars,
        stats0, stats1, delta
    {
      engine.Valid() && engine.data0.columns == Cpu.COLUMNS &&
      stats0.Length == ap + 1 && stats1.Length == ap + 1 && delta.Length == ap + 1 &&
      stats0 != stats1 && delta != stats0 && delta != stats1 &&
      AllFit(stats0[..]) && AllFit(stats1[..]) && AllFit(delta[..])
    }

    /** `stats[ix]`: the slots the next read writes. */
    function Current(): (st: array<Stats>)
      reads this, engine
      ensures st == stats0 || st == stats1
    {
      if engine.ix == 0 then stats0 else stats1
    }

    /** `stats[1 - ix]`: the slots of the last published read. */
    function Previous(): (st: array<Stats>)
      reads this, engine
      ensures st == stats0 || st == stats1
      ensures stats0 != stats1 ==> st != Current()
    {
      if engine.ix == 0 then stats1 else stats0
    }

    /** `new CPU()` for `ap` processors: every slot zero. */
    constructor(ap: nat)
      ensures Valid() && this.ap == ap && measuring == 0 && engine.ix == 0
      ensures fresh(engine) && fresh(stats0) && fresh(stats1) && fresh(delta)
      ensures forall k :: 0 <= k <= ap ==> stats0[k] == Zero && stats1[k] == Zero && delta[k] == Zero
    {
      var e := NewEngine();
      var d := NewSlots(ap + 1);
      var s0 := NewSlots(ap + 1);
      var s1 := NewSlots(ap + 1);
      this.ap := ap;
      engine, delta, stats0, stats1 := e, d, s0, s1;
      measuring := 0;
    }

    /** `columns()`: the labels, the aggregate and one column per processor. */
    function Columns(): (n: int)
      ensures n == ap + 2
    {
      ap + 2
    }

    /** `rows()`: one row per label. */
    function Rows(): (n: int)
      ensures n == |LABELS| == ROWS
    {
      ROWS
    }

    /** `getText(c, r)`: column 0 holds the row labels; column `c > 0` shows
        slot `c - 1` of `delta`, the processor as "all" or its number, the
        counters in decimal and the busy share; a row outside the nine shows
        nothing, and a column past the slots throws once a row selects a
        field. */
    function GetText(c: int, r: int): (t: Result<Shown>)
      requires Valid()
      reads this, engine, engine.data0, engine.data1, engine.data0.chars, engine.data1.chars,
        stats0, stats1, delta
      ensures measuring > 0 ==> t == Ok(Chars(WIDEST))
      ensures measuring <= 0 && c == 0 ==> t == Ok(Chars(if 0 <= r < ROWS then LABELS[r] else []))
      ensures measuring <= 0 && c != 0 && !(0 <= r < ROWS) ==> t == Ok(Chars([]))
      ensures measuring <= 0 && c != 0 && 0 <= r < ROWS ==>
        (t.Err? <==> !(1 <= c <= delta.Length)) && (t.Err? ==> t.error == IndexOutOfBounds)
      ensures measuring <= 0 && 1 <= c <= delta.Length && r == 0 ==>
        t.Ok? && t.value.Chars? && (t.value.chars == ALL <==> delta[c - 1].cpu < 0) &&
        (delta[c - 1].cpu >= 0 ==> Numbers.ParseLongSpec(t.value.chars) == Ok(delta[c - 1].cpu))
      ensures measuring <= 0 && 1 <= c <= delta.Length && 1 <= r < Cpu.COLUMNS ==>
        t.Ok? && t.value.Chars? && Numbers.ParseLongSpec(t.value.chars) == Ok(Counter(delta[c - 1], r))
      ensures measuring <= 0 && 1 <= c <= delta.Length && r == 8 ==>
        t == Ok(Percent(delta[c - 1].load))
    {
      if measuring > 0 then Ok(Chars(WIDEST))
      else if c == 0 then Ok(Chars(if 0 <= r < ROWS then LABELS[r] else []))
      else if !(0 <= r < ROWS) then Ok(Chars([]))
      else if !(1 <= c <= delta.Length) then Err(IndexOutOfBounds)
      else
        var s := delta[c - 1];
        assert Fits(s);
        if r == 0 then
          if s.cpu < 0 then Ok(Chars(ALL))
          else
            Numbers.ParseRenderRoundTrip(s.cpu);
            AllIsNotNumber();
            Ok(Chars(Numbers.Render(s.cpu, 10)))
        else if r == 8 then Ok(Percent(s.load))
        else
          Numbers.ParseRenderRoundTrip(Counter(s, r));
          Ok(Chars(Numbers.Render(Counter(s, r), 10)))
    }

    /**
     * `read`: load `/proc/stat` into the current generation, then `parse`,
     * which lays out the spans of the first `ap + 1` lines, derives
     * `stats[ix]` from them against `stats[1 - ix]` at the clock reading
     * `now`, fills `delta` with the rates, and publishes the generation. A
     * read that throws publishes nothing, and the table shows what it
     * showed before.
     */
    method Read(src: ProcFS.Source, now: int) returns (r: Result<int>)
      requires Valid() && src.Valid() && IsLong(now)
      modifies engine, engine.Current(), engine.Current().bytes, engine.Current().chars,
        engine.Current().offsets, engine.Current().lengths, src, Current(), delta
      ensures Valid() && src.Valid()
      ensures r.Err? ==> (engine.ix == old(engine.ix) && engine.Published() == old(engine.Published()) &&
        Previous()[..] == old(Previous()[..]) && delta[..] == old(delta[..]) &&
        (|src.content| == 0 ==> r.error == IndexOutOfBounds) &&
        forall c, row :: GetText(c, row) == old(GetText(c, row)))
      ensures r.Ok? ==> (engine.Published() == old(engine.Current()) && Previous() == old(Current()) &&
        |src.content| > 0 &&
        var d := engine.Published();
        d.chars != null && d.chars.Length > 0 && d.offsets != null &&
        var text := d.chars[..];
        r.value == Cpu.Clamp(LineCount(text), ap) && r.value <= d.offsets.Length1 &&
        Previous()[..] == StatsOf(text, Grid(d, r.value), old(Current()[..]), Current()[..], now).value &&
        delta[..] == Deltas(Previous()[..], Current()[..], now))
    {
      var loaded := Load(src);
      if loaded.Err? {
        return Err(loaded.error);
      }
      r := Commit(loaded.value, now);
    }

    /** `read` up to the call of `parse`: the file loaded into the current
        generation, with the slots and the rates left as they are. */
    method Load(src: ProcFS.Source) returns (r: Result<ProcFS.Loaded>)
      requires Valid() && src.Valid()
      modifies engine.Current(), engine.Current().bytes, engine.Current().chars, src
      ensures Valid() && src.Valid()
      ensures engine.Current() == old(engine.Current()) && engine.Published() == old(engine.Published())
      ensures var d := engine.Current();
        (d.offsets == old(d.offsets) && d.lengths == old(d.lengths)) || (fresh(d.offsets) && fresh(d.lengths))
      ensures Current()[..] == old(Current()[..]) && Previous()[..] == old(Previous()[..]) &&
        delta[..] == old(delta[..])
      ensures (r.Err? <==> |src.content| == 0) && (r.Err? ==> r.error == IndexOutOfBounds)
      ensures r.Ok? ==> var d := engine.Current(); var l := r.value;
        d.chars != null && l.len == d.chars.Length && l.len > 0 &&
        l.hasLastLineBreak == (d.chars[l.len - 1] == NEWLINE) && l.count == LineCount(d.chars[..]) &&
        d.offsets != null && d.offsets.Length1 == l.count
    {
      r := engine.Fill(src);
    }

    /** The end of `read` once the text is loaded: `parse` with its closing
        assertion, `textToStats` and `delta`, then `ix = ai.incrementAndGet() % 2`. */
    method Commit(l: ProcFS.Loaded, now: int) returns (r: Result<int>)
      requires Valid() && IsLong(now)
      requires var d := engine.Current();
        d.chars != null && l.len == d.chars.Length && l.len > 0 &&
        l.hasLastLineBreak == (d.chars[l.len - 1] == NEWLINE) && l.count == LineCount(d.chars[..]) &&
        d.offsets != null && d.offsets.Length1 == l.count
      modifies engine, engine.Current().offsets, engine.Current().lengths, Current(), delta
      ensures Valid()
      ensures r.Err? ==> (engine.ix == old(engine.ix) && engine.Published() == old(engine.Published()) &&
        Previous()[..] == old(Previous()[..]) && delta[..] == old(delta[..]))
      ensures r.Ok? ==> (engine.Published() == old(engine.Current()) && Previous() == old(Current()) &&
        var d := engine.Published();
        d.chars != null && d.chars.Length > 0 && d.offsets != null &&
        var text := d.chars[..];
        r.value == Cpu.Clamp(LineCount(text), ap) && r.value <= d.offsets.Length1 &&
        Previous()[..] == StatsOf(text, Grid(d, r.value), old(Current()[..]), Current()[..], now).value &&
        delta[..] == Deltas(Previous()[..], Current()[..], now))
    {
      var ok, n := Lay(l);
      if !ok {
        return Err(AssertionFailed);
      }
      var d, st, prev := engine.Current(), Current(), Previous();
      assert st[..] == old(st[..]) && prev[..] == old(prev[..]) && delta[..] == old(delta[..]);
      ghost var text := d.chars[..];
      ghost var grid := Grid(d, n);
      ghost var before := st[..];
      var f := Derive(n, now, text, grid);
      if f.Some? {
        return Err(f.value);
      }
      Swap(n);
      r := Ok(n);
    }

    /** The last line of `read`, `ix = ai.incrementAndGet() % 2`: the
        loaded generation is published, and its slots become `stats[1 - ix]`. */
    method Swap(ghost n: int)
      requires Valid() && ProcFS.Counted(engine.Current())
      requires engine.Current().offsets != null && 0 <= n <= engine.Current().offsets.Length1
      modifies engine
      ensures Valid()
      ensures engine.Published() == old(engine.Current()) && engine.Current() == old(engine.Published())
      ensures Previous() == old(Current()) && Current() == old(Previous())
      ensures Previous()[..] == old(Current()[..]) && Current()[..] == old(Previous()[..])
      ensures delta[..] == old(delta[..])
      ensures var d := engine.Published();
        d.chars != null && d.chars.Length > 0 && d.offsets != null &&
        d.chars[..] == old(d.chars[..]) && Grid(d, n) == old(Grid(d, n))
    {
      engine.Publish();
    }

    /** `parse` up to its closing assertion `n == count`, on the current
        generation: the spans of the first `ap + 1` lines. */
    method Lay(l: ProcFS.Loaded) returns (ok: bool, n: int)
      requires Valid()
      requires var d := engine.Current();
        d.chars != null && l.len == d.chars.Length && l.len > 0 &&
        l.hasLastLineBreak == (d.chars[l.len - 1] == NEWLINE) && l.count == LineCount(d.chars[..]) &&
        d.offsets != null && d.offsets.Length1 == l.count
      modifies engine.Current().offsets, engine.Current().lengths
      ensures Valid() && ProcFS.Counted(engine.Current()) && engine.ix == old(engine.ix)
      ensures Current()[..] == old(Current()[..]) && Previous()[..] == old(Previous()[..]) &&
        delta[..] == old(delta[..])
      ensures ok ==> (var d := engine.Current();
        d.chars != null && d.offsets != null &&
        n == Cpu.Clamp(LineCount(d.chars[..]), ap) && n <= d.offsets.Length1)
    {
      var d := engine.Current();
      ok, n := Cpu.Parse(d, l.len, l.count, l.hasLastLineBreak, ap, true);
    }

    /** `textToStats(d, n)` with its closing `delta(st)`: the slots of
        `stats[ix]` from the first `n` lines against `stats[1 - ix]`, and the
        rates into `delta` unless a field throws. */
    method Derive(n: int, now: int, ghost text: seq<char16>, ghost grid: seq<seq<ProcFS.Span>>)
      returns (f: Option<Failure>)
      requires Valid() && ProcFS.Counted(engine.Current()) && IsLong(now)
      requires var d := engine.Current();
        d.chars != null && d.offsets != null && 0 <= n <= d.offsets.Length1 && n <= ap + 1 &&
        text == d.chars[..] && grid == Grid(d, n)
      modifies Current(), delta
      ensures Valid() && ProcFS.Counted(engine.Current()) && engine.ix == old(engine.ix)
      ensures var o := StatsOf(text, grid, old(Current()[..]), Previous()[..], now);
        Current()[..] == o.value && f == o.failure
      ensures f.None? ==> delta[..] == Deltas(Current()[..], Previous()[..], now)
      ensures f.Some? ==> delta[..] == old(delta[..])
      ensures Previous()[..] == old(Previous()[..])
      ensures engine.Current().chars[..] == text && Grid(engine.Current(), n) == grid
    {
      var d := engine.Current();
      var st, prev := Current(), Previous();
      ghost var before := st[..];
      f := TextToStats(d, text, n, grid, st, prev, delta, now);
      assert unchanged(engine, engine.data0, engine.data1, d.chars, d.offsets, d.lengths, prev);
      StatsOfFit(text, grid, before, prev[..], now);
      if f.None? {
        DeltasFit(st[..], prev[..], now);
      }
      assert AllFit(st[..]) && AllFit(prev[..]) && AllFit(delta[..]);
    }
  }

  /** `new ProcFS(COLUMNS)`: the engine of eight span columns. */
  method NewEngine() returns (e: ProcFS.Engine)
    ensures fresh(e) && e.Valid() && e.data0.columns == Cpu.COLUMNS && e.ix == 0
  {
    e := new ProcFS.Engine(Cpu.COLUMNS);
  }

  /** `new Stats[n]` with `a[i] = new Stats()` for every slot. */
  method NewSlots(n: nat) returns (a: array<Stats>)
    ensures fresh(a) && a.Length == n
    ensures forall k :: 0 <= k < n ==> a[k] == Zero
  {
    a := new Stats[n];
    var i := 0;
    while i < n
      invariant 0 <= i <= n
      invariant forall k :: 0 <= k < i ==> a[k] == Zero
    {
      a[i] := Zero;
      i := i + 1;
    }
  }

  /** Every cell inside `columns()` by `rows()` can be shown. */
  lemma CellsShown(t: Table, c: int, r: int)
    requires t.Valid() && t.measuring == 0 && 0 <= c < t.Columns() && 0 <= r < ROWS
    ensures t.GetText(c, r).Ok?
  {
  }
}
