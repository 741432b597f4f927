/**
 * The helpers of `util` that the table code relies on: human-readable
 * durations, the Android measure-spec rule, char-by-char comparison of two
 * char sequences, and the `timestamp` stopwatch that pairs calls by label.
 */
module Util {
  import opened JavaLang

  /** The unit `humanReadableSuffix` names; each knows how many nanoseconds it holds. */
  datatype TimeUnit = Nanoseconds | Microseconds | Milliseconds | Seconds
  {
    function NanosPer(): (n: nat)
      ensures n >= 1
    {
      match this
      case Nanoseconds => 1
      case Microseconds => 1000
      case Milliseconds => 1000 * 1000
      case Seconds => 1000 * 1000 * 1000
    }

    function Suffix(): string
    {
      match this
      case Nanoseconds => " nanoseconds"
      case Microseconds => " microseconds"
      case Milliseconds => " milliseconds"
      case Seconds => " seconds"
    }
  }

  /** The unit a duration is shown in: the coarsest one in which it still
      counts at least ten. */
  function UnitFor(delta: int): (u: TimeUnit)
    ensures u != Nanoseconds ==> delta >= 10 * u.NanosPer()
    ensures u != Seconds ==> delta < 10 * 1000 * u.NanosPer()
  {
    if delta >= 10 * Seconds.NanosPer() then Seconds
    else if delta >= 10 * Milliseconds.NanosPer() then Milliseconds
    else if delta >= 10 * Microseconds.NanosPer() then Microseconds
    else Nanoseconds
  }

  /** `humanReadableSuffix(delta)`: the name of the unit the duration is shown in. */
  function HumanReadableSuffix(delta: int): (s: string)
    ensures s == UnitFor(delta).Suffix()
  {
    if delta < 10 * 1000 then " nanoseconds"
    else if delta < 10 * 1000 * 1000 then " microseconds"
    else if delta < 10 * 1000 * 1000 * 1000 then " milliseconds"
    else " seconds"
  }

  /** `humanReadable(delta)`: the duration counted in the unit of its suffix,
      rounded down. */
  function HumanReadable(delta: int): (r: int)
    ensures delta < 10 * 1000 ==> r == delta
    ensures delta >= 0 ==>
      r * UnitFor(delta).NanosPer() <= delta < (r + 1) * UnitFor(delta).NanosPer()
  {
    if delta < 10 * 1000 then delta
    else if delta < 10 * 1000 * 1000 then delta / 1000
    else if delta < 10 * 1000 * 1000 * 1000 then delta / (1000 * 1000)
    else delta / (1000 * 1000 * 1000)
  }

  /** Below ten seconds a duration of at least ten microseconds is shown with
      two to four digits. */
  lemma HumanReadableDigits(delta: int)
    requires 10 * 1000 <= delta < 10 * 1000 * 1000 * 1000
    ensures 10 <= HumanReadable(delta) <= 9999
  {
    var u := UnitFor(delta);
    var r := HumanReadable(delta);
    assert u == Microseconds || u == Milliseconds;
    assert 10 * u.NanosPer() <= delta < 10 * 1000 * u.NanosPer();
    assert r * u.NanosPer() <= delta < (r + 1) * u.NanosPer();
    FactorLess(10, r + 1, u.NanosPer());
    FactorLess(r, 10 * 1000, u.NanosPer());
  }

  /** Products with the same positive factor compare like the other factors. */
  lemma FactorLess(a: int, b: int, k: int)
    requires k > 0 && a * k < b * k
    ensures a < b
  {
  }

  // Android's View.MeasureSpec modes: 0 << 30, 1 << 30 and 2 << 30 as a Java int.
  const UNSPECIFIED: int := 0
  const EXACTLY: int := 0x4000_0000
  const AT_MOST: int := -0x8000_0000

  /** `measure(mode, size, preferred)`: the size a view takes under a parent's
      measure spec. */
  function Measure(mode: int, size: int, preferred: int): (r: int)
    ensures r == size || r == preferred
    ensures mode == EXACTLY ==> r == size
    ensures mode == AT_MOST ==> r <= size && r <= preferred
    ensures mode != EXACTLY ==> r <= preferred
    ensures mode != EXACTLY && mode != AT_MOST ==> r == preferred
  {
    if mode == EXACTLY then size
    else if mode == AT_MOST then (if preferred < size then preferred else size)
    else preferred
  }

  /**
   * `equals(ca1, ca2)` for two non-null sequences of the same length: compares
   * char by char and stops at the first difference.
   */
  method Equals(ca1: seq<char16>, ca2: seq<char16>) returns (b: bool)
    requires |ca1| == |ca2|
    ensures b <==> ca1 == ca2
    ensures !b ==> exists i :: 0 <= i < |ca1| && ca1[i] != ca2[i]
  {
    var n := |ca1|;
    for i := 0 to n
      invariant ca1[..i] == ca2[..i]
    {
      if ca1[i] != ca2[i] {
        return false;
      }
      assert ca1[..i + 1] == ca1[..i] + [ca1[i]];
      assert ca2[..i + 1] == ca2[..i] + [ca2[i]];
    }
    assert ca1[..n] == ca1 && ca2[..n] == ca2;
    return true;
  }

  /** What one `timestamp(label)` call at clock reading `now` does to the
      table of started labels, and the value it returns. */
  datatype Lap = Lap(start: map<string, int>, delta: int)

  function TimestampStep(start: map<string, int>, name: string, now: int): (l: Lap)
    requires IsLong(now) && forall k :: k in start ==> IsLong(start[k])
    ensures name !in start ==> l.delta == 0 && l.start.Keys == start.Keys + {name}
    ensures name in start ==> l.delta >= 1 && l.start.Keys == start.Keys - {name}
    ensures forall k :: k in l.start ==> IsLong(l.start[k])
    ensures forall k :: k in start && k != name ==> k in l.start && l.start[k] == start[k]
  {
    if name !in start then Lap(start[name := now], 0)
    else
      var delta := Wrap64(now - start[name]);
      Lap(start - {name}, if delta < 1 then 1 else delta)
  }

  /** The second call for a label returns the time since the first (at least
      one nanosecond) and leaves the table as it was before the first. */
  lemma TimestampPairs(start: map<string, int>, name: string, t0: int, t1: int)
    requires IsLong(t0) && IsLong(t1) && forall k :: k in start ==> IsLong(start[k])
    requires name !in start
    ensures var first := TimestampStep(start, name, t0);
      var second := TimestampStep(first.start, name, t1);
      first.delta == 0 && second.start == start &&
      (t0 <= t1 && IsLong(t1 - t0) ==> second.delta == (if t1 - t0 < 1 then 1 else t1 - t0))
  {
    var first := TimestampStep(start, name, t0);
    assert first.start[name] == t0;
    var second := TimestampStep(first.start, name, t1);
    assert second.start == start by {
      assert second.start.Keys == start.Keys;
    }
  }

  /** The labels `timestamp` has started and not yet stopped, with their
      clock readings. */
  class Stopwatch {
    var start: map<string, int>

    ghost predicate Valid()
      reads this
    {
      forall k :: k in start ==> IsLong(start[k])
    }

    constructor()
      ensures Valid() && start == map[]
    {
      start := map[];
    }

    /** `timestamp(label)` with the clock reading `now` passed in. */
    method Timestamp(name: string, now: int) returns (delta: int)
      requires Valid() && IsLong(now)
      modifies this
      ensures Valid()
      ensures Lap(start, delta) == TimestampStep(old(start), name, now)
    {
      if name !in start {
        start := start[name := now];
        return 0;
      }
      var s := start[name];
      start := start - {name};
      delta := Wrap64(now - s);
      delta := if delta < 1 then 1 else delta;
    }
  }
}
