/**
 The time grids the eclipse service scans. An instant is an integer count of
 minutes since a fixed epoch; `dayStart` is the instant of the requested
 date's midnight (UTC).

 The service passes the offsets `range(0, 24*60, 1)` as the HOUR argument of
 the timescale's `utc(year, month, day, hour)`, so the grid it builds is
 hourly and spans sixty days (`HourlyGrid`). The per-minute grid of the
 requested day (`MinuteGrid`) is the one evidently intended.
 */
module TimeGrid {
  import opened Sequences

  const HoursPerDay: int := 24
  /** Minutes in one UTC day. */
  const MinutesPerDay: int := HoursPerDay * 60
  /** Number of grid entries: the length of `range(0, 24*60, 1)`. */
  const GridLength: int := 24 * 60

  /**
   Python's `range(lo, hi, 1)`: the integers from `lo` up to but excluding
   `hi`, in increasing order, each exactly once; empty when `hi <= lo`.
   */
  function Range(lo: int, hi: int): (r: seq<int>)
    ensures |r| == if lo <= hi then hi - lo else 0
    ensures forall i :: 0 <= i < |r| ==> r[i] == lo + i
    ensures Ascending(r)
    ensures forall x :: x in r <==> lo <= x < hi
  {
    var r := seq(if lo <= hi then hi - lo else 0, i => lo + i);
    assert forall x | lo <= x < hi :: x in r by {
      forall x | lo <= x < hi ensures x in r {
        assert r[x - lo] == x;
      }
    }
    r
  }

  /** The grid offsets `range(0, 24*60, 1)`. */
  function GridOffsets(): (r: seq<int>)
    ensures |r| == GridLength
    ensures forall i :: 0 <= i < |r| ==> r[i] == i
  {
    Range(0, GridLength)
  }

  /**
   The grid as the service builds it: `ts.utc(year, month, day, offsets)`
   takes each offset as a number of hours after midnight.
   */
  function HourlyGrid(dayStart: int): (g: seq<int>)
    ensures |g| == GridLength
    ensures forall i :: 0 <= i < |g| ==> g[i] == dayStart + 60 * i
  {
    var offsets := GridOffsets();
    seq(|offsets|, i requires 0 <= i < |offsets| => dayStart + 60 * offsets[i])
  }

  /**
   The hourly grid is strictly increasing and holds exactly the whole hours
   from the date's midnight up to 1440 hours later: it leaves the requested
   day at its 25th instant, which is the next midnight.
   */
  lemma HourlyGridSpan(dayStart: int)
    ensures Ascending(HourlyGrid(dayStart))
    ensures HourlyGrid(dayStart)[HoursPerDay] == dayStart + MinutesPerDay
    ensures forall t ::
      t in HourlyGrid(dayStart) <==>
        dayStart <= t < dayStart + 60 * GridLength && (t - dayStart) % 60 == 0
  {
    var g := HourlyGrid(dayStart);
    forall t | dayStart <= t < dayStart + 60 * GridLength && (t - dayStart) % 60 == 0
      ensures t in g
    {
      var i := (t - dayStart) / 60;
      assert g[i] == t;
    }
  }

  /** The evidently intended grid: the i-th instant is i minutes after midnight. */
  function MinuteGrid(dayStart: int): (g: seq<int>)
    ensures |g| == MinutesPerDay
    ensures forall i :: 0 <= i < |g| ==> g[i] == dayStart + i
  {
    var offsets := GridOffsets();
    seq(|offsets|, i requires 0 <= i < |offsets| => dayStart + offsets[i])
  }

  /**
   The minute grid is strictly increasing (no duplicates) and holds exactly
   the minutes from the date's midnight up to, but excluding, the next
   midnight (no gaps, nothing outside the day).
   */
  lemma GridCoversDay(dayStart: int)
    ensures Ascending(MinuteGrid(dayStart))
    ensures forall t :: t in MinuteGrid(dayStart) <==> dayStart <= t < dayStart + MinutesPerDay
  {
    var g := MinuteGrid(dayStart);
    forall t | dayStart <= t < dayStart + MinutesPerDay
      ensures t in g
    {
      assert g[t - dayStart] == t;
    }
  }
}
