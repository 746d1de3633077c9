/**
 The eclipse calculation behind the service's route: build a time grid,
 take the Sun–Moon separation at every instant, and run the phase detector
 over the two. The ephemeris observation is a parameter: `observe` maps an
 instant to the topocentric Sun–Moon separation in degrees for the requested
 location.

 The lemmas about `Calculate` hold for any strictly increasing grid. They
 apply both to the hourly grid the service builds (`CalculateEclipse`) and
 to the evidently intended per-minute grid (`CalculateEclipseByMinute`).
 */
module EclipseService {
  import opened Wrappers
  import opened Sequences
  import opened TimeGrid
  import opened PhaseDetector

  /** What a successful request carries: the phases and the full separation series. */
  datatype Response = Response(phases: EclipsePhases<int>, separation: seq<real>)

  /** The separation observed at every grid instant, index-aligned with the grid. */
  function ObserveGrid(times: seq<int>, observe: int -> real): (s: seq<real>)
    ensures |s| == |times|
    ensures forall i :: 0 <= i < |times| ==> s[i] == observe(times[i])
  {
    seq(|times|, i requires 0 <= i < |times| => observe(times[i]))
  }

  /**
   Observe every grid instant, then detect the phases of that series over
   that grid. Only an empty grid fails; the returned series is the observed
   one, and the phases are the detector's output for exactly that series.
   */
  function Calculate(times: seq<int>, observe: int -> real): (r: Result<Response, PhaseError>)
    ensures |times| == 0 <==> r == Failure(EmptySeparation)
    ensures |times| > 0 ==> r.Success?
    ensures r.Success? ==>
      && r.value.separation == ObserveGrid(times, observe)
      && FindEclipsePhases(times, r.value.separation) == Success(r.value.phases)
  {
    var separation := ObserveGrid(times, observe);
    if |times| == 0 then Failure(EmptySeparation)
    else Success(Response(FindEclipsePhases(times, separation).value, separation))
  }

  /**
   The maximum eclipse is a grid instant, its separation is the one observed
   there, no grid instant is closer, and every earlier grid instant is
   strictly farther.
   */
  lemma MaximumIsEarliestClosestInstant(times: seq<int>, observe: int -> real)
    requires |times| > 0 && Ascending(times)
    ensures Calculate(times, observe).Success?
    ensures var m := Calculate(times, observe).value.phases.maximum;
      && m.time in times
      && m.separation == observe(m.time)
      && (forall i :: 0 <= i < |times| ==> m.separation <= observe(times[i]))
      && (forall i :: 0 <= i < |times| && times[i] < m.time ==> m.separation < observe(times[i]))
  {
    var sep := Calculate(times, observe).value.separation;
    var k := ArgMin(sep);
    MaximumIsFirstMinimum(times, sep, k);
    var m := Calculate(times, observe).value.phases.maximum;
    assert m.time == times[k];
    forall i | k <= i < |times|
      ensures m.time <= times[i]
    {
      if k < i {
        assert times[k] < times[i];
      }
    }
  }

  /**
   When the separation at some grid instant `times[k]` is within the contact
   radius, contacts are reported: first contact, maximum and last contact are
   grid instants in that order, and both contacts are within the radius.
   */
  lemma ContactsOrderedOnGrid(times: seq<int>, observe: int -> real, k: int)
    requires Ascending(times)
    requires 0 <= k < |times| && observe(times[k]) <= ContactRadius
    ensures Calculate(times, observe).Success?
    ensures Calculate(times, observe).value.phases.firstContact.Some?
    ensures var p := Calculate(times, observe).value.phases;
      && p.lastContact.Some?
      && p.firstContact.value in times && p.lastContact.value in times
      && p.firstContact.value <= p.maximum.time <= p.lastContact.value
      && observe(p.firstContact.value) <= ContactRadius
      && observe(p.lastContact.value) <= ContactRadius
  {
    var sep := Calculate(times, observe).value.separation;
    assert sep[k] == observe(times[k]);
    NoContactIffAllOutside(times, sep);
    ContactsBracketMaximum(times, sep);
    var contacts := ContactIndices(sep, ContactRadius);
    assert contacts[0] in contacts;
    assert contacts[|contacts| - 1] in contacts;
  }

  /**
   When the separation at some grid instant is within the contact radius,
   every grid instant before first contact or after last contact is outside
   it: the contacts bound the whole eclipse as the grid sees it.
   */
  lemma ContactsBoundEclipseOnGrid(times: seq<int>, observe: int -> real, k: int)
    requires Ascending(times)
    requires 0 <= k < |times| && observe(times[k]) <= ContactRadius
    ensures Calculate(times, observe).Success?
    ensures var p := Calculate(times, observe).value.phases;
      && p.firstContact.Some? && p.lastContact.Some?
      && (forall i :: 0 <= i < |times| && (times[i] < p.firstContact.value || p.lastContact.value < times[i])
            ==> observe(times[i]) > ContactRadius)
  {
    var sep := Calculate(times, observe).value.separation;
    ContactsOrderedOnGrid(times, observe, k);
    ContactsBoundSeries(times, sep);
    var p := Calculate(times, observe).value.phases;
    forall i | 0 <= i < |times| && (times[i] < p.firstContact.value || p.lastContact.value < times[i])
      ensures observe(times[i]) > ContactRadius
    {
      assert sep[i] == observe(times[i]);
    }
  }

  /** No contact is reported exactly when every grid instant is outside the contact radius. */
  lemma NoEclipseIffAllInstantsOutside(times: seq<int>, observe: int -> real)
    requires |times| > 0
    ensures Calculate(times, observe).Success?
    ensures Calculate(times, observe).value.phases.firstContact.None?
        <==> forall i :: 0 <= i < |times| ==> observe(times[i]) > ContactRadius
  {
    var sep := Calculate(times, observe).value.separation;
    NoContactIffAllOutside(times, sep);
    assert forall i :: 0 <= i < |times| ==> sep[i] == observe(times[i]);
  }

  /**
   The calculation as the service performs it, over the hourly grid: it
   succeeds with one separation per grid instant.
   */
  function CalculateEclipse(dayStart: int, observe: int -> real): (r: Result<Response, PhaseError>)
    ensures r.Success?
    ensures |r.value.separation| == GridLength
  {
    Calculate(HourlyGrid(dayStart), observe)
  }

  /** Entry i of the service's series is the separation observed i hours after midnight. */
  lemma HourlySeriesAligned(dayStart: int, observe: int -> real)
    ensures forall i :: 0 <= i < GridLength ==>
      CalculateEclipse(dayStart, observe).value.separation[i] == observe(dayStart + 60 * i)
  {
    var times := HourlyGrid(dayStart);
    var sep := CalculateEclipse(dayStart, observe).value.separation;
    forall i | 0 <= i < GridLength
      ensures sep[i] == observe(dayStart + 60 * i)
    {
      assert sep[i] == observe(times[i]);
      assert times[i] == dayStart + 60 * i;
    }
  }

  /**
   The calculation over the evidently intended per-minute grid: it succeeds
   with one separation per minute of the day.
   */
  function CalculateEclipseByMinute(dayStart: int, observe: int -> real): (r: Result<Response, PhaseError>)
    ensures r.Success?
    ensures |r.value.separation| == MinutesPerDay
  {
    Calculate(MinuteGrid(dayStart), observe)
  }

  /** Entry i of the per-minute series is the separation observed i minutes after midnight. */
  lemma MinuteSeriesAligned(dayStart: int, observe: int -> real)
    ensures forall i :: 0 <= i < MinutesPerDay ==>
      CalculateEclipseByMinute(dayStart, observe).value.separation[i] == observe(dayStart + i)
  {
    var times := MinuteGrid(dayStart);
    var sep := CalculateEclipseByMinute(dayStart, observe).value.separation;
    forall i | 0 <= i < MinutesPerDay
      ensures sep[i] == observe(dayStart + i)
    {
      assert sep[i] == observe(times[i]);
      assert times[i] == dayStart + i;
    }
  }

  /**
   Over the per-minute grid the maximum eclipse is a minute of the requested
   day, its separation is the one observed then, and no minute of the day is
   closer.
   */
  lemma MinuteMaximumWithinDay(dayStart: int, observe: int -> real)
    ensures var m := CalculateEclipseByMinute(dayStart, observe).value.phases.maximum;
      && dayStart <= m.time < dayStart + MinutesPerDay
      && m.separation == observe(m.time)
      && (forall t :: dayStart <= t < dayStart + MinutesPerDay ==> m.separation <= observe(t))
  {
    var times := MinuteGrid(dayStart);
    assert CalculateEclipseByMinute(dayStart, observe) == Calculate(times, observe);
    GridCoversDay(dayStart);
    MaximumIsEarliestClosestInstant(times, observe);
    var m := Calculate(times, observe).value.phases.maximum;
    forall t | dayStart <= t < dayStart + MinutesPerDay
      ensures m.separation <= observe(t)
    {
      assert times[t - dayStart] == t;
    }
  }

  /**
   Over the per-minute grid, when the separation at some minute `t0` of the
   requested day is within the contact radius, both contacts are reported and
   midnight <= first contact <= maximum <= last contact < next midnight.
   */
  lemma MinuteContactsWithinDay(dayStart: int, observe: int -> real, t0: int)
    requires dayStart <= t0 < dayStart + MinutesPerDay && observe(t0) <= ContactRadius
    ensures var p := CalculateEclipseByMinute(dayStart, observe).value.phases;
      && p.firstContact.Some? && p.lastContact.Some?
      && dayStart <= p.firstContact.value <= p.maximum.time
      && p.maximum.time <= p.lastContact.value < dayStart + MinutesPerDay
  {
    var times := MinuteGrid(dayStart);
    assert CalculateEclipseByMinute(dayStart, observe) == Calculate(times, observe);
    GridCoversDay(dayStart);
    assert times[t0 - dayStart] == t0;
    ContactsOrderedOnGrid(times, observe, t0 - dayStart);
  }

  /**
   A separation series in which the disks touch at the single instant `at`
   and are one degree apart at every other instant.
   */
  function TouchOnlyAt(at: int): (observe: int -> real)
    ensures observe(at) <= ContactRadius
    ensures forall t :: t != at ==> observe(t) > ContactRadius
  {
    (t: int) => if t == at then 0.0 else 1.0
  }

  /** As the service computes it, a contact only at 00:30 of the requested day is not seen. */
  lemma HourlyGridMissesHalfHour(dayStart: int)
    ensures CalculateEclipse(dayStart, TouchOnlyAt(dayStart + 30)).value.phases.firstContact.None?
  {
    var observe := TouchOnlyAt(dayStart + 30);
    NoEclipseIffAllHoursOutside(dayStart, observe);
    forall i | 0 <= i < GridLength
      ensures observe(dayStart + 60 * i) > ContactRadius
    {
      assert i == 0 || 60 * i >= 60;
    }
  }

  /** Over the per-minute grid, a contact only at 00:30 is reported as first contact. */
  lemma MinuteGridCatchesHalfHour(dayStart: int)
    ensures CalculateEclipseByMinute(dayStart, TouchOnlyAt(dayStart + 30)).value.phases.firstContact
        == Some(dayStart + 30)
  {
    var observe := TouchOnlyAt(dayStart + 30);
    var minutes := MinuteGrid(dayStart);
    var sep := CalculateEclipseByMinute(dayStart, observe).value.separation;
    assert sep[30] == observe(dayStart + 30);
    forall j | 0 <= j < 30
      ensures sep[j] > ContactRadius
    {
      assert sep[j] == observe(dayStart + j);
    }
    FirstContactIsEarliest(minutes, sep, 30);
  }

  /**
   The hourly grid misses an eclipse that the per-minute grid catches: when
   the disks touch only at 00:30, the service reports no contact, while the
   per-minute calculation reports first contact at 00:30.
   */
  lemma HourlyGridMissesHalfHourContact(dayStart: int)
    ensures CalculateEclipse(dayStart, TouchOnlyAt(dayStart + 30)).value.phases.firstContact.None?
    ensures CalculateEclipseByMinute(dayStart, TouchOnlyAt(dayStart + 30)).value.phases.firstContact
        == Some(dayStart + 30)
  {
    HourlyGridMissesHalfHour(dayStart);
    MinuteGridCatchesHalfHour(dayStart);
  }

  /**
   The hourly grid reports instants outside the requested day: when the disks
   touch only at 05:00 twenty days later, the service reports that instant as
   first contact.
   */
  lemma HourlyGridReportsLaterDay(dayStart: int)
    ensures var at := dayStart + 20 * MinutesPerDay + 5 * 60;
      && at >= dayStart + MinutesPerDay
      && CalculateEclipse(dayStart, TouchOnlyAt(at)).value.phases.firstContact == Some(at)
  {
    var at := dayStart + 20 * MinutesPerDay + 5 * 60;
    var observe := TouchOnlyAt(at);
    var hourly := HourlyGrid(dayStart);
    var sep := CalculateEclipse(dayStart, observe).value.separation;
    var k := 20 * HoursPerDay + 5;
    assert hourly[k] == at;
    assert sep[k] == observe(at);
    forall j | 0 <= j < k
      ensures sep[j] > ContactRadius
    {
      assert sep[j] == observe(dayStart + 60 * j);
    }
    FirstContactIsEarliest(hourly, sep, k);
  }

  /**
   As the service computes it, no contact is reported exactly when the
   separation at every whole hour of the sixty days the hourly grid spans
   exceeds the contact radius.
   */
  lemma NoEclipseIffAllHoursOutside(dayStart: int, observe: int -> real)
    ensures CalculateEclipse(dayStart, observe).value.phases.firstContact.None?
        <==> forall i :: 0 <= i < GridLength ==> observe(dayStart + 60 * i) > ContactRadius
  {
    var times := HourlyGrid(dayStart);
    assert CalculateEclipse(dayStart, observe) == Calculate(times, observe);
    NoEclipseIffAllInstantsOutside(times, observe);
    if forall i :: 0 <= i < |times| ==> observe(times[i]) > ContactRadius {
      HoursOutsideFromInstants(dayStart, observe);
    }
    if forall i :: 0 <= i < GridLength ==> observe(dayStart + 60 * i) > ContactRadius {
      InstantsOutsideFromHours(dayStart, observe);
    }
  }

  lemma HoursOutsideFromInstants(dayStart: int, observe: int -> real)
    requires forall i :: 0 <= i < |HourlyGrid(dayStart)| ==> observe(HourlyGrid(dayStart)[i]) > ContactRadius
    ensures forall i :: 0 <= i < GridLength ==> observe(dayStart + 60 * i) > ContactRadius
  {
    var times := HourlyGrid(dayStart);
    forall i | 0 <= i < GridLength
      ensures observe(dayStart + 60 * i) > ContactRadius
    {
      assert times[i] == dayStart + 60 * i;
    }
  }

  lemma InstantsOutsideFromHours(dayStart: int, observe: int -> real)
    requires forall i :: 0 <= i < GridLength ==> observe(dayStart + 60 * i) > ContactRadius
    ensures forall i :: 0 <= i < |HourlyGrid(dayStart)| ==> observe(HourlyGrid(dayStart)[i]) > ContactRadius
  {
    var times := HourlyGrid(dayStart);
    forall i | 0 <= i < |times|
      ensures observe(times[i]) > ContactRadius
    {
      assert times[i] == dayStart + 60 * i;
    }
  }

  /**
   Over the per-minute grid, no contact is reported exactly when the
   separation at every minute of the day exceeds the contact radius.
   */
  lemma NoEclipseIffAllMinutesOutside(dayStart: int, observe: int -> real)
    ensures CalculateEclipseByMinute(dayStart, observe).value.phases.firstContact.None?
        <==> forall t :: dayStart <= t < dayStart + MinutesPerDay ==> observe(t) > ContactRadius
  {
    var times := MinuteGrid(dayStart);
    var none := CalculateEclipseByMinute(dayStart, observe).value.phases.firstContact.None?;
    assert none <==> forall i :: 0 <= i < |times| ==> observe(times[i]) > ContactRadius by {
      NoEclipseIffAllInstantsOutside(times, observe);
    }
    if forall i :: 0 <= i < |times| ==> observe(times[i]) > ContactRadius {
      forall t | dayStart <= t < dayStart + MinutesPerDay
        ensures observe(t) > ContactRadius
      {
        assert times[t - dayStart] == t;
      }
    }
  }
}
