/**
 The eclipse phase detector: from a time grid and the Sun–Moon angular
 separation at each of its instants (degrees, index-aligned), find the
 instant of maximum eclipse and the first and last contact instants.
 The detector never looks inside an instant, so the time type is generic.
 */
module PhaseDetector {
  import opened Wrappers
  import opened Sequences

  /** Constant apparent angular radius of the Sun, in degrees. */
  const SunRadius: real := 0.2666
  /** Constant apparent angular radius of the Moon, in degrees. */
  const MoonRadius: real := 0.2666
  /** The disks touch when the separation is at most the sum of the radii. */
  const ContactRadius: real := SunRadius + MoonRadius

  /** The smallest separation and the instant at which it occurs. */
  datatype MaximumEclipse<T> = MaximumEclipse(time: T, separation: real)

  /** The detector's result; an absent contact means no eclipse is seen. */
  datatype EclipsePhases<T> = EclipsePhases(
    firstContact: Option<T>,
    maximum: MaximumEclipse<T>,
    lastContact: Option<T>)

  /**
   Why the detector could not produce phases: the argmin of an empty series
   is undefined, and an index of the series may lie beyond the time sequence.
   */
  datatype PhaseError = EmptySeparation | IndexOutOfRange

  /** `k` is the lowest index at which `s` takes its minimum value. */
  ghost predicate IsFirstMin(s: seq<real>, k: int)
  {
    && 0 <= k < |s|
    && (forall j :: 0 <= j < |s| ==> s[k] <= s[j])
    && (forall j :: 0 <= j < k ==> s[k] < s[j])
  }

  /** At most one index is the first minimum of a series. */
  lemma FirstMinUnique(s: seq<real>, k1: int, k2: int)
    requires IsFirstMin(s, k1) && IsFirstMin(s, k2)
    ensures k1 == k2
  {
    assert s[k1] == s[k2];
  }

  /**
   `np.argmin`: a left-to-right scan that moves to a new index only on a
   strictly smaller value, so ties resolve to the first occurrence.
   */
  function ArgMin(s: seq<real>): (k: nat)
    requires |s| > 0
    ensures IsFirstMin(s, k)
  {
    if |s| == 1 then 0
    else
      var k' := ArgMin(s[..|s| - 1]);
      if s[|s| - 1] < s[k'] then |s| - 1 else k'
  }

  /**
   `np.where(s <= limit)[0]`: the indices whose separation is at most `limit`,
   all of them and nothing else, in ascending order.
   */
  function ContactIndices(s: seq<real>, limit: real): (r: seq<nat>)
    ensures Ascending(r)
    ensures forall j :: 0 <= j < |r| ==> r[j] < |s|
    ensures forall i :: i in r <==> 0 <= i < |s| && s[i] <= limit
  {
    if |s| == 0 then []
    else
      var p := ContactIndices(s[..|s| - 1], limit);
      if s[|s| - 1] <= limit then p + [|s| - 1] else p
  }

  /**
   `find_eclipse_phases`: the maximum eclipse is at the first minimum of the
   series; first and last contact are the instants of the smallest and the
   largest index within the contact radius, both absent when there is none.
   */
  function FindEclipsePhases<T>(times: seq<T>, sep: seq<real>): (r: Result<EclipsePhases<T>, PhaseError>)
    ensures |sep| == 0 <==> r == Failure(EmptySeparation)
    ensures |sep| <= |times| ==> (r.Success? <==> |sep| > 0)
    ensures r.Success? ==> (r.value.firstContact.Some? <==> r.value.lastContact.Some?)
    ensures r.Success? ==> forall i :: 0 <= i < |sep| ==> r.value.maximum.separation <= sep[i]
    ensures r.Success? ==> r.value.maximum.separation in sep
  {
    if |sep| == 0 then Failure(EmptySeparation)
    else
      var m := ArgMin(sep);
      if m >= |times| then Failure(IndexOutOfRange)
      else
        var maximum := MaximumEclipse(times[m], sep[m]);
        var contacts := ContactIndices(sep, ContactRadius);
        if |contacts| > 0 then
          var first, last := contacts[0], contacts[|contacts| - 1];
          if first >= |times| || last >= |times| then Failure(IndexOutOfRange)
          else Success(EclipsePhases(Some(times[first]), maximum, Some(times[last])))
        else
          Success(EclipsePhases(None, maximum, None))
  }

  /** The reported maximum is the series' value and instant at its first minimum. */
  lemma MaximumIsFirstMinimum<T>(times: seq<T>, sep: seq<real>, k: int)
    requires FindEclipsePhases(times, sep).Success?
    requires IsFirstMin(sep, k)
    ensures k < |times|
    ensures FindEclipsePhases(times, sep).value.maximum == MaximumEclipse(times[k], sep[k])
  {
  }

  /** First contact is the instant of the lowest index within the contact radius. */
  lemma FirstContactIsEarliest<T>(times: seq<T>, sep: seq<real>, i: int)
    requires FindEclipsePhases(times, sep).Success?
    requires 0 <= i < |sep| && sep[i] <= ContactRadius
    requires forall j :: 0 <= j < i ==> sep[j] > ContactRadius
    ensures i < |times|
    ensures FindEclipsePhases(times, sep).value.firstContact == Some(times[i])
  {
    var contacts := ContactIndices(sep, ContactRadius);
    assert i in contacts;
    AscendingBounds(contacts, i);
    assert contacts[0] in contacts;
  }

  /** Last contact is the instant of the highest index within the contact radius. */
  lemma LastContactIsLatest<T>(times: seq<T>, sep: seq<real>, i: int)
    requires FindEclipsePhases(times, sep).Success?
    requires 0 <= i < |sep| && sep[i] <= ContactRadius
    requires forall j :: i < j < |sep| ==> sep[j] > ContactRadius
    ensures i < |times|
    ensures FindEclipsePhases(times, sep).value.lastContact == Some(times[i])
  {
    var contacts := ContactIndices(sep, ContactRadius);
    assert i in contacts;
    AscendingBounds(contacts, i);
    assert contacts[|contacts| - 1] in contacts;
  }

  /** Both contacts are absent exactly when no separation reaches the contact radius. */
  lemma NoContactIffAllOutside<T>(times: seq<T>, sep: seq<real>)
    requires FindEclipsePhases(times, sep).Success?
    ensures FindEclipsePhases(times, sep).value.firstContact.None?
        <==> forall i :: 0 <= i < |sep| ==> sep[i] > ContactRadius
  {
    var contacts := ContactIndices(sep, ContactRadius);
    if |contacts| > 0 {
      assert contacts[0] in contacts;
    }
  }

  /** Contacts are reported exactly when the minimum separation is within the contact radius. */
  lemma ContactIffMinimumWithin<T>(times: seq<T>, sep: seq<real>)
    requires FindEclipsePhases(times, sep).Success?
    ensures FindEclipsePhases(times, sep).value.firstContact.Some?
        <==> FindEclipsePhases(times, sep).value.maximum.separation <= ContactRadius
  {
    var m := ArgMin(sep);
    var contacts := ContactIndices(sep, ContactRadius);
    if |contacts| > 0 {
      assert contacts[0] in contacts;
    } else {
      assert m !in contacts;
    }
  }

  /**
   Whenever a contact exists, the maximum lies between first and last contact:
   the first minimum is itself within the contact radius. With an ascending
   time sequence this orders the reported instants.
   */
  lemma ContactsBracketMaximum(times: seq<int>, sep: seq<real>)
    requires FindEclipsePhases(times, sep).Success?
    requires FindEclipsePhases(times, sep).value.firstContact.Some?
    requires Ascending(times)
    ensures var p := FindEclipsePhases(times, sep).value;
      p.firstContact.value <= p.maximum.time <= p.lastContact.value
  {
    var m := ArgMin(sep);
    var contacts := ContactIndices(sep, ContactRadius);
    assert contacts[0] in contacts;
    assert m in contacts;
    AscendingBounds(contacts, m);
    var first, last := contacts[0], contacts[|contacts| - 1];
    assert times[first] <= times[m] by {
      if first < m { assert times[first] < times[m]; }
    }
    assert times[m] <= times[last] by {
      if m < last { assert times[m] < times[last]; }
    }
  }

  /**
   With an ascending time sequence, every instant before first contact or
   after last contact has a separation outside the contact radius.
   */
  lemma ContactsBoundSeries(times: seq<int>, sep: seq<real>)
    requires FindEclipsePhases(times, sep).Success?
    requires FindEclipsePhases(times, sep).value.firstContact.Some?
    requires Ascending(times)
    ensures var p := FindEclipsePhases(times, sep).value;
      forall i :: 0 <= i < |sep| && i < |times| && (times[i] < p.firstContact.value || p.lastContact.value < times[i])
        ==> sep[i] > ContactRadius
  {
  }
}
