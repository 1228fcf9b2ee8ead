/**
  The ISF catalogue data model (magnitudes, locations, origins, events,
  catalogues) and its merge engine: tolerance-checked magnitude comparison,
  per-event assignment of magnitudes to origins, and the three-level merge of
  a secondary catalogue into a primary one.

  Python's objects become immutable values; every mutating method becomes a
  function returning the updated value, and every `raise` an `Err`.
 */
module Catalogue {
  import opened Base
  import opened Text
  import opened Calendar

  // ---------------------------------------------------------------------------
  // Magnitude

  /**
    One magnitude estimate; `originId` and `eventId` are lookup keys, not
    ownership. `magnitudeId` is the identifier the constructor stores
    (see `MakeMagnitude`).
   */
  datatype Magnitude = Magnitude(
    eventId: string,
    originId: string,
    value: real,
    author: string,
    scale: string,
    sigma: Option<real>,
    stations: Option<int>,
    magnitudeId: string)

  /**
    `"{:.2f}".format(v)`: the value rounded to hundredths. Halves are rounded
    upwards here; the binary-float rounding of the original is not modelled.
   */
  function Fixed2(v: real): (r: string)
    ensures '|' !in r
    ensures |r| >= 4 && r[|r| - 3] == '.'
  {
    var n := (v * 100.0 + 0.5).Floor;
    var a: nat := if n < 0 then -n else n;
    var digits := NatToString(a / 100) + "." + [DigitChar(a % 100 / 10), DigitChar(a % 10)];
    assert forall i :: 0 <= i < |NatToString(a / 100)| ==> IsDigit(digits[i]);
    (if n < 0 then "-" else "") + digits
  }

  /** `magnitude_id`: origin id, author, two-decimal value and scale joined by `|`. */
  function MagnitudeId(originId: string, author: string, value: real, scale: string): string
  {
    Join([originId, author, Fixed2(value), scale], "|")
  }

  /** The identifier splits back into its four fields when none of the text fields holds a `|`. */
  lemma MagnitudeIdFields(originId: string, author: string, value: real, scale: string)
    requires '|' !in originId && '|' !in author && '|' !in scale
    ensures Split(MagnitudeId(originId, author, value, scale), '|') == [originId, author, Fixed2(value), scale]
  {
    SplitJoin([originId, author, Fixed2(value), scale], '|');
  }

  /** The stored identifier is the one built from the magnitude's own fields. */
  predicate IdConsistent(m: Magnitude)
  {
    m.magnitudeId == MagnitudeId(m.originId, m.author, m.value, m.scale)
  }

  /** Two magnitudes with different values get different identifiers when their hundredths differ. */
  lemma MagnitudeIdSeparates(a: Magnitude, b: Magnitude)
    requires IdConsistent(a) && IdConsistent(b)
    requires '|' !in a.originId && '|' !in a.author && '|' !in a.scale
    requires '|' !in b.originId && '|' !in b.author && '|' !in b.scale
    requires a.magnitudeId == b.magnitudeId
    ensures a.originId == b.originId && a.author == b.author && a.scale == b.scale
    ensures Fixed2(a.value) == Fixed2(b.value)
  {
    MagnitudeIdFields(a.originId, a.author, a.value, a.scale);
    MagnitudeIdFields(b.originId, b.author, b.value, b.scale);
  }

  /** A magnitude with its identifier computed from its fields, as the constructor stores it. */
  function MakeMagnitude(eventId: string, originId: string, value: real, author: string, scale: string,
                         sigma: Option<real>, stations: Option<int>): (m: Magnitude)
    ensures IdConsistent(m)
    ensures m.eventId == eventId && m.originId == originId && m.value == value && m.author == author
    ensures m.scale == scale && m.sigma == sigma && m.stations == stations
  {
    Magnitude(eventId, originId, value, author, scale, sigma, stations, MagnitudeId(originId, author, value, scale))
  }

  /**
    The `Magnitude` constructor: an empty or missing scale becomes `UK`;
    building the identifier fails on a missing value, as formatting `None`
    with `{:.2f}` raises.
   */
  function NewMagnitude(eventId: string, originId: string, value: Option<real>, author: string,
                        scale: Option<string>, sigma: Option<real>, stations: Option<int>): (r: Result<Magnitude>)
    ensures r.Ok? <==> value.Some?
    ensures r.Ok? ==> r.value.scale != []
    ensures r.Ok? && scale.Some? && scale.value != [] ==> r.value.scale == scale.value
    ensures r.Ok? && (scale.None? || scale.value == []) ==> r.value.scale == "UK"
    ensures r.Ok? ==> r.value.eventId == eventId && r.value.originId == originId && r.value.value == value.value
    ensures r.Ok? ==> r.value.author == author && r.value.sigma == sigma && r.value.stations == stations
    ensures r.Ok? ==> IdConsistent(r.value)
  {
    var s := if scale.Some? && scale.value != [] then scale.value else "UK";
    if value.None? then Err(ValueError("Unknown format code 'f' for None"))
    else Ok(MakeMagnitude(eventId, originId, value.value, author, s, sigma, stations))
  }

  /** Same origin, author and scale: the key `compare_magnitude` matches on. */
  predicate SameKey(a: Magnitude, b: Magnitude)
  {
    a.originId == b.originId && a.author == b.author && a.scale == b.scale
  }

  /** Same key but values more than 0.001 apart: the data-integrity error. */
  predicate Conflicts(a: Magnitude, b: Magnitude)
  {
    SameKey(a, b) && Abs(b.value - a.value) > 0.001
  }

  /**
    `compare_magnitude`: true for a matching key, false otherwise, and a
    `ValueError` when the key matches but the values differ by more than
    0.001. The `tol` argument of the original is never read; the tolerance
    is the literal 0.001.
   */
  function CompareMagnitude(self: Magnitude, other: Magnitude): (r: Result<bool>)
    ensures r.Err? <==> Conflicts(self, other)
    ensures r.Ok? ==> (r.value <==> SameKey(self, other))
  {
    if SameKey(other, self) then
      if Abs(other.value - self.value) > 0.001 then Err(ValueError("Two magnitudes with same metadata contain different values!"))
      else Ok(true)
    else Ok(false)
  }

  /** Key match and conflict are symmetric, so the comparison is too. */
  lemma CompareSymmetric(a: Magnitude, b: Magnitude)
    ensures CompareMagnitude(a, b) == CompareMagnitude(b, a)
  {
  }

  // ---------------------------------------------------------------------------
  // Location, Origin, Event, Catalogue

  /**
    A hypocentre and its uncertainties. `depthSolution` holds whatever the
    caller passes in that position: the ISF reader passes the semimajor axis
    there (see `IsfReader.GetEventOriginRow`).
   */
  datatype Location = Location(
    originId: string,
    longitude: real,
    latitude: real,
    depth: Option<real>,
    depthSolution: Option<real>,
    semimajor90: Option<real>,
    semiminor90: Option<real>,
    errorStrike: Option<real>,
    depthError: Option<real>)

  /** The free-form metadata of an ISF origin line. */
  datatype Metadata = Metadata(
    nPhases: Option<int>,
    nStations: Option<int>,
    azimuthGap: Option<real>,
    minDist: Option<real>,
    maxDist: Option<real>,
    fixedTime: string,
    depthSolution: string,
    analysisType: string,
    locationMethod: string,
    eventType: string)

  /** One agency's solution for an event, with the magnitudes assigned to it. */
  datatype Origin = Origin(
    id: string,
    date: Date,
    time: Time,
    location: Location,
    author: string,
    isPrime: bool,
    isCentroid: bool,
    timeError: Option<real>,
    timeRms: Option<real>,
    metadata: Option<Metadata>,
    magnitudes: seq<Magnitude>)

  /** An earthquake: its origins and the magnitudes reported for any of them. */
  datatype Event = Event(id: string, description: string, origins: seq<Origin>, magnitudes: seq<Magnitude>)

  /** An ordered catalogue of events. */
  datatype Catalogue = Catalogue(id: string, name: string, events: seq<Event>)

  /** A new origin with no magnitudes and neither flag set (the `Origin` constructor's defaults). */
  function NewOrigin(id: string, date: Date, time: Time, location: Location, author: string,
                     timeError: Option<real>, timeRms: Option<real>, metadata: Option<Metadata>): (o: Origin)
    ensures o.magnitudes == [] && !o.isPrime && !o.isCentroid
    ensures o.id == id && o.author == author && o.location == location
  {
    Origin(id, date, time, location, author, false, false, timeError, timeRms, metadata, [])
  }

  /** `get_origin_id_list`. */
  function OriginIds(origins: seq<Origin>): (ids: seq<string>)
    ensures |ids| == |origins|
    ensures forall i :: 0 <= i < |ids| ==> ids[i] == origins[i].id
  {
    if |origins| == 0 then [] else [origins[0].id] + OriginIds(origins[1..])
  }

  // ---------------------------------------------------------------------------
  // Assigning magnitudes to origins

  /** The magnitudes of `ms` that name origin `id`, in order. */
  function MagnitudesFor(ms: seq<Magnitude>, id: string): (r: seq<Magnitude>)
    ensures |r| <= |ms|
    ensures forall k :: 0 <= k < |r| ==> r[k] in ms && r[k].originId == id
    ensures forall j :: 0 <= j < |ms| && ms[j].originId == id ==> ms[j] in r
  {
    if |ms| == 0 then []
    else (if ms[0].originId == id then [ms[0]] else []) + MagnitudesFor(ms[1..], id)
  }

  /** The magnitudes for an origin are the event's list filtered by origin id, keeping order and repeats. */
  lemma {:induction false} MagnitudesForIsFilter(ms: seq<Magnitude>, id: string)
    ensures MagnitudesFor(ms, id) == Filter(ms, (m: Magnitude) => m.originId == id)
  {
    if |ms| > 0 {
      MagnitudesForIsFilter(ms[1..], id);
    }
  }

  /** The inner loops of `assign_magnitudes_to_origins`, one origin after the other. */
  function AttachMatching(origins: seq<Origin>, ms: seq<Magnitude>): (r: seq<Origin>)
    ensures |r| == |origins|
    ensures forall i :: 0 <= i < |r| ==> r[i] == origins[i].(magnitudes := origins[i].magnitudes + MagnitudesFor(ms, origins[i].id))
  {
    if |origins| == 0 then []
    else
      var o := origins[0];
      [o.(magnitudes := o.magnitudes + MagnitudesFor(ms, o.id))] + AttachMatching(origins[1..], ms)
  }

  /** The error value `assign_magnitudes_to_origins` returns (it does not raise it). */
  datatype AssignStatus = Assigned | NoMagnitudes | NoOrigins

  /** `b` is `a` with a longer magnitude list that starts with `a`'s. */
  predicate Refines(a: Origin, b: Origin)
  {
    b == a.(magnitudes := b.magnitudes) && IsPrefix(a.magnitudes, b.magnitudes)
  }

  /**
    `assign_magnitudes_to_origins`: with no magnitudes or no origins the event
    is returned unchanged together with the error value; otherwise every
    origin receives, after the magnitudes it already had, exactly the event
    magnitudes naming its id, in event order.
   */
  function AssignMagnitudesToOrigins(e: Event): (r: (Event, AssignStatus))
    ensures |e.magnitudes| == 0 ==> r == (e, NoMagnitudes)
    ensures |e.magnitudes| > 0 && |e.origins| == 0 ==> r == (e, NoOrigins)
    ensures |e.magnitudes| > 0 && |e.origins| > 0 ==> r.1 == Assigned
    ensures r.0.id == e.id && r.0.description == e.description && r.0.magnitudes == e.magnitudes
    ensures |r.0.origins| == |e.origins|
    ensures forall i :: 0 <= i < |e.origins| ==> Refines(e.origins[i], r.0.origins[i])
    ensures r.1 == Assigned ==> forall i :: 0 <= i < |e.origins| ==>
              r.0.origins[i] == e.origins[i].(magnitudes := e.origins[i].magnitudes + MagnitudesFor(e.magnitudes, e.origins[i].id))
    ensures r.1 == Assigned ==> forall i, j :: 0 <= i < |e.origins| && 0 <= j < |e.magnitudes| && e.magnitudes[j].originId == e.origins[i].id ==> e.magnitudes[j] in r.0.origins[i].magnitudes
    ensures forall i, k :: 0 <= i < |e.origins| && |e.origins[i].magnitudes| <= k < |r.0.origins[i].magnitudes| ==> r.0.origins[i].magnitudes[k] in e.magnitudes && r.0.origins[i].magnitudes[k].originId == e.origins[i].id
  {
    if |e.magnitudes| == 0 then (e, NoMagnitudes)
    else if |e.origins| == 0 then (e, NoOrigins)
    else
      var attached := AttachMatching(e.origins, e.magnitudes);
      assert forall i :: 0 <= i < |e.origins| ==> attached[i].magnitudes[..|e.origins[i].magnitudes|] == e.origins[i].magnitudes;
      (e.(origins := attached), Assigned)
  }

  // ---------------------------------------------------------------------------
  // Merging magnitudes into an origin

  /**
    The inner loop of `merge_secondary_magnitudes`: `m` is compared with every
    element of `list` in turn (raising on the first conflict) and the flag
    keeps only the outcome of the latest comparison.
   */
  function ScanComparisons(list: seq<Magnitude>, m: Magnitude, has: bool): (r: Result<bool>)
    ensures r.Err? <==> exists k :: 0 <= k < |list| && Conflicts(list[k], m)
    ensures r.Ok? && |list| == 0 ==> r.value == has
    ensures r.Ok? && |list| > 0 ==> (r.value <==> SameKey(list[|list| - 1], m))
  {
    if |list| == 0 then Ok(has)
    else
      var h :- CompareMagnitude(list[0], m);
      assert forall k :: 1 <= k < |list| ==> list[k] == list[1..][k - 1];
      ScanComparisons(list[1..], m, h)
  }

  /** The outer loop of `merge_secondary_magnitudes` over a non-empty list: each incoming magnitude is appended unless the latest comparison matched. */
  function AppendUnmatched(current: seq<Magnitude>, incoming: seq<Magnitude>): (r: Result<seq<Magnitude>>)
    ensures r.Ok? ==> IsPrefix(current, r.value)
    ensures r.Ok? ==> |r.value| <= |current| + |incoming|
    ensures r.Ok? ==> forall k :: |current| <= k < |r.value| ==> r.value[k] in incoming
    decreases |incoming|
  {
    if |incoming| == 0 then Ok(current)
    else
      var m := incoming[0];
      var has :- ScanComparisons(current, m, false);
      var next := if has then current else current + [m];
      var r := AppendUnmatched(next, incoming[1..]);
      assert r.Ok? ==> forall k :: |next| <= k < |r.value| ==> r.value[k] in incoming by {
        assert forall x :: x in incoming[1..] ==> x in incoming;
      }
      r
  }

  /**
    `merge_secondary_magnitudes`: an origin without magnitudes adopts the
    incoming list; otherwise the existing magnitudes keep their positions and
    unmatched incoming magnitudes are appended in order.
   */
  function MergeSecondaryMagnitudes(current: seq<Magnitude>, incoming: seq<Magnitude>): (r: Result<seq<Magnitude>>)
    ensures |current| == 0 ==> r == Ok(incoming)
    ensures r.Ok? ==> IsPrefix(current, r.value)
    ensures r.Ok? ==> |r.value| <= |current| + |incoming|
    ensures r.Ok? ==> forall k :: |current| <= k < |r.value| ==> r.value[k] in incoming
  {
    if |current| == 0 then Ok(incoming) else AppendUnmatched(current, incoming)
  }

  /** A conflict between any existing magnitude and any incoming one makes the merge raise. */
  lemma {:induction false} AppendUnmatchedRaisesOnConflict(current: seq<Magnitude>, incoming: seq<Magnitude>, k: int, j: int)
    requires 0 <= k < |current| && 0 <= j < |incoming|
    requires Conflicts(current[k], incoming[j])
    ensures AppendUnmatched(current, incoming).Err?
    decreases |incoming|
  {
    var m := incoming[0];
    var scan := ScanComparisons(current, m, false);
    if scan.Ok? {
      if j == 0 {
        assert false;
      }
      var next := if scan.value then current else current + [m];
      assert next[k] == current[k];
      assert incoming[1..][j - 1] == incoming[j];
      AppendUnmatchedRaisesOnConflict(next, incoming[1..], k, j - 1);
    }
  }

  /** The merge raises as soon as an incoming magnitude conflicts with an existing one. */
  lemma MergeRaisesOnConflict(current: seq<Magnitude>, incoming: seq<Magnitude>, k: int, j: int)
    requires 0 <= k < |current| && 0 <= j < |incoming|
    requires Conflicts(current[k], incoming[j])
    ensures MergeSecondaryMagnitudes(current, incoming).Err?
  {
    AppendUnmatchedRaisesOnConflict(current, incoming, k, j);
  }

  /** A magnitude equal in key and value to the last one already present is dropped. */
  lemma MergeDropsRepeatOfLast(current: seq<Magnitude>, m: Magnitude)
    requires |current| > 0 && SameKey(current[|current| - 1], m)
    requires forall k :: 0 <= k < |current| ==> !Conflicts(current[k], m)
    ensures MergeSecondaryMagnitudes(current, [m]) == Ok(current)
  {
    var scan := ScanComparisons(current, m, false);
    assert scan == Ok(true);
    assert [m][1..] == [];
    assert AppendUnmatched(current, []) == Ok(current);
  }

  /**
    Only the last comparison decides: a copy of the first of two magnitudes
    is appended again when the second has a different key.
   */
  lemma MergeKeepsCopyUnlessLast(a: Magnitude, b: Magnitude)
    requires !SameKey(b, a)
    ensures MergeSecondaryMagnitudes([a, b], [a]) == Ok([a, b, a])
  {
    assert CompareMagnitude(a, a) == Ok(true);
    assert CompareMagnitude(b, a) == Ok(false);
    assert [a, b][1..] == [b] && [b][1..] == [] && [a][1..] == [];
    assert ScanComparisons([b], a, true) == Ok(false);
    assert ScanComparisons([a, b], a, false) == Ok(false);
    assert AppendUnmatched([a, b], [a]) == AppendUnmatched([a, b] + [a], []);
    assert [a, b] + [a] == [a, b, a];
    assert AppendUnmatched([a, b, a], []) == Ok([a, b, a]);
  }

  /** Two magnitudes with the same key: the merge raises beyond 0.001 and keeps one copy within it. */
  lemma MergeTwoSameKey(a: Magnitude, b: Magnitude)
    requires SameKey(a, b)
    ensures Abs(b.value - a.value) > 0.001 ==> MergeSecondaryMagnitudes([a], [b]).Err?
    ensures Abs(b.value - a.value) <= 0.001 ==> MergeSecondaryMagnitudes([a], [b]) == Ok([a])
  {
    assert [a][1..] == [] && [b][1..] == [];
    if Abs(b.value - a.value) <= 0.001 {
      assert ScanComparisons([a], b, false) == Ok(true);
      assert AppendUnmatched([a], []) == Ok([a]);
    }
  }

  /**
    One incoming magnitude merged into a non-empty list: the merge raises
    exactly when it conflicts with an existing magnitude; otherwise the list
    is kept when the last comparison, against the last magnitude, matched,
    and the magnitude is appended when it did not.
   */
  lemma MergeOne(current: seq<Magnitude>, m: Magnitude)
    requires |current| > 0
    ensures MergeSecondaryMagnitudes(current, [m]).Err? <==> exists k :: 0 <= k < |current| && Conflicts(current[k], m)
    ensures MergeSecondaryMagnitudes(current, [m]).Ok? ==>
              MergeSecondaryMagnitudes(current, [m]) ==
                if CompareMagnitude(current[|current| - 1], m) == Ok(true) then Ok(current) else Ok(current + [m])
  {
    var scan := ScanComparisons(current, m, false);
    assert [m][1..] == [];
    assert AppendUnmatched(current, [m]) == if scan.Err? then Err(scan.error) else
      AppendUnmatched(if scan.value then current else current + [m], []);
    if scan.Ok? {
      assert scan.value <==> CompareMagnitude(current[|current| - 1], m) == Ok(true);
    }
  }

  /** Merging `a + b` is merging `a` and then merging `b` into the result; a failure in `a` ends it. */
  lemma {:induction false} AppendUnmatchedConcat(current: seq<Magnitude>, a: seq<Magnitude>, b: seq<Magnitude>)
    ensures AppendUnmatched(current, a + b) ==
              var r := AppendUnmatched(current, a);
              if r.Err? then r else AppendUnmatched(r.value, b)
    decreases |a|
  {
    if |a| == 0 {
      assert a + b == b;
    } else {
      assert (a + b)[0] == a[0] && (a + b)[1..] == a[1..] + b;
      var scan := ScanComparisons(current, a[0], false);
      if scan.Ok? {
        var next := if scan.value then current else current + [a[0]];
        AppendUnmatchedConcat(next, a[1..], b);
      }
    }
  }

  /** Incoming magnitude `j` conflicts with an existing magnitude or with an earlier incoming one. */
  predicate ConflictsEarlier(current: seq<Magnitude>, incoming: seq<Magnitude>, j: int)
    requires 0 <= j < |incoming|
  {
    (exists k :: 0 <= k < |current| && Conflicts(current[k], incoming[j])) ||
    (exists i :: 0 <= i < j && Conflicts(incoming[i], incoming[j]))
  }

  /** The merge raises only on a conflict: with an existing magnitude, or with one appended earlier in the loop. */
  lemma {:induction false} AppendUnmatchedErrConflicts(current: seq<Magnitude>, incoming: seq<Magnitude>)
    requires AppendUnmatched(current, incoming).Err?
    ensures exists j :: 0 <= j < |incoming| && ConflictsEarlier(current, incoming, j)
    decreases |incoming|
  {
    var m := incoming[0];
    var scan := ScanComparisons(current, m, false);
    if scan.Err? {
      assert ConflictsEarlier(current, incoming, 0);
    } else {
      var next := if scan.value then current else current + [m];
      var tail := incoming[1..];
      AppendUnmatchedErrConflicts(next, tail);
      var j :| 0 <= j < |tail| && ConflictsEarlier(next, tail, j);
      assert tail[j] == incoming[j + 1];
      if k :| 0 <= k < |next| && Conflicts(next[k], tail[j]) {
        if k < |current| {
          assert next[k] == current[k];
        } else {
          assert next[k] == incoming[0];
        }
      } else {
        var i :| 0 <= i < j && Conflicts(tail[i], tail[j]);
        assert tail[i] == incoming[i + 1];
      }
      assert ConflictsEarlier(current, incoming, j + 1);
    }
  }

  /** A failed merge into a non-empty list has a conflicting incoming magnitude. */
  lemma MergeErrConflicts(current: seq<Magnitude>, incoming: seq<Magnitude>)
    requires MergeSecondaryMagnitudes(current, incoming).Err?
    ensures |current| > 0
    ensures exists j :: 0 <= j < |incoming| && ConflictsEarlier(current, incoming, j)
  {
    AppendUnmatchedErrConflicts(current, incoming);
  }

  // ---------------------------------------------------------------------------
  // Merging origins into an event

  /** The secondary origins whose id is not in `ids`, in order: the ones appended to the event. */
  function NewOrigins(secondary: seq<Origin>, ids: seq<string>): (r: seq<Origin>)
    ensures |r| <= |secondary|
    ensures forall k :: 0 <= k < |r| ==> r[k] in secondary && r[k].id !in ids
    ensures forall j :: 0 <= j < |secondary| && secondary[j].id !in ids ==> secondary[j] in r
  {
    if |secondary| == 0 then []
    else (if secondary[0].id !in ids then [secondary[0]] else []) + NewOrigins(secondary[1..], ids)
  }

  /** No origin of `rest` has the id `id`. */
  predicate NoneNamed(rest: seq<Origin>, id: string)
  {
    forall j :: 0 <= j < |rest| ==> rest[j].id != id
  }

  /** Refinement is transitive. */
  lemma RefinesTrans(a: Origin, b: Origin, c: Origin)
    requires Refines(a, b) && Refines(b, c)
    ensures Refines(a, c)
  {
    assert c.magnitudes[..|a.magnitudes|] == c.magnitudes[..|b.magnitudes|][..|a.magnitudes|];
  }

  /** Extending one origin's magnitude list keeps every origin a refinement of its original. */
  lemma RefinesAfterUpdate(base: seq<Origin>, current: seq<Origin>, loc: int, merged: seq<Magnitude>)
    requires |base| <= |current| && 0 <= loc < |base|
    requires forall i :: 0 <= i < |base| ==> Refines(base[i], current[i])
    requires IsPrefix(current[loc].magnitudes, merged)
    ensures forall i :: 0 <= i < |base| ==> Refines(base[i], current[loc := current[loc].(magnitudes := merged)][i])
  {
    var next := current[loc := current[loc].(magnitudes := merged)];
    assert Refines(current[loc], next[loc]);
    RefinesTrans(base[loc], current[loc], next[loc]);
  }

  /**
    The loop of `merge_secondary_origin` after some secondary origins have
    been processed: `ids` holds the ids of the event's origins before the
    merge, computed once, and `current` the list being built.
   */
  function MergeOriginsFrom(current: seq<Origin>, rest: seq<Origin>, ids: seq<string>): (r: Result<seq<Origin>>)
    requires |ids| <= |current|
    ensures r.Ok? ==> |r.value| == |current| + |NewOrigins(rest, ids)|
    decreases |rest|
  {
    if |rest| == 0 then Ok(current)
    else
      var o2 := rest[0];
      if o2.id in ids then
        var loc := IndexOf(ids, o2.id);
        var merged :- MergeSecondaryMagnitudes(current[loc].magnitudes, o2.magnitudes);
        MergeOriginsFrom(current[loc := current[loc].(magnitudes := merged)], rest[1..], ids)
      else
        MergeOriginsFrom(current + [o2], rest[1..], ids)
  }

  /** Every origin present before the merge only gains magnitudes. */
  lemma {:induction false} MergeOriginsRefines(base: seq<Origin>, current: seq<Origin>, rest: seq<Origin>, ids: seq<string>)
    requires |ids| == |base| <= |current|
    requires forall i :: 0 <= i < |base| ==> Refines(base[i], current[i])
    ensures MergeOriginsFrom(current, rest, ids).Ok? ==>
              forall i :: 0 <= i < |base| ==> Refines(base[i], MergeOriginsFrom(current, rest, ids).value[i])
    decreases |rest|
  {
    if |rest| > 0 {
      var o2 := rest[0];
      if o2.id in ids {
        var loc := IndexOf(ids, o2.id);
        var merged := MergeSecondaryMagnitudes(current[loc].magnitudes, o2.magnitudes);
        if merged.Ok? {
          RefinesAfterUpdate(base, current, loc, merged.value);
          MergeOriginsRefines(base, current[loc := current[loc].(magnitudes := merged.value)], rest[1..], ids);
        }
      } else {
        MergeOriginsRefines(base, current + [o2], rest[1..], ids);
      }
    }
  }

  /** After the positions of the original origins come the new ones, in secondary order. */
  lemma {:induction false} MergeOriginsAppends(base: seq<Origin>, current: seq<Origin>, rest: seq<Origin>, ids: seq<string>)
    requires |ids| <= |base| <= |current|
    ensures MergeOriginsFrom(current, rest, ids).Ok? ==>
              MergeOriginsFrom(current, rest, ids).value[|base|..] == current[|base|..] + NewOrigins(rest, ids)
    decreases |rest|, 1
  {
    if |rest| > 0 {
      if rest[0].id in ids {
        MergeOriginsAppendsKnown(base, current, rest, ids);
      } else {
        MergeOriginsAppendsNew(base, current, rest, ids);
      }
    }
  }

  /** The step of `MergeOriginsAppends` for a secondary origin with a known id. */
  lemma {:induction false} MergeOriginsAppendsKnown(base: seq<Origin>, current: seq<Origin>, rest: seq<Origin>, ids: seq<string>)
    requires |ids| <= |base| <= |current|
    requires |rest| > 0 && rest[0].id in ids
    ensures MergeOriginsFrom(current, rest, ids).Ok? ==>
              MergeOriginsFrom(current, rest, ids).value[|base|..] == current[|base|..] + NewOrigins(rest, ids)
    decreases |rest|, 0
  {
    var o2 := rest[0];
    assert NewOrigins(rest, ids) == NewOrigins(rest[1..], ids);
    var loc := IndexOf(ids, o2.id);
    var merged := MergeSecondaryMagnitudes(current[loc].magnitudes, o2.magnitudes);
    if merged.Ok? {
      var next := current[loc := current[loc].(magnitudes := merged.value)];
      assert next[|base|..] == current[|base|..];
      MergeOriginsAppends(base, next, rest[1..], ids);
    }
  }

  /** Appending one element and then a tail, seen from position `k`. */
  lemma SliceAppend<T>(xs: seq<T>, x: T, tail: seq<T>, k: nat)
    requires k <= |xs|
    ensures (xs + [x])[k..] + tail == xs[k..] + ([x] + tail)
  {
    assert (xs + [x])[k..] == xs[k..] + [x];
  }

  /** The step of `MergeOriginsAppends` for a secondary origin with a new id. */
  lemma {:induction false} MergeOriginsAppendsNew(base: seq<Origin>, current: seq<Origin>, rest: seq<Origin>, ids: seq<string>)
    requires |ids| <= |base| <= |current|
    requires |rest| > 0 && rest[0].id !in ids
    ensures MergeOriginsFrom(current, rest, ids).Ok? ==>
              MergeOriginsFrom(current, rest, ids).value[|base|..] == current[|base|..] + NewOrigins(rest, ids)
    decreases |rest|, 0
  {
    var o2 := rest[0];
    var tail := NewOrigins(rest[1..], ids);
    assert NewOrigins(rest, ids) == [o2] + tail;
    var next := current + [o2];
    var r := MergeOriginsFrom(current, rest, ids);
    assert r == MergeOriginsFrom(next, rest[1..], ids);
    MergeOriginsAppends(base, next, rest[1..], ids);
    SliceAppend(current, o2, tail, |base|);
  }

  /** An origin that no remaining secondary origin names is left exactly as it is. */
  lemma {:induction false} MergeOriginsUntouched(base: seq<Origin>, current: seq<Origin>, rest: seq<Origin>, ids: seq<string>, i: int)
    requires |ids| == |base| <= |current| && forall k :: 0 <= k < |ids| ==> ids[k] == base[k].id
    requires 0 <= i < |base| && NoneNamed(rest, base[i].id)
    ensures MergeOriginsFrom(current, rest, ids).Ok? ==> MergeOriginsFrom(current, rest, ids).value[i] == current[i]
    decreases |rest|
  {
    if |rest| > 0 {
      var o2 := rest[0];
      assert o2.id != base[i].id;
      if o2.id in ids {
        var loc := IndexOf(ids, o2.id);
        assert loc != i;
        var merged := MergeSecondaryMagnitudes(current[loc].magnitudes, o2.magnitudes);
        if merged.Ok? {
          MergeOriginsUntouched(base, current[loc := current[loc].(magnitudes := merged.value)], rest[1..], ids, i);
        }
      } else {
        MergeOriginsUntouched(base, current + [o2], rest[1..], ids, i);
      }
    }
  }

  /**
    `merge_secondary_origin`: a secondary origin whose id was among the
    event's origin ids before the merge has its magnitudes merged into the
    first origin with that id; any other is appended. Existing origins keep
    their positions and attributes.
   */
  function MergeSecondaryOrigin(origins: seq<Origin>, secondary: seq<Origin>): (r: Result<seq<Origin>>)
    ensures r.Ok? ==> |r.value| == |origins| + |NewOrigins(secondary, OriginIds(origins))|
    ensures r.Ok? ==> forall i :: 0 <= i < |origins| ==> Refines(origins[i], r.value[i])
    ensures r.Ok? ==> r.value[|origins|..] == NewOrigins(secondary, OriginIds(origins))
    ensures r.Ok? ==> forall i :: 0 <= i < |origins| && NoneNamed(secondary, origins[i].id) ==> r.value[i] == origins[i]
  {
    var ids := OriginIds(origins);
    var r := MergeOriginsFrom(origins, secondary, ids);
    assert origins[|origins|..] == [];
    assert forall i :: 0 <= i < |origins| ==> Refines(origins[i], origins[i]) by {
      forall i | 0 <= i < |origins| ensures Refines(origins[i], origins[i]) {
        assert origins[i].magnitudes[..|origins[i].magnitudes|] == origins[i].magnitudes;
      }
    }
    MergeOriginsRefines(origins, origins, secondary, ids);
    MergeOriginsAppends(origins, origins, secondary, ids);
    forall i | 0 <= i < |origins| && NoneNamed(secondary, origins[i].id)
      ensures r.Ok? ==> r.value[i] == origins[i]
    {
      MergeOriginsUntouched(origins, origins, secondary, ids, i);
    }
    r
  }

  /**
    One secondary origin against the ids taken before the loop: a known id
    merges its magnitudes into the first origin with that id (a failing
    magnitude merge raises), and an unknown one is appended.
   */
  lemma MergeOriginsOne(current: seq<Origin>, o2: Origin, ids: seq<string>)
    requires |ids| <= |current|
    ensures o2.id !in ids ==> MergeOriginsFrom(current, [o2], ids) == Ok(current + [o2])
    ensures o2.id in ids ==> (MergeOriginsFrom(current, [o2], ids) ==
              var loc := IndexOf(ids, o2.id);
              var merged := MergeSecondaryMagnitudes(current[loc].magnitudes, o2.magnitudes);
              if merged.Err? then Err(merged.error) else Ok(current[loc := current[loc].(magnitudes := merged.value)]))
  {
    assert [o2][1..] == [];
  }

  /** Merging `a + b` is merging `a` and then `b` into the result, against the same ids; a failure in `a` ends it. */
  lemma {:induction false} MergeOriginsConcat(current: seq<Origin>, a: seq<Origin>, b: seq<Origin>, ids: seq<string>)
    requires |ids| <= |current|
    ensures MergeOriginsFrom(current, a + b, ids) ==
              var r := MergeOriginsFrom(current, a, ids);
              if r.Err? then r else MergeOriginsFrom(r.value, b, ids)
    decreases |a|
  {
    if |a| == 0 {
      assert a + b == b;
    } else {
      var o2 := a[0];
      assert (a + b)[0] == o2 && (a + b)[1..] == a[1..] + b;
      if o2.id in ids {
        var loc := IndexOf(ids, o2.id);
        var merged := MergeSecondaryMagnitudes(current[loc].magnitudes, o2.magnitudes);
        if merged.Ok? {
          MergeOriginsConcat(current[loc := current[loc].(magnitudes := merged.value)], a[1..], b, ids);
        }
      } else {
        MergeOriginsConcat(current + [o2], a[1..], b, ids);
      }
    }
  }

  /** Secondary origins with no known id are all appended, and the merge cannot fail. */
  lemma {:induction false} MergeOriginsAllNew(current: seq<Origin>, rest: seq<Origin>, ids: seq<string>)
    requires |ids| <= |current|
    requires forall j :: 0 <= j < |rest| ==> rest[j].id !in ids
    ensures MergeOriginsFrom(current, rest, ids) == Ok(current + rest)
    decreases |rest|
  {
    if |rest| == 0 {
      assert current + rest == current;
    } else {
      var o2 := rest[0];
      var tail := rest[1..];
      forall j | 0 <= j < |tail|
        ensures tail[j].id !in ids
      {
        assert tail[j] == rest[j + 1];
      }
      assert MergeOriginsFrom(current, rest, ids) == MergeOriginsFrom(current + [o2], tail, ids);
      MergeOriginsAllNew(current + [o2], tail, ids);
      assert rest == [o2] + tail;
      AppendAssoc(current, [o2], tail);
    }
  }

  /** The merge raises only through a magnitude merge, so only when some secondary origin has a known id. */
  lemma {:induction false} MergeOriginsErrKnown(current: seq<Origin>, rest: seq<Origin>, ids: seq<string>)
    requires |ids| <= |current|
    requires MergeOriginsFrom(current, rest, ids).Err?
    ensures exists j :: 0 <= j < |rest| && rest[j].id in ids
  {
    if forall j :: 0 <= j < |rest| ==> rest[j].id !in ids {
      MergeOriginsAllNew(current, rest, ids);
      assert false;
    }
  }

  /**
    `merge_secondary_origin` with one secondary origin: when its id is among
    the event's origin ids, the first origin with that id takes the merge of
    the magnitudes (a failing merge raises); otherwise it is appended.
   */
  lemma MergeSecondaryOriginOne(origins: seq<Origin>, o2: Origin)
    ensures o2.id !in OriginIds(origins) ==> MergeSecondaryOrigin(origins, [o2]) == Ok(origins + [o2])
    ensures o2.id in OriginIds(origins) ==> (MergeSecondaryOrigin(origins, [o2]) ==
              var i := IndexOf(OriginIds(origins), o2.id);
              var merged := MergeSecondaryMagnitudes(origins[i].magnitudes, o2.magnitudes);
              if merged.Err? then Err(merged.error) else Ok(origins[i := origins[i].(magnitudes := merged.value)]))
  {
    MergeOriginsOne(origins, o2, OriginIds(origins));
  }

  // ---------------------------------------------------------------------------
  // Merging catalogues

  /** `get_event_key_list`: the event ids, in catalogue order. */
  function EventKeys(events: seq<Event>): (keys: seq<string>)
    ensures |keys| == |events|
    ensures forall i :: 0 <= i < |keys| ==> keys[i] == events[i].id
  {
    if |events| == 0 then [] else [events[0].id] + EventKeys(events[1..])
  }

  /** `b` is `a` after merging: same id, description and magnitudes; each origin refined, new ones after. */
  predicate EventRefines(a: Event, b: Event)
  {
    && b.id == a.id
    && b.description == a.description
    && b.magnitudes == a.magnitudes
    && |a.origins| <= |b.origins|
    && forall i :: 0 <= i < |a.origins| ==> Refines(a.origins[i], b.origins[i])
  }

  /** No event of `rest` has the id `id`. */
  predicate NoEventNamed(rest: seq<Event>, id: string)
  {
    forall j :: 0 <= j < |rest| ==> rest[j].id != id
  }

  /** Refining the origins of one event keeps every event a refinement of its base event. */
  lemma ReplaceOriginsRefines(base: seq<Event>, current: seq<Event>, loc: nat, origins: seq<Origin>)
    requires |current| == |base| && loc < |base|
    requires forall i :: 0 <= i < |base| ==> EventRefines(base[i], current[i])
    requires |current[loc].origins| <= |origins|
    requires forall i :: 0 <= i < |current[loc].origins| ==> Refines(current[loc].origins[i], origins[i])
    ensures forall i :: 0 <= i < |base| ==> EventRefines(base[i], current[loc := current[loc].(origins := origins)][i])
  {
    var event := current[loc];
    var next := current[loc := event.(origins := origins)];
    assert EventRefines(base[loc], event);
    assert EventRefines(base[loc], next[loc]) by {
      forall i | 0 <= i < |base[loc].origins|
        ensures Refines(base[loc].origins[i], origins[i])
      {
        assert Refines(base[loc].origins[i], event.origins[i]);
        assert Refines(event.origins[i], origins[i]);
        assert origins[i].magnitudes[..|base[loc].origins[i].magnitudes|] == event.origins[i].magnitudes[..|base[loc].origins[i].magnitudes|];
      }
    }
  }

  /** A base event no event of `rest` names is named neither by the first of `rest` nor by the others. */
  lemma UnnamedInTail(base: seq<Event>, rest: seq<Event>)
    requires |rest| > 0
    ensures forall i :: 0 <= i < |base| && NoEventNamed(rest, base[i].id) ==>
      base[i].id != rest[0].id && NoEventNamed(rest[1..], base[i].id)
  {
    forall i | 0 <= i < |base| && NoEventNamed(rest, base[i].id)
      ensures NoEventNamed(rest[1..], base[i].id)
    {
      forall j | 0 <= j < |rest| - 1
        ensures rest[1..][j].id != base[i].id
      {
        assert rest[1..][j] == rest[j + 1];
      }
    }
  }

  /** The loop of `merge_second_catalogue` over the remaining secondary events. */
  function MergeEventsFrom(base: seq<Event>, current: seq<Event>, rest: seq<Event>, keys: seq<string>): (r: Result<seq<Event>>)
    requires keys == EventKeys(base) && |current| == |base|
    requires forall i :: 0 <= i < |base| ==> EventRefines(base[i], current[i])
    ensures r.Ok? ==> |r.value| == |base|
    ensures r.Ok? ==> forall i :: 0 <= i < |base| ==> EventRefines(base[i], r.value[i])
    ensures r.Ok? ==> forall i :: 0 <= i < |base| && NoEventNamed(rest, base[i].id) ==> r.value[i] == current[i]
    decreases |rest|
  {
    if |rest| == 0 then Ok(current)
    else
      UnnamedInTail(base, rest);
      var key := rest[0].id;
      if key in keys then
        var loc := IndexOf(keys, key);
        var event := current[loc];
        var origins :- MergeSecondaryOrigin(event.origins, rest[0].origins);
        var next := current[loc := event.(origins := origins)];
        ReplaceOriginsRefines(base, current, loc, origins);
        MergeEventsFrom(base, next, rest[1..], keys)
      else
        MergeEventsFrom(base, current, rest[1..], keys)
  }

  /**
    `merge_second_catalogue`: each secondary event whose id names a primary
    event has its origins merged into the first such event; other secondary
    events are ignored. The primary keeps its id, name, event count and order.
   */
  function MergeSecondCatalogue(primary: Catalogue, secondary: Catalogue): (r: Result<Catalogue>)
    ensures r.Ok? ==> r.value.id == primary.id && r.value.name == primary.name
    ensures r.Ok? ==> |r.value.events| == |primary.events|
    ensures r.Ok? ==> forall i :: 0 <= i < |primary.events| ==> EventRefines(primary.events[i], r.value.events[i])
    ensures r.Ok? ==> forall i :: 0 <= i < |primary.events| && NoEventNamed(secondary.events, primary.events[i].id) ==> r.value.events[i] == primary.events[i]
  {
    var events :- MergeEventsFrom(primary.events, primary.events, secondary.events, EventKeys(primary.events));
    Ok(primary.(events := events))
  }

  /** A secondary catalogue sharing no event id with the primary leaves the primary as it is. */
  lemma {:induction false} MergeDisjointIsIdentity(primary: Catalogue, secondary: Catalogue)
    requires forall j :: 0 <= j < |secondary.events| ==> secondary.events[j].id !in EventKeys(primary.events)
    ensures MergeSecondCatalogue(primary, secondary) == Ok(primary)
  {
    DisjointRestIgnored(primary.events, secondary.events, EventKeys(primary.events));
  }

  /** Secondary events whose ids are all absent leave the events as they are. */
  lemma {:induction false} DisjointRestIgnored(events: seq<Event>, rest: seq<Event>, keys: seq<string>)
    requires keys == EventKeys(events)
    requires forall j :: 0 <= j < |rest| ==> rest[j].id !in keys
    ensures MergeEventsFrom(events, events, rest, keys) == Ok(events)
    decreases |rest|
  {
    EventsRefineThemselves(events);
    if |rest| > 0 {
      DisjointRestIgnored(events, rest[1..], keys);
    }
  }

  /** Every event refines itself. */
  lemma EventsRefineThemselves(events: seq<Event>)
    ensures forall i :: 0 <= i < |events| ==> EventRefines(events[i], events[i])
  {
    forall i | 0 <= i < |events|
      ensures EventRefines(events[i], events[i])
    {
      assert forall k :: 0 <= k < |events[i].origins| ==>
        events[i].origins[k].magnitudes[..|events[i].origins[k].magnitudes|] == events[i].origins[k].magnitudes;
    }
  }

  /** Refined events keep their ids, so they have the same key list. */
  lemma RefinedKeys(base: seq<Event>, events: seq<Event>)
    requires |events| == |base| && forall i :: 0 <= i < |base| ==> EventRefines(base[i], events[i])
    ensures EventKeys(events) == EventKeys(base)
  {
    assert forall i :: 0 <= i < |base| ==> EventKeys(events)[i] == EventKeys(base)[i];
  }

  /**
    One secondary event: when its id is among the primary keys, the first
    event with that id takes the merge of its origins (a failing merge
    raises); otherwise the events are unchanged.
   */
  lemma MergeEventsOne(base: seq<Event>, current: seq<Event>, e2: Event, keys: seq<string>)
    requires keys == EventKeys(base) && |current| == |base|
    requires forall i :: 0 <= i < |base| ==> EventRefines(base[i], current[i])
    ensures e2.id !in keys ==> MergeEventsFrom(base, current, [e2], keys) == Ok(current)
    ensures e2.id in keys ==> (MergeEventsFrom(base, current, [e2], keys) ==
              var loc := IndexOf(keys, e2.id);
              var origins := MergeSecondaryOrigin(current[loc].origins, e2.origins);
              if origins.Err? then Err(origins.error) else Ok(current[loc := current[loc].(origins := origins.value)]))
  {
    assert [e2][1..] == [];
  }

  /** Merging secondary events `a + b` is merging `a` and then `b`, against the same keys; a failure in `a` ends it. */
  lemma {:induction false} MergeEventsConcat(base: seq<Event>, current: seq<Event>, a: seq<Event>, b: seq<Event>, keys: seq<string>)
    requires keys == EventKeys(base) && |current| == |base|
    requires forall i :: 0 <= i < |base| ==> EventRefines(base[i], current[i])
    ensures MergeEventsFrom(base, current, a + b, keys) ==
              var r := MergeEventsFrom(base, current, a, keys);
              if r.Err? then r else MergeEventsFrom(base, r.value, b, keys)
    decreases |a|
  {
    if |a| == 0 {
      assert a + b == b;
    } else {
      var e2 := a[0];
      assert (a + b)[0] == e2 && (a + b)[1..] == a[1..] + b;
      if e2.id in keys {
        var loc := IndexOf(keys, e2.id);
        var origins := MergeSecondaryOrigin(current[loc].origins, e2.origins);
        if origins.Ok? {
          ReplaceOriginsRefines(base, current, loc, origins.value);
          MergeEventsConcat(base, current[loc := current[loc].(origins := origins.value)], a[1..], b, keys);
        }
      } else {
        MergeEventsConcat(base, current, a[1..], b, keys);
      }
    }
  }

  /** The events before the merge only constrain it; the loop's outcome does not depend on them. */
  lemma {:induction false} MergeEventsBaseFree(base1: seq<Event>, base2: seq<Event>, current: seq<Event>, rest: seq<Event>, keys: seq<string>)
    requires keys == EventKeys(base1) && keys == EventKeys(base2) && |current| == |base1|
    requires forall i :: 0 <= i < |base1| ==> EventRefines(base1[i], current[i])
    requires forall i :: 0 <= i < |base2| ==> EventRefines(base2[i], current[i])
    ensures MergeEventsFrom(base1, current, rest, keys) == MergeEventsFrom(base2, current, rest, keys)
    decreases |rest|
  {
    if |rest| > 0 {
      if rest[0].id in keys {
        var loc := IndexOf(keys, rest[0].id);
        var origins := MergeSecondaryOrigin(current[loc].origins, rest[0].origins);
        if origins.Ok? {
          ReplaceOriginsRefines(base1, current, loc, origins.value);
          ReplaceOriginsRefines(base2, current, loc, origins.value);
          MergeEventsBaseFree(base1, base2, current[loc := current[loc].(origins := origins.value)], rest[1..], keys);
        }
      } else {
        MergeEventsBaseFree(base1, base2, current, rest[1..], keys);
      }
    }
  }

  /**
    `merge_second_catalogue` with one secondary event: when its id is a
    primary key, the first primary event with that id takes the merge of its
    origins (a failing merge raises); otherwise the primary is unchanged.
   */
  lemma MergeSecondCatalogueOne(primary: Catalogue, secondary: Catalogue, e2: Event)
    requires secondary.events == [e2]
    ensures e2.id !in EventKeys(primary.events) ==> MergeSecondCatalogue(primary, secondary) == Ok(primary)
    ensures e2.id in EventKeys(primary.events) ==> (MergeSecondCatalogue(primary, secondary) ==
              var i := IndexOf(EventKeys(primary.events), e2.id);
              var origins := MergeSecondaryOrigin(primary.events[i].origins, e2.origins);
              if origins.Err? then Err(origins.error)
              else Ok(primary.(events := primary.events[i := primary.events[i].(origins := origins.value)])))
  {
    EventsRefineThemselves(primary.events);
    MergeEventsOne(primary.events, primary.events, e2, EventKeys(primary.events));
  }

  /** Merging a secondary catalogue whose events are `a + b` is merging one with `a`, then one with `b`; a failure in the first ends it. */
  lemma MergeSecondCatalogueConcat(primary: Catalogue, first: Catalogue, second: Catalogue)
    ensures MergeSecondCatalogue(primary, first.(events := first.events + second.events)) ==
              var r := MergeSecondCatalogue(primary, first);
              if r.Err? then r else MergeSecondCatalogue(r.value, second)
  {
    var keys := EventKeys(primary.events);
    EventsRefineThemselves(primary.events);
    MergeEventsConcat(primary.events, primary.events, first.events, second.events, keys);
    var r := MergeEventsFrom(primary.events, primary.events, first.events, keys);
    if r.Ok? {
      RefinedKeys(primary.events, r.value);
      EventsRefineThemselves(r.value);
      MergeEventsBaseFree(primary.events, r.value, r.value, second.events, keys);
    }
  }

  /** The catalogue merge raises only through an origin merge, so only when some secondary event id is a primary key. */
  lemma MergeSecondCatalogueErrKnown(primary: Catalogue, secondary: Catalogue)
    requires MergeSecondCatalogue(primary, secondary).Err?
    ensures exists j :: 0 <= j < |secondary.events| && secondary.events[j].id in EventKeys(primary.events)
  {
    if forall j :: 0 <= j < |secondary.events| ==> secondary.events[j].id !in EventKeys(primary.events) {
      MergeDisjointIsIdentity(primary, secondary);
      assert false;
    }
  }
}
