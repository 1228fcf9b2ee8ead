/**
  Views of an ISF catalogue: the time of each event taken from its preferred
  origin, the simple (event, origin, time, location, magnitude) array, and the
  pair of flat origin and magnitude tables.

  numpy arrays become sequences of row records; the fixed-width byte-string
  columns (`aN`) cut their text to N characters and a `None` stored in a
  float column becomes `nan`.
 */
module Tables {
  import opened Base
  import opened Calendar
  import opened Catalogue

  // ---------------------------------------------------------------------------
  // Preferred origin and decimal dates

  /** The position of the first prime origin, or the length when none is prime. */
  function FirstPrime(origins: seq<Origin>): (k: nat)
    ensures k <= |origins|
    ensures forall j :: 0 <= j < k ==> !origins[j].isPrime
    ensures k < |origins| ==> origins[k].isPrime
  {
    if |origins| == 0 then 0
    else if origins[0].isPrime then 0
    else 1 + FirstPrime(origins[1..])
  }

  /**
    The origin `get_decimal_dates` reads an event's time from: the first prime
    origin, else the first origin; indexing the empty origin list raises.
   */
  function SelectOrigin(e: Event): (r: Result<Origin>)
    ensures r.Err? <==> |e.origins| == 0
    ensures r.Ok? ==> r.value in e.origins
    ensures r.Ok? && (exists j :: 0 <= j < |e.origins| && e.origins[j].isPrime) ==>
              exists k :: 0 <= k < |e.origins| && e.origins[k] == r.value && r.value.isPrime &&
                forall j :: 0 <= j < k ==> !e.origins[j].isPrime
    ensures r.Ok? && (forall j :: 0 <= j < |e.origins| ==> !e.origins[j].isPrime) ==> r.value == e.origins[0]
  {
    var k := FirstPrime(e.origins);
    if k < |e.origins| then Ok(e.origins[k])
    else if |e.origins| == 0 then Err(IndexError)
    else Ok(e.origins[0])
  }

  /** The decimal time of an origin's date and time, as `decimal_time` computes it. */
  function OriginTime(o: Origin): real
  {
    DecimalTime(o.date.year, o.date.month, o.date.day, o.time.hour, o.time.minute, Seconds(o.time))
  }

  /**
    `get_decimal_dates`: one decimal time per event, from its selected origin;
    an event without origins makes the whole call raise.
   */
  function GetDecimalDates(events: seq<Event>): (r: Result<seq<real>>)
    ensures r.Err? <==> exists i :: 0 <= i < |events| && |events[i].origins| == 0
    ensures r.Ok? ==> |r.value| == |events|
    ensures r.Ok? ==> forall i :: 0 <= i < |events| ==> r.value[i] == OriginTime(SelectOrigin(events[i]).value)
  {
    if |events| == 0 then Ok([])
    else
      var o :- SelectOrigin(events[0]);
      var rest :- GetDecimalDates(events[1..]);
      assert forall i :: 1 <= i < |events| ==> events[i] == events[1..][i - 1];
      Ok([OriginTime(o)] + rest)
  }

  /** Every decimal date lies within the year of the origin it was taken from. */
  lemma DecimalDatesWithinYear(events: seq<Event>, i: int)
    requires GetDecimalDates(events).Ok? && 0 <= i < |events|
    ensures SelectOrigin(events[i]).Ok?
    ensures var o := SelectOrigin(events[i]).value;
      o.date.year as real <= GetDecimalDates(events).value[i] < o.date.year as real + 1.0
  {
    var o := SelectOrigin(events[i]).value;
    DecimalTimeWithinYear(o.date, o.time);
  }

  // ---------------------------------------------------------------------------
  // The simple array

  /** One row of `render_to_simple_numpy_array`. */
  datatype SimpleRow = SimpleRow(
    eventId: string,
    originId: string,
    time: real,
    latitude: real,
    longitude: real,
    depth: Option<real>,
    magnitude: real)

  /** An origin the simple array reports: prime, with at least one magnitude. */
  predicate Reportable(o: Origin)
  {
    o.isPrime && |o.magnitudes| > 0
  }

  /** The reportable origins of a list, in order. */
  function ReportableOrigins(origins: seq<Origin>): (r: seq<Origin>)
    ensures |r| <= |origins|
    ensures forall k :: 0 <= k < |r| ==> Reportable(r[k])
  {
    if |origins| == 0 then []
    else (if Reportable(origins[0]) then [origins[0]] else []) + ReportableOrigins(origins[1..])
  }

  /** The reportable origins are drawn from the list, and every reportable origin of the list is among them. */
  lemma {:induction false} ReportableOriginsMembers(origins: seq<Origin>)
    ensures forall k :: 0 <= k < |ReportableOrigins(origins)| ==> ReportableOrigins(origins)[k] in origins
    ensures forall j :: 0 <= j < |origins| && Reportable(origins[j]) ==> origins[j] in ReportableOrigins(origins)
  {
    if |origins| > 0 {
      var tail := origins[1..];
      ReportableOriginsMembers(tail);
      var head := if Reportable(origins[0]) then [origins[0]] else [];
      var rest := ReportableOrigins(tail);
      assert ReportableOrigins(origins) == head + rest;
      forall k | 0 <= k < |head + rest|
        ensures (head + rest)[k] in origins
      {
        if k >= |head| {
          assert (head + rest)[k] == rest[k - |head|];
          assert rest[k - |head|] in tail;
        }
      }
      forall j | 0 <= j < |origins| && Reportable(origins[j])
        ensures origins[j] in head + rest
      {
        if j > 0 {
          assert origins[j] == tail[j - 1];
        }
      }
    }
  }

  /** The simple-array row of a reportable origin: its location and its first magnitude, with the event's time. */
  function SimpleRowOf(e: Event, o: Origin, time: real): SimpleRow
    requires Reportable(o)
  {
    SimpleRow(e.id, o.id, time, o.location.latitude, o.location.longitude, o.location.depth, o.magnitudes[0].value)
  }

  /** The rows of one event: one per reportable origin, in origin order. */
  function EventSimpleRows(e: Event, origins: seq<Origin>, time: real): (rows: seq<SimpleRow>)
    ensures |rows| == |ReportableOrigins(origins)|
    ensures forall k :: 0 <= k < |rows| ==> rows[k] == SimpleRowOf(e, ReportableOrigins(origins)[k], time)
  {
    if |origins| == 0 then []
    else
      var o := origins[0];
      var rest := EventSimpleRows(e, origins[1..], time);
      if Reportable(o) then [SimpleRowOf(e, o, time)] + rest else rest
  }

  /** The rows of all events, with the decimal time of event `i` at `times[i]`. */
  function SimpleRows(events: seq<Event>, times: seq<real>): (rows: seq<SimpleRow>)
    requires |times| == |events|
    ensures |rows| == TotalReportable(events)
  {
    if |events| == 0 then []
    else EventSimpleRows(events[0], events[0].origins, times[0]) + SimpleRows(events[1..], times[1..])
  }

  /** The number of reportable origins over all events. */
  function TotalReportable(events: seq<Event>): nat
  {
    if |events| == 0 then 0 else |ReportableOrigins(events[0].origins)| + TotalReportable(events[1..])
  }

  /**
    `render_to_simple_numpy_array`: one row per prime origin that has a
    magnitude, event by event, carrying the event's decimal time; it raises
    when `get_decimal_dates` does.
   */
  function RenderToSimpleArray(events: seq<Event>): (r: Result<seq<SimpleRow>>)
    ensures r.Err? <==> GetDecimalDates(events).Err?
    ensures r.Ok? ==> |r.value| == TotalReportable(events)
  {
    var times :- GetDecimalDates(events);
    Ok(SimpleRows(events, times))
  }

  /** Reportable origin `k` of event `i` gives the row right after the rows of all earlier events, carrying the event's time. */
  lemma {:induction false} SimpleRowsAt(events: seq<Event>, times: seq<real>, i: int, k: int)
    requires |times| == |events| && 0 <= i < |events| && 0 <= k < |ReportableOrigins(events[i].origins)|
    ensures TotalReportable(events[..i]) + k < |SimpleRows(events, times)|
    ensures SimpleRows(events, times)[TotalReportable(events[..i]) + k] ==
              SimpleRowOf(events[i], ReportableOrigins(events[i].origins)[k], times[i])
    decreases i
  {
    var head := EventSimpleRows(events[0], events[0].origins, times[0]);
    var rest := SimpleRows(events[1..], times[1..]);
    assert SimpleRows(events, times) == head + rest;
    if i == 0 {
      assert TotalReportable(events[..0]) == 0;
    } else {
      SimpleRowsAt(events[1..], times[1..], i - 1, k);
      assert events[..i][0] == events[0] && events[..i][1..] == events[1..][..i - 1];
      assert TotalReportable(events[..i]) == |head| + TotalReportable(events[1..][..i - 1]);
      assert events[1..][i - 1] == events[i] && times[1..][i - 1] == times[i];
    }
  }

  /** Each row of the simple array is a reportable origin's row, carrying the decimal time of its event. */
  lemma RenderToSimpleArrayAt(events: seq<Event>, i: int, k: int)
    requires RenderToSimpleArray(events).Ok?
    requires 0 <= i < |events| && 0 <= k < |ReportableOrigins(events[i].origins)|
    ensures TotalReportable(events[..i]) + k < |RenderToSimpleArray(events).value|
    ensures RenderToSimpleArray(events).value[TotalReportable(events[..i]) + k] ==
              SimpleRowOf(events[i], ReportableOrigins(events[i].origins)[k], GetDecimalDates(events).value[i])
  {
    SimpleRowsAt(events, GetDecimalDates(events).value, i, k);
  }

  /** An event with no prime origin, or whose prime origins have no magnitudes, contributes no row. */
  lemma {:induction false} NoReportableNoRows(e: Event, origins: seq<Origin>, time: real)
    requires forall j :: 0 <= j < |origins| ==> !Reportable(origins[j])
    ensures EventSimpleRows(e, origins, time) == []
    decreases |origins|
  {
    if |origins| > 0 {
      NoReportableNoRows(e, origins[1..], time);
      assert !Reportable(origins[0]);
    }
  }

  // ---------------------------------------------------------------------------
  // The origin and magnitude tables

  /** A row of the origin table (`DATAMAP`). */
  datatype OriginRow = OriginRow(
    eventId: string,
    originId: string,
    agency: string,
    year: int,
    month: int,
    day: int,
    hour: int,
    minute: int,
    second: real,
    timeError: real,
    longitude: real,
    latitude: real,
    depth: Num,
    depthSolution: Num,
    semimajor90: Num,
    semiminor90: Num,
    errorStrike: Num,
    depthError: real,
    prime: int)

  /** A row of the magnitude table (`MAGDATAMAP`). */
  datatype MagnitudeRow = MagnitudeRow(
    eventId: string,
    originId: string,
    magnitudeId: string,
    value: real,
    sigma: real,
    magType: string,
    magAgency: string)

  /**
    The origin-table row of one origin: a falsy time or depth error becomes
    0.0, a falsy semimajor axis zeroes the whole error ellipse, and the prime
    flag becomes 1 or 0. The depth-solution column receives the location's
    value as it is (the default computed for it is never used).
   */
  function OriginRowOf(e: Event, o: Origin): (row: OriginRow)
    ensures row.prime == 1 || row.prime == 0
    ensures row.prime == 1 <==> o.isPrime
    ensures !Truthy(o.timeError) ==> row.timeError == 0.0
    ensures Truthy(o.timeError) ==> row.timeError == o.timeError.value
    ensures !Truthy(o.location.depthError) ==> row.depthError == 0.0
    ensures Truthy(o.location.depthError) ==> row.depthError == o.location.depthError.value
    ensures !Truthy(o.location.semimajor90) ==>
              row.semimajor90 == Val(0.0) && row.semiminor90 == Val(0.0) && row.errorStrike == Val(0.0)
    ensures row.semimajor90 == Val(0.0) ==> row.semiminor90 == Val(0.0) && row.errorStrike == Val(0.0)
    ensures row.semimajor90 != NaN
    ensures Truthy(o.location.semimajor90) ==>
              row.semimajor90 == Val(o.location.semimajor90.value) && row.semiminor90 == NumOf(o.location.semiminor90) &&
              row.errorStrike == NumOf(o.location.errorStrike)
    ensures row.eventId == Truncate(e.id, 16) && row.originId == Truncate(o.id, 16) && row.agency == Truncate(o.author, 14)
    ensures row.second == Seconds(o.time) && 0.0 <= row.second < 60.0
    ensures row.year == o.date.year && row.month == o.date.month && row.day == o.date.day
    ensures row.hour == o.time.hour && row.minute == o.time.minute
    ensures row.longitude == o.location.longitude && row.latitude == o.location.latitude
    ensures row.depth == NumOf(o.location.depth) && row.depthSolution == NumOf(o.location.depthSolution)
  {
    var loc := o.location;
    var ellipse := Truthy(loc.semimajor90);
    OriginRow(
      Truncate(e.id, 16), Truncate(o.id, 16), Truncate(o.author, 14),
      o.date.year, o.date.month, o.date.day, o.time.hour, o.time.minute, Seconds(o.time),
      if Truthy(o.timeError) then o.timeError.value else 0.0,
      loc.longitude, loc.latitude, NumOf(loc.depth), NumOf(loc.depthSolution),
      if ellipse then Val(loc.semimajor90.value) else Val(0.0),
      if ellipse then NumOf(loc.semiminor90) else Val(0.0),
      if ellipse then NumOf(loc.errorStrike) else Val(0.0),
      if Truthy(loc.depthError) then loc.depthError.value else 0.0,
      if o.isPrime then 1 else 0)
  }

  /** The magnitude-table row of one event-level magnitude: a falsy sigma becomes 0.0. */
  function MagnitudeRowOf(m: Magnitude): (row: MagnitudeRow)
    ensures !Truthy(m.sigma) ==> row.sigma == 0.0
    ensures Truthy(m.sigma) ==> row.sigma == m.sigma.value
    ensures row.value == m.value
    ensures row.magnitudeId == Truncate(m.magnitudeId, 40)
    ensures row.eventId == Truncate(m.eventId, 12) && row.originId == Truncate(m.originId, 12)
    ensures row.magType == Truncate(m.scale, 6) && row.magAgency == Truncate(m.author, 14)
  {
    MagnitudeRow(
      Truncate(m.eventId, 12), Truncate(m.originId, 12), Truncate(m.magnitudeId, 40), m.value,
      if Truthy(m.sigma) then m.sigma.value else 0.0,
      Truncate(m.scale, 6), Truncate(m.author, 14))
  }

  /** The number of origins over all events: the size `get_origin_mag_tables` allocates. */
  function CountOrigins(events: seq<Event>): nat
  {
    if |events| == 0 then 0 else CountOrigins(events[..|events| - 1]) + |events[|events| - 1].origins|
  }

  /** The number of event-level magnitudes over all events. */
  function CountMagnitudes(events: seq<Event>): nat
  {
    if |events| == 0 then 0 else CountMagnitudes(events[..|events| - 1]) + |events[|events| - 1].magnitudes|
  }

  /** The rows of the first `n` origins of an event. */
  function EventOriginRows(e: Event, n: nat): (rows: seq<OriginRow>)
    requires n <= |e.origins|
    ensures |rows| == n
  {
    if n == 0 then [] else EventOriginRows(e, n - 1) + [OriginRowOf(e, e.origins[n - 1])]
  }

  /** Row `j` of an event's origins block is the row of its `j`-th origin. */
  lemma {:induction false} EventOriginRowsAt(e: Event, n: nat, j: int)
    requires n <= |e.origins| && 0 <= j < n
    ensures EventOriginRows(e, n)[j] == OriginRowOf(e, e.origins[j])
    decreases n
  {
    var init := EventOriginRows(e, n - 1);
    var last := [OriginRowOf(e, e.origins[n - 1])];
    if j < n - 1 {
      EventOriginRowsAt(e, n - 1, j);
      PrependAt(init, last, j);
    } else {
      AppendAt(init, last, 0);
    }
  }

  /** The rows of the first `n` magnitudes of an event. */
  function EventMagnitudeRows(e: Event, n: nat): (rows: seq<MagnitudeRow>)
    requires n <= |e.magnitudes|
    ensures |rows| == n
  {
    if n == 0 then [] else EventMagnitudeRows(e, n - 1) + [MagnitudeRowOf(e.magnitudes[n - 1])]
  }

  /** Row `j` of an event's magnitudes block is the row of its `j`-th magnitude. */
  lemma {:induction false} EventMagnitudeRowsAt(e: Event, n: nat, j: int)
    requires n <= |e.magnitudes| && 0 <= j < n
    ensures EventMagnitudeRows(e, n)[j] == MagnitudeRowOf(e.magnitudes[j])
    decreases n
  {
    var init := EventMagnitudeRows(e, n - 1);
    var last := [MagnitudeRowOf(e.magnitudes[n - 1])];
    if j < n - 1 {
      EventMagnitudeRowsAt(e, n - 1, j);
      PrependAt(init, last, j);
    } else {
      AppendAt(init, last, 0);
    }
  }

  /** The origin table: event by event, origin by origin. */
  function OriginTable(events: seq<Event>): (rows: seq<OriginRow>)
    ensures |rows| == CountOrigins(events)
  {
    if |events| == 0 then []
    else
      var last := events[|events| - 1];
      OriginTable(events[..|events| - 1]) + EventOriginRows(last, |last.origins|)
  }

  /** The magnitude table: event by event, one row per event-level magnitude. */
  function MagnitudeTable(events: seq<Event>): (rows: seq<MagnitudeRow>)
    ensures |rows| == CountMagnitudes(events)
  {
    if |events| == 0 then []
    else
      var last := events[|events| - 1];
      MagnitudeTable(events[..|events| - 1]) + EventMagnitudeRows(last, |last.magnitudes|)
  }

  /** Element `j` of the second part of a concatenation. */
  lemma AppendAt<T>(prefix: seq<T>, tail: seq<T>, j: int)
    requires 0 <= j < |tail|
    ensures (prefix + tail)[|prefix| + j] == tail[j]
  {
  }

  /**
    In a chain of tables where each one is the previous one followed by a
    block, row `j` of block `i` sits in every later table right after the
    rows of table `i`.
   */
  lemma {:induction false} ChainAt<R>(tables: seq<seq<R>>, blocks: seq<seq<R>>, n: int, i: int, j: int)
    requires |tables| == |blocks| + 1
    requires forall m {:trigger blocks[m]} :: 0 <= m < |blocks| ==> tables[m + 1] == tables[m] + blocks[m]
    requires 0 <= i < n <= |blocks| && 0 <= j < |blocks[i]|
    ensures |tables[i]| + j < |tables[n]| && tables[n][|tables[i]| + j] == blocks[i][j]
    decreases n
  {
    if i == n - 1 {
      AppendAt(tables[i], blocks[i], j);
    } else {
      ChainAt(tables, blocks, n - 1, i, j);
      PrependAt(tables[n - 1], blocks[n - 1], |tables[i]| + j);
    }
  }

  /** `ChainAt` read off in terms of the last table, the offset of block `i` and the row it holds. */
  lemma ChainRow<R>(tables: seq<seq<R>>, blocks: seq<seq<R>>, i: int, j: int, whole: seq<R>, start: int, row: R)
    requires |tables| == |blocks| + 1
    requires forall m {:trigger blocks[m]} :: 0 <= m < |blocks| ==> tables[m + 1] == tables[m] + blocks[m]
    requires 0 <= i < |blocks| && 0 <= j < |blocks[i]|
    requires whole == tables[|blocks|] && start == |tables[i]| && row == blocks[i][j]
    ensures start + j < |whole| && whole[start + j] == row
  {
    ChainAt(tables, blocks, |blocks|, i, j);
  }

  /** Element `k` of the first part of a concatenation. */
  lemma PrependAt<T>(prefix: seq<T>, tail: seq<T>, k: int)
    requires 0 <= k < |prefix|
    ensures (prefix + tail)[k] == prefix[k]
  {
  }

  /** The origin tables of every prefix of `events`, shortest first. */
  function OriginPrefixes(events: seq<Event>): (tables: seq<seq<OriginRow>>)
    ensures |tables| == |events| + 1
  {
    seq(|events| + 1, m requires 0 <= m <= |events| => OriginTable(events[..m]))
  }

  /** The origin block of every event, in order. */
  function OriginBlocks(events: seq<Event>): (blocks: seq<seq<OriginRow>>)
    ensures |blocks| == |events|
  {
    seq(|events|, k requires 0 <= k < |events| => EventOriginRows(events[k], |events[k].origins|))
  }

  /** Each prefix table is the previous one followed by the block of the event just added. */
  lemma OriginChain(events: seq<Event>)
    ensures forall m {:trigger OriginBlocks(events)[m]} :: 0 <= m < |events| ==>
      OriginPrefixes(events)[m + 1] == OriginPrefixes(events)[m] + OriginBlocks(events)[m]
  {
    var tables := OriginPrefixes(events);
    var blocks := OriginBlocks(events);
    forall m | 0 <= m < |events|
      ensures tables[m + 1] == tables[m] + blocks[m]
    {
      assert events[..m + 1][..m] == events[..m];
    }
  }

  /** Entry `j` of block `i` sits after the origins of all earlier events. */
  lemma OriginTableBlock(events: seq<Event>, i: int, j: int)
    requires 0 <= i < |events| && 0 <= j < |events[i].origins|
    ensures CountOrigins(events[..i]) + j < |OriginTable(events)|
    ensures OriginTable(events)[CountOrigins(events[..i]) + j] == OriginBlocks(events)[i][j]
  {
    OriginChain(events);
    assert events[..|events|] == events;
    ChainRow(OriginPrefixes(events), OriginBlocks(events), i, j, OriginTable(events), CountOrigins(events[..i]), OriginBlocks(events)[i][j]);
  }

  /** The row of origin `j` of event `i` sits after the origins of all earlier events. */
  lemma OriginTableAt(events: seq<Event>, i: int, j: int)
    requires 0 <= i < |events| && 0 <= j < |events[i].origins|
    ensures CountOrigins(events[..i]) + j < |OriginTable(events)|
    ensures OriginTable(events)[CountOrigins(events[..i]) + j] == OriginRowOf(events[i], events[i].origins[j])
  {
    OriginTableBlock(events, i, j);
    EventOriginRowsAt(events[i], |events[i].origins|, j);
  }

  /** The magnitude tables of every prefix of `events`, shortest first. */
  function MagnitudePrefixes(events: seq<Event>): (tables: seq<seq<MagnitudeRow>>)
    ensures |tables| == |events| + 1
  {
    seq(|events| + 1, m requires 0 <= m <= |events| => MagnitudeTable(events[..m]))
  }

  /** The magnitude block of every event, in order. */
  function MagnitudeBlocks(events: seq<Event>): (blocks: seq<seq<MagnitudeRow>>)
    ensures |blocks| == |events|
  {
    seq(|events|, k requires 0 <= k < |events| => EventMagnitudeRows(events[k], |events[k].magnitudes|))
  }

  /** Each prefix table is the previous one followed by the block of the event just added. */
  lemma MagnitudeChain(events: seq<Event>)
    ensures forall m {:trigger MagnitudeBlocks(events)[m]} :: 0 <= m < |events| ==>
      MagnitudePrefixes(events)[m + 1] == MagnitudePrefixes(events)[m] + MagnitudeBlocks(events)[m]
  {
    var tables := MagnitudePrefixes(events);
    var blocks := MagnitudeBlocks(events);
    forall m | 0 <= m < |events|
      ensures tables[m + 1] == tables[m] + blocks[m]
    {
      assert events[..m + 1][..m] == events[..m];
    }
  }

  /** Entry `j` of block `i` sits after the magnitudes of all earlier events. */
  lemma MagnitudeTableBlock(events: seq<Event>, i: int, j: int)
    requires 0 <= i < |events| && 0 <= j < |events[i].magnitudes|
    ensures CountMagnitudes(events[..i]) + j < |MagnitudeTable(events)|
    ensures MagnitudeTable(events)[CountMagnitudes(events[..i]) + j] == MagnitudeBlocks(events)[i][j]
  {
    MagnitudeChain(events);
    assert events[..|events|] == events;
    ChainRow(MagnitudePrefixes(events), MagnitudeBlocks(events), i, j, MagnitudeTable(events), CountMagnitudes(events[..i]), MagnitudeBlocks(events)[i][j]);
  }

  /** The row of magnitude `j` of event `i` sits after the magnitudes of all earlier events. */
  lemma MagnitudeTableAt(events: seq<Event>, i: int, j: int)
    requires 0 <= i < |events| && 0 <= j < |events[i].magnitudes|
    ensures CountMagnitudes(events[..i]) + j < |MagnitudeTable(events)|
    ensures MagnitudeTable(events)[CountMagnitudes(events[..i]) + j] == MagnitudeRowOf(events[i].magnitudes[j])
  {
    MagnitudeTableBlock(events, i, j);
    EventMagnitudeRowsAt(events[i], |events[i].magnitudes|, j);
  }

  /** The inner origin loop of `get_origin_mag_tables` for one event. */
  method BuildOriginRows(e: Event) returns (rows: seq<OriginRow>)
    ensures rows == EventOriginRows(e, |e.origins|)
  {
    rows := [];
    var j := 0;
    while j < |e.origins|
      invariant 0 <= j <= |e.origins|
      invariant rows == EventOriginRows(e, j)
    {
      rows := rows + [OriginRowOf(e, e.origins[j])];
      j := j + 1;
    }
  }

  /** The inner magnitude loop of `get_origin_mag_tables` for one event. */
  method BuildMagnitudeRows(e: Event) returns (rows: seq<MagnitudeRow>)
    ensures rows == EventMagnitudeRows(e, |e.magnitudes|)
  {
    rows := [];
    var j := 0;
    while j < |e.magnitudes|
      invariant 0 <= j <= |e.magnitudes|
      invariant rows == EventMagnitudeRows(e, j)
    {
      rows := rows + [MagnitudeRowOf(e.magnitudes[j])];
      j := j + 1;
    }
  }

  /**
    `get_origin_mag_tables`: fills the origin table and the magnitude table
    event by event, exactly as large as the counts taken beforehand.
   */
  method GetOriginMagTables(c: Catalogue) returns (origins: seq<OriginRow>, mags: seq<MagnitudeRow>)
    ensures origins == OriginTable(c.events) && |origins| == CountOrigins(c.events)
    ensures mags == MagnitudeTable(c.events) && |mags| == CountMagnitudes(c.events)
  {
    origins := [];
    mags := [];
    var i := 0;
    while i < |c.events|
      invariant 0 <= i <= |c.events|
      invariant origins == OriginTable(c.events[..i])
      invariant mags == MagnitudeTable(c.events[..i])
    {
      var e := c.events[i];
      var originRows := BuildOriginRows(e);
      var magnitudeRows := BuildMagnitudeRows(e);
      var done := c.events[..i + 1];
      assert done[..|done| - 1] == c.events[..i] && done[|done| - 1] == e;
      origins := origins + originRows;
      mags := mags + magnitudeRows;
      i := i + 1;
    }
    assert c.events[..|c.events|] == c.events;
  }
}
