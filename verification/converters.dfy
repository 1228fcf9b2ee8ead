/**
  Converters into the ISF catalogue: the column checks of the generic CSV
  parser (`_header_check`, `_float_check`, `_int_check`) and the conversion
  of a GCMT moment-tensor catalogue into an ISF catalogue
  (`GCMTtoISFParser.parse` and `from_catalogue`).

  The GCMT record is given as the fields the conversion reads; the NDK
  parser that fills it is not part of this model.
 */
module Converters {
  import opened Base
  import opened Text
  import opened Calendar
  import opened Catalogue
  import opened Tables

  // ---------------------------------------------------------------------------
  // Column checks of the generic CSV parser

  /** `_header_check`: the input keys that are catalogue attributes, in input order; the others are reported and dropped. */
  function HeaderCheck(inputKeys: seq<string>, catalogueKeys: seq<string>): (r: seq<string>)
    ensures |r| <= |inputKeys|
    ensures forall k :: k in r <==> k in inputKeys && k in catalogueKeys
  {
    if |inputKeys| == 0 then []
    else
      var rest := HeaderCheck(inputKeys[1..], catalogueKeys);
      assert forall k :: k in inputKeys <==> k == inputKeys[0] || k in inputKeys[1..];
      if inputKeys[0] in catalogueKeys then [inputKeys[0]] + rest else rest
  }

  /** The checked header keeps the relative order of the input: it is the input filtered by membership. */
  lemma {:induction false} HeaderCheckIsFilter(inputKeys: seq<string>, catalogueKeys: seq<string>)
    ensures HeaderCheck(inputKeys, catalogueKeys) == Filter(inputKeys, k => k in catalogueKeys)
  {
    if |inputKeys| > 0 {
      HeaderCheckIsFilter(inputKeys[1..], catalogueKeys);
    }
  }

  /** Checking an already checked header changes nothing. */
  lemma {:induction false} HeaderCheckIdempotent(inputKeys: seq<string>, catalogueKeys: seq<string>)
    ensures HeaderCheck(HeaderCheck(inputKeys, catalogueKeys), catalogueKeys) == HeaderCheck(inputKeys, catalogueKeys)
  {
    if |inputKeys| > 0 {
      HeaderCheckIdempotent(inputKeys[1..], catalogueKeys);
      var rest := HeaderCheck(inputKeys[1..], catalogueKeys);
      if inputKeys[0] in catalogueKeys {
        assert ([inputKeys[0]] + rest)[1..] == rest;
      }
    }
  }

  /** The cell `_float_check` appends for a value: `nan` when blank once spaces are stripped, else the number `float()` reads. */
  function FloatCell(value: string): (r: Result<Num>)
    ensures var v := Strip(value, {' '}); r.Err? <==> v != [] && PyFloat(v).Err?
    ensures r.Ok? ==> (r.value == NaN <==> Strip(value, {' '}) == [])
    ensures r.Ok? && Strip(value, {' '}) != [] ==> r.value == Val(PyFloat(Strip(value, {' '})).value)
  {
    var v := Strip(value, {' '});
    if v != [] then
      var x :- PyFloat(v);
      Ok(Val(x))
    else Ok(NaN)
  }

  /**
    `_float_check`: one cell appended per call, `nan` when the value is blank
    once spaces are stripped, otherwise the number `float()` reads; a value
    `float()` rejects raises.
   */
  function FloatCheck(column: seq<Num>, value: string): (r: Result<seq<Num>>)
    ensures var v := Strip(value, {' '}); r.Err? <==> v != [] && PyFloat(v).Err?
    ensures r.Ok? ==> |r.value| == |column| + 1 && r.value[..|column|] == column
    ensures r.Ok? ==> (r.value[|column|] == NaN <==> Strip(value, {' '}) == [])
    ensures r.Ok? && Strip(value, {' '}) != [] ==> r.value[|column|] == Val(PyFloat(Strip(value, {' '})).value)
  {
    var cell :- FloatCell(value);
    Ok(column + [cell])
  }

  /**
    `_int_check`: as `_float_check`, but the value must be an integer
    literal; numpy stores it as a float cell.
   */
  function IntCheck(column: seq<Num>, value: string): (r: Result<seq<Num>>)
    ensures var v := Strip(value, {' '}); r.Err? <==> v != [] && PyInt(v).Err?
    ensures r.Ok? ==> |r.value| == |column| + 1 && r.value[..|column|] == column
    ensures r.Ok? ==> (r.value[|column|] == NaN <==> Strip(value, {' '}) == [])
    ensures r.Ok? && Strip(value, {' '}) != [] ==> r.value[|column|] == Val(PyInt(Strip(value, {' '})).value as real)
  {
    var v := Strip(value, {' '});
    if v != [] then
      var x :- PyInt(v);
      Ok(column + [Val(x as real)])
    else Ok(column + [NaN])
  }

  /** Digits have no spaces to strip. */
  lemma RenderedUnspaced(n: nat)
    ensures Strip(NatToString(n), {' '}) == NatToString(n)
  {
    var d := NatToString(n);
    assert d[0] != ' ' && d[|d| - 1] != ' ' by {
      assert IsDigit(d[0]) && IsDigit(d[|d| - 1]);
    }
    StripSpaces(d, 0, 0, {' '});
    assert Repeat(' ', 0) + d + Repeat(' ', 0) == d;
  }

  /** A rendered whole number goes into a float column as that number. */
  lemma FloatCheckOfRendered(column: seq<Num>, n: nat)
    ensures FloatCheck(column, NatToString(n)) == Ok(column + [Val(n as real)])
  {
    RenderedUnspaced(n);
    PyFloatOfNat(n);
  }

  /** A rendered whole number goes into an integer column as that number. */
  lemma IntCheckOfRendered(column: seq<Num>, n: nat)
    ensures IntCheck(column, NatToString(n)) == Ok(column + [Val(n as real)])
  {
    RenderedUnspaced(n);
    assert IntToString(n) == NatToString(n);
    PyIntRoundTrip(n);
  }

  /** A blank field goes into either column as `nan`. */
  lemma ChecksOfBlank(column: seq<Num>, k: nat)
    ensures FloatCheck(column, Repeat(' ', k)) == Ok(column + [NaN])
    ensures IntCheck(column, Repeat(' ', k)) == Ok(column + [NaN])
  {
    assert Strip(Repeat(' ', k), {' '}) == [] by {
      assert forall i :: 0 <= i < k ==> Repeat(' ', k)[i] in {' '};
    }
  }

  // ---------------------------------------------------------------------------
  // GCMT to ISF

  /** The hypocentre of a GCMT solution, as the conversion reads it. */
  datatype GcmtHypocentre = GcmtHypocentre(
    date: Date,
    time: Time,
    longitude: real,
    latitude: real,
    depth: Option<real>,
    source: string,
    mb: Option<real>,
    ms: Option<real>,
    location: string)

  /** The centroid of a GCMT solution, as the conversion reads it. */
  datatype GcmtCentroid = GcmtCentroid(
    centroidId: string,
    date: Date,
    time: Time,
    longitude: real,
    latitude: real,
    depth: Option<real>,
    depthError: Option<real>,
    timeError: Option<real>)

  /** One GCMT solution: its identifier, hypocentre, centroid and moment magnitude. */
  datatype GcmtRecord = GcmtRecord(identifier: string, hypocentre: GcmtHypocentre, centroid: GcmtCentroid, magnitude: real)

  /** `cat_id + '_' + "%06d" % counter`. */
  function EventId(catId: string, counter: nat): (id: string)
    ensures |id| >= |catId| + 7 && id[..|catId|] == catId && id[|catId|] == '_'
  {
    catId + "_" + ZeroPad(counter, 6)
  }

  /** The counter can be read back from the id. */
  lemma EventIdCounter(catId: string, counter: nat)
    ensures DigitsValue(EventId(catId, counter)[|catId| + 1..]) == counter
  {
    assert EventId(catId, counter)[|catId| + 1..] == ZeroPad(counter, 6);
    ZeroPadRoundTrip(counter, 6);
  }

  /** Different counters give different ids. */
  lemma EventIdInjective(catId: string, i: nat, j: nat)
    requires i != j
    ensures EventId(catId, i) != EventId(catId, j)
  {
    EventIdCounter(catId, i);
    EventIdCounter(catId, j);
  }

  /** The hypocentre's magnitudes: `mb` when `m_b` is truthy, then `Ms` when `m_s` is, by the hypocentre's source. */
  function HypocentreMagnitudes(eventId: string, originId: string, h: GcmtHypocentre): (ms: seq<Magnitude>)
    ensures |ms| == (if Truthy(h.mb) then 1 else 0) + (if Truthy(h.ms) then 1 else 0)
    ensures forall k :: 0 <= k < |ms| ==>
              ms[k].eventId == eventId && ms[k].originId == originId && ms[k].author == h.source &&
              ms[k].sigma.None? && ms[k].stations.None?
    ensures Truthy(h.mb) ==> ms[0].scale == "mb" && ms[0].value == h.mb.value
    ensures Truthy(h.ms) ==> ms[|ms| - 1].scale == "Ms" && ms[|ms| - 1].value == h.ms.value
    ensures forall k :: 0 <= k < |ms| ==> ms[k].scale in {"mb", "Ms"}
  {
    (if Truthy(h.mb) then [MakeMagnitude(eventId, originId, h.mb.value, h.source, "mb", None, None)] else []) +
    (if Truthy(h.ms) then [MakeMagnitude(eventId, originId, h.ms.value, h.source, "Ms", None, None)] else [])
  }

  /**
    One GCMT solution as an ISF event: a prime hypocentre origin, with id the
    stripped GCMT identifier and its body-wave and surface-wave magnitudes,
    then a centroid origin, with that id plus `-C` and the moment magnitude
    (authored by the catalogue and keyed to the centroid identifier). The
    event lists the hypocentre magnitudes then the moment magnitude.
   */
  function ConvertRecord(catId: string, counter: nat, g: GcmtRecord): (e: Event)
    ensures e.id == EventId(catId, counter) && e.description == g.hypocentre.location
    ensures |e.origins| == 2
    ensures e.origins[0].id == Strip(g.identifier, {' '}) && e.origins[0].isPrime && !e.origins[0].isCentroid
    ensures e.origins[1].id == e.origins[0].id + "-C" && e.origins[1].isCentroid && !e.origins[1].isPrime
    ensures e.origins[0].author == g.hypocentre.source && e.origins[1].author == catId
    ensures e.origins[0].location.depth == g.hypocentre.depth && e.origins[1].location.depthError == g.centroid.depthError
    ensures e.origins[1].timeError == g.centroid.timeError
    ensures e.origins[0].magnitudes == HypocentreMagnitudes(e.id, e.origins[0].id, g.hypocentre)
    ensures e.origins[1].magnitudes == [MakeMagnitude(e.id, g.centroid.centroidId, g.magnitude, catId, "Mw", None, None)]
    ensures e.magnitudes == e.origins[0].magnitudes + e.origins[1].magnitudes
  {
    var eventId := EventId(catId, counter);
    var originId := Strip(g.identifier, {' '});
    var h := g.hypocentre;
    var c := g.centroid;
    var mw := MakeMagnitude(eventId, c.centroidId, g.magnitude, catId, "Mw", None, None);
    var hypoLoc := Location(originId, h.longitude, h.latitude, h.depth, None, None, None, None, None);
    var centroidLoc := Location(originId + "-C", c.longitude, c.latitude, c.depth, None, None, None, None, c.depthError);
    var hypo := Origin(originId, h.date, h.time, hypoLoc, h.source, true, false, None, None, None,
                       HypocentreMagnitudes(eventId, originId, h));
    var centroid := Origin(originId + "-C", c.date, c.time, centroidLoc, catId, false, true, c.timeError, None, None, [mw]);
    Event(eventId, h.location, [hypo, centroid], hypo.magnitudes + centroid.magnitudes)
  }

  /** `GCMTtoISFParser.parse`: one event per GCMT solution, numbered from 1 in catalogue order. */
  function Parse(catId: string, catName: string, records: seq<GcmtRecord>): (c: Catalogue)
    ensures c.id == catId && c.name == catName && |c.events| == |records|
    ensures forall i :: 0 <= i < |records| ==> c.events[i] == ConvertRecord(catId, i + 1, records[i])
  {
    Catalogue(catId, catName, seq(|records|, i requires 0 <= i < |records| => ConvertRecord(catId, i + 1, records[i])))
  }

  /** The events of a converted catalogue have pairwise distinct ids. */
  lemma ParseIdsDistinct(catId: string, catName: string, records: seq<GcmtRecord>, i: nat, j: nat)
    requires i < j < |records|
    ensures Parse(catId, catName, records).events[i].id != Parse(catId, catName, records).events[j].id
  {
    var events := Parse(catId, catName, records).events;
    forall k | 0 <= k < |events|
      ensures events[k].id == EventId(catId, k + 1)
    {
      ParseEventId(catId, catName, records, k);
    }
    NumberedIdsDistinct(events, catId, i, j);
  }

  /** Events numbered by position carry pairwise distinct ids. */
  lemma NumberedIdsDistinct(events: seq<Event>, catId: string, i: nat, j: nat)
    requires forall k :: 0 <= k < |events| ==> events[k].id == EventId(catId, k + 1)
    requires i < j < |events|
    ensures events[i].id != events[j].id
  {
    EventIdInjective(catId, i + 1, j + 1);
  }

  /** The event at position `i` is numbered `i + 1`. */
  lemma ParseEventId(catId: string, catName: string, records: seq<GcmtRecord>, i: nat)
    requires i < |records|
    ensures Parse(catId, catName, records).events[i].id == EventId(catId, i + 1)
  {
    var c := Parse(catId, catName, records);
    assert c.events[i] == ConvertRecord(catId, i + 1, records[i]);
  }

  /** `from_catalogue`: `None` for an empty GCMT catalogue, otherwise the converted catalogue. */
  function FromCatalogue(records: seq<GcmtRecord>, catId: string, catName: string): (r: Option<Catalogue>)
    ensures r.None? <==> |records| == 0
    ensures r.Some? ==> r.value.id == catId && r.value.name == catName && |r.value.events| == |records|
    ensures r.Some? ==> forall i :: 0 <= i < |records| ==> r.value.events[i] == ConvertRecord(catId, i + 1, records[i])
  {
    if |records| == 0 then None else Some(Parse(catId, catName, records))
  }

  /** For a converted event the hypocentre is the origin used for dating, and the magnitudes come from both origins. */
  lemma ConvertedSelectsHypocentre(catId: string, counter: nat, g: GcmtRecord)
    ensures SelectOrigin(ConvertRecord(catId, counter, g)) == Ok(ConvertRecord(catId, counter, g).origins[0])
  {
    var e := ConvertRecord(catId, counter, g);
    assert FirstPrime(e.origins) == 0;
  }

  /**
    A converted event gives one row of the simple array exactly when the
    hypocentre has a body-wave or surface-wave magnitude: the centroid is
    never prime.
   */
  lemma ConvertedReportable(catId: string, counter: nat, g: GcmtRecord)
    ensures var e := ConvertRecord(catId, counter, g);
      ReportableOrigins(e.origins) == if Truthy(g.hypocentre.mb) || Truthy(g.hypocentre.ms) then [e.origins[0]] else []
  {
    var e := ConvertRecord(catId, counter, g);
    assert e.origins[1..] == [e.origins[1]];
    assert ReportableOrigins(e.origins[1..]) == [] by {
      assert e.origins[1..][1..] == [];
    }
  }
}
