/**
  The reader of ISF bulletins (the International Seismological Centre's
  fixed-column text format): record builders that turn one line into an
  event header, an origin or a magnitude, and the line-driven state machine
  of `ISFReader.read_file`, modelled as a fold over the lines of the file.

  Lines are given as the file's raw lines, each possibly ending in `\n`.
  The module refers to the stripping field decoder as `_to_str`, which the
  reader calls although its import names `_to_string`; the model gives the
  calls the decoder's behaviour rather than Python's `NameError`.
 */
module IsfReader {
  import opened Base
  import opened Text
  import opened Decoders
  import opened Calendar
  import opened Catalogue

  /** The header line that opens the origin block of an event (136 characters). */
  const OriginHeader: string :=
    "   Date       Time        Err   RMS Latitude Longitude  Smaj  Smin  Az Depth   Err Ndef Nsta Gap  mdist  Mdist Qual   Author      OrigID"

  /** The header line that opens the magnitude block of an event (38 characters). */
  const MagnitudeHeader: string := "Magnitude  Err Nsta Author      OrigID"

  /** The length of an origin line. */
  const OriginLineLength := 136

  /** The length of a magnitude line. */
  const MagnitudeLineLength := 38

  /** The headers are exactly as long as the lines they announce. */
  lemma HeaderLengths()
    ensures |OriginHeader| == OriginLineLength && |MagnitudeHeader| == MagnitudeLineLength
  {
  }

  /** A line-end character, as stripped by `rstrip('\n')` and `strip('\n')`. */
  const Newline: set<char> := {'\n'}

  /** An agency passes the allow-list when the list is empty or names it. */
  predicate Selected(author: string, agencies: seq<string>)
  {
    |agencies| == 0 || author in agencies
  }

  // ---------------------------------------------------------------------------
  // Record builders

  /**
    `get_event_header_row`: the second whitespace token is the event id and
    the remaining tokens, joined by single spaces, the description; a line
    with fewer than two tokens raises.
   */
  function GetEventHeaderRow(row: string): (r: Result<Event>)
    ensures r.Err? <==> |Tokens(row)| < 2
    ensures r.Ok? ==> r.value.id == Tokens(row)[1] && r.value.description == Join(Tokens(row)[2..], " ")
    ensures r.Ok? ==> r.value.origins == [] && r.value.magnitudes == []
  {
    var tokens := Tokens(row);
    if |tokens| < 2 then Err(IndexError)
    else Ok(Event(tokens[1], Join(tokens[2..], " "), [], []))
  }

  /** A header written as a tag, an id and description words, single-spaced, reads back as that event. */
  lemma HeaderRoundTrip(tag: string, id: string, words: seq<string>)
    requires IsToken(tag) && IsToken(id)
    requires forall i :: 0 <= i < |words| ==> IsToken(words[i])
    ensures GetEventHeaderRow(Join([tag, id] + words, " ")) == Ok(Event(id, Join(words, " "), [], []))
  {
    var ts := [tag, id] + words;
    forall i | 0 <= i < |ts| ensures IsToken(ts[i]) {
      if i >= 2 {
        assert ts[i] == words[i - 2];
      }
    }
    var row := Join(ts, " ");
    TokensOfSpaced(ts);
    assert Tokens(row) == ts;
    assert ts[1] == id && ts[2..] == words;
  }

  /** `int()` applied to every part, in order, as `map(int, parts)` does; the first failure raises. */
  function ParseInts(parts: seq<string>): (r: Result<seq<int>>)
    ensures r.Err? <==> exists i :: 0 <= i < |parts| && PyInt(parts[i]).Err?
    ensures r.Ok? ==> |r.value| == |parts| && forall i :: 0 <= i < |parts| ==> PyInt(parts[i]) == Ok(r.value[i])
  {
    if |parts| == 0 then Ok([])
    else
      match PyInt(parts[0])
      case Err(e) => Err(e)
      case Ok(head) =>
        var rest := ParseInts(parts[1..]);
        MapResultsCons(PyInt, parts, head, rest);
        if rest.Err? then Err(rest.error) else Ok([head] + rest.value)
  }

  /**
    The time of day in `get_time_from_str`: hours and minutes from the first
    two `:`-separated parts, the seconds from the third, split into whole
    seconds and truncated microseconds; a missing part raises.
   */
  function TimeOfFields(hms: seq<string>): (r: Result<Time>)
    requires |hms| >= 1
    ensures r.Ok? ==> |hms| >= 3 && PyInt(hms[0]) == Ok(r.value.hour) && PyInt(hms[1]) == Ok(r.value.minute)
    ensures r.Ok? ==> (PyFloat(hms[2]).Ok? &&
                       var lost := PyFloat(hms[2]).value - Seconds(r.value);
                       0.0 <= lost < 0.000001)
  {
    var hours :- PyInt(hms[0]);
    if |hms| < 2 then Err(IndexError)
    else
      var minutes :- PyInt(hms[1]);
      if |hms| < 3 then Err(IndexError)
      else
        var secs :- PyFloat(hms[2]);
        TimeOfSeconds(hours, minutes, secs)
  }

  /** The time of day from parsed hours, minutes and seconds: whole seconds and truncated microseconds. */
  function TimeOfSeconds(hours: int, minutes: int, secs: real): (r: Result<Time>)
    ensures r.Ok? ==> r.value.hour == hours && r.value.minute == minutes
    ensures r.Ok? ==> 0.0 <= secs - Seconds(r.value) < 0.000001
  {
    var seconds := secs.Floor;
    var microseconds := ((secs - seconds as real) * 1000000.0).Floor;
    MakeTime(hours, minutes, seconds, microseconds)
  }

  /**
    `get_time_from_str`: the time of day from columns 11-21, and the time and
    RMS errors from columns 24-28 and 30-34 (`None` when blank or malformed).
   */
  function GetTimeFromStr(row: string): (r: Result<(Time, Option<real>, Option<real>)>)
    ensures r.Ok? <==> TimeOfFields(Split(PySlice(row, 11, 22), ':')).Ok?
    ensures r.Ok? ==> r.value.0 == TimeOfFields(Split(PySlice(row, 11, 22), ':')).value
    ensures r.Ok? ==> r.value.1 == ToFloat(PySlice(row, 24, 29)) && r.value.2 == ToFloat(PySlice(row, 30, 35))
  {
    var timeError := ToFloat(PySlice(row, 24, 29));
    var timeRms := ToFloat(PySlice(row, 30, 35));
    var time :- TimeOfFields(Split(PySlice(row, 11, 22), ':'));
    Ok((time, timeError, timeRms))
  }

  /** The rendered parts of a time hold no colon, so splitting their join gives them back. */
  lemma SplitTimeParts(h: nat, m: nat, s: nat)
    ensures var parts := [NatToString(h), NatToString(m), NatToString(s)];
      Split(Join(parts, ":"), ':') == parts
  {
    SplitDigitTriple(NatToString(h), NatToString(m), NatToString(s));
  }

  /** Three strings of digits joined by colons split back into themselves. */
  lemma SplitDigitTriple(a: string, b: string, c: string)
    requires AllDigits(a) && AllDigits(b) && AllDigits(c)
    ensures Split(Join([a, b, c], ":"), ':') == [a, b, c]
  {
    var parts := [a, b, c];
    NoColonInDigits(a);
    NoColonInDigits(b);
    NoColonInDigits(c);
    assert forall i :: 0 <= i < |parts| ==> ':' !in parts[i];
    SplitJoin(parts, ':');
  }

  lemma NoColonInDigits(d: string)
    requires AllDigits(d)
    ensures ':' !in d
  {
    forall k | 0 <= k < |d|
      ensures d[k] != ':'
    {
      assert IsDigit(d[k]);
    }
  }

  /** Whole hours, minutes and seconds in range read back as that time, with no microseconds. */
  lemma TimeOfRenderedFields(h: nat, m: nat, s: nat)
    requires ValidTime(h, m, s, 0)
    ensures TimeOfFields([NatToString(h), NatToString(m), NatToString(s)]) == Ok(Hms(h, m, s, 0))
  {
    var parts := [NatToString(h), NatToString(m), NatToString(s)];
    assert PyInt(parts[0]) == Ok(h) by {
      assert IntToString(h) == parts[0];
      PyIntRoundTrip(h);
    }
    assert PyInt(parts[1]) == Ok(m) by {
      assert IntToString(m) == parts[1];
      PyIntRoundTrip(m);
    }
    PyFloatOfNat(s);
    TimeOfParsedFields(parts, h, m, s as real);
    TimeOfWholeSeconds(h, m, s);
  }

  /** Whole seconds carry no microseconds. */
  lemma TimeOfWholeSeconds(h: nat, m: nat, s: nat)
    requires ValidTime(h, m, s, 0)
    ensures TimeOfSeconds(h, m, s as real) == Ok(Hms(h, m, s, 0))
  {
    assert (s as real).Floor == s;
    assert ((s as real - s as real) * 1000000.0).Floor == 0;
  }

  /** The time of three parts that read as `h`, `m` and `secs`. */
  lemma TimeOfParsedFields(hms: seq<string>, h: int, m: int, secs: real)
    requires |hms| >= 3 && PyInt(hms[0]) == Ok(h) && PyInt(hms[1]) == Ok(m) && PyFloat(hms[2]) == Ok(secs)
    ensures TimeOfFields(hms) == TimeOfSeconds(h, m, secs)
  {
  }

  /** A time written `h:m:s` in whole numbers reads back as that time of day. */
  lemma TimeRoundTrip(row: string, h: nat, m: nat, s: nat)
    requires ValidTime(h, m, s, 0)
    requires PySlice(row, 11, 22) == Join([NatToString(h), NatToString(m), NatToString(s)], ":")
    ensures GetTimeFromStr(row).Ok? && GetTimeFromStr(row).value.0 == Hms(h, m, s, 0)
  {
    SplitTimeParts(h, m, s);
    TimeOfRenderedFields(h, m, s);
  }

  /**
    `get_origin_metadata`: phase and station counts, azimuthal gap and
    distances from their columns, and the one-letter flags at columns 22,
    54, 111 and 113 and the event type at 115-116; indexing a line shorter
    than 114 characters raises.
   */
  function GetOriginMetadata(row: string): (r: Result<Metadata>)
    ensures r.Err? <==> |row| < 114
    ensures r.Ok? ==> r.value.nPhases == ToInt(row[83..87]) && r.value.nStations == ToInt(row[88..92])
    ensures r.Ok? ==> r.value.azimuthGap == ToFloat(row[93..96]) && r.value.minDist == ToFloat(row[97..103])
    ensures r.Ok? ==> r.value.maxDist == ToFloat(row[104..110])
    ensures r.Ok? ==> |r.value.fixedTime| <= 1 && |r.value.depthSolution| <= 1
    ensures r.Ok? ==> |r.value.analysisType| <= 1 && |r.value.locationMethod| <= 1 && |r.value.eventType| <= 2
  {
    if |row| < 114 then Err(IndexError)
    else
      Ok(Metadata(
        ToInt(PySlice(row, 83, 87)), ToInt(PySlice(row, 88, 92)),
        ToFloat(PySlice(row, 93, 96)), ToFloat(PySlice(row, 97, 103)), ToFloat(PySlice(row, 104, 110)),
        ToStr([row[22]]), ToStr([row[54]]), ToStr([row[111]]), ToStr([row[113]]),
        ToStr(PySlice(row, 115, 117))))
  }

  /**
    The `Location` the reader builds. Its arguments are passed by position
    one slot off: the semimajor axis lands in `depthSolution`, each later
    value one field early, and the depth error is left `None`.
   */
  function ReaderLocation(originId: string, longitude: real, latitude: real, depth: Option<real>,
                          semimajor90: Option<real>, semiminor90: Option<real>,
                          errorStrike: Option<real>, depthError: Option<real>): (loc: Location)
    ensures loc.depthSolution == semimajor90 && loc.semimajor90 == semiminor90
    ensures loc.semiminor90 == errorStrike && loc.errorStrike == depthError
    ensures loc.depthError.None?
    ensures loc.originId == originId && loc.longitude == longitude && loc.latitude == latitude && loc.depth == depth
  {
    Location(originId, longitude, latitude, depth, semimajor90, semiminor90, errorStrike, depthError, None)
  }

  /**
    `get_event_origin_row`: `None` when the allow-list is non-empty and the
    author (columns 118-126) is not on it; otherwise the origin whose id is
    the text from column 128, dated from the `/`-separated columns 0-9 and
    located from the fixed columns, or the error a malformed field raises.
   */
  function GetEventOriginRow(row: string, agencies: seq<string>): (r: Result<Option<Origin>>)
    ensures (r.Ok? && r.value.None?) <==> !Selected(ToStr(PySlice(row, 118, 127)), agencies)
    ensures r.Ok? && r.value.Some? ==>
              var o := r.value.value;
              o.id == ToStr(PySlice(row, 128, |row|)) && o.author == ToStr(PySlice(row, 118, 127)) &&
              o.location.originId == o.id && !o.isPrime && !o.isCentroid && o.magnitudes == [] &&
              o.metadata.Some?
    ensures r.Ok? && r.value.Some? ==>
              var loc := r.value.value.location;
              PyFloat(PySlice(row, 36, 44)) == Ok(loc.latitude) && PyFloat(PySlice(row, 45, 54)) == Ok(loc.longitude) &&
              loc.depth == ToFloat(PySlice(row, 71, 76)) && loc.depthSolution == ToFloat(PySlice(row, 55, 60)) &&
              loc.depthError.None?
    ensures r.Ok? && r.value.Some? ==>
              var d := r.value.value.date;
              ParseInts(Split(PySlice(row, 0, 10), '/')).Ok? &&
              var ymd := ParseInts(Split(PySlice(row, 0, 10), '/')).value;
              |ymd| >= 3 && d == Ymd(ymd[0], ymd[1], ymd[2])
  {
    var originId := ToStr(PySlice(row, 128, |row|));
    var author := ToStr(PySlice(row, 118, 127));
    if !Selected(author, agencies) then Ok(None)
    else
      var ymd :- ParseInts(Split(PySlice(row, 0, 10), '/'));
      if |ymd| < 3 then Err(IndexError)
      else
        var date :- MakeDate(ymd[0], ymd[1], ymd[2]);
        var time :- GetTimeFromStr(row);
        var latitude :- PyFloat(PySlice(row, 36, 44));
        var longitude :- PyFloat(PySlice(row, 45, 54));
        var semimajor90 := ToFloat(PySlice(row, 55, 60));
        var semiminor90 := ToFloat(PySlice(row, 61, 66));
        var errorStrike := ToFloat(PySlice(row, 67, 70));
        var depth := ToFloat(PySlice(row, 71, 76));
        var depthError := ToFloat(PySlice(row, 78, 82));
        var location := ReaderLocation(originId, longitude, latitude, depth, semimajor90, semiminor90, errorStrike, depthError);
        var metadata :- GetOriginMetadata(row);
        Ok(Some(NewOrigin(originId, date, time.0, location, author, time.1, time.2, Some(metadata))))
  }

  /**
    The remaining columns of a selected origin line: the time and its error
    and RMS from `get_time_from_str`, the three ellipse slots (shifted as the
    `Location` call passes them) and the metadata.
   */
  lemma GetEventOriginRowColumns(row: string, agencies: seq<string>)
    requires GetEventOriginRow(row, agencies).Ok? && GetEventOriginRow(row, agencies).value.Some?
    ensures var o := GetEventOriginRow(row, agencies).value.value;
              GetTimeFromStr(row).Ok? && o.time == GetTimeFromStr(row).value.0 &&
              o.timeError == GetTimeFromStr(row).value.1 && o.timeRms == GetTimeFromStr(row).value.2
    ensures var loc := GetEventOriginRow(row, agencies).value.value.location;
              loc.semimajor90 == ToFloat(PySlice(row, 61, 66)) && loc.semiminor90 == ToFloat(PySlice(row, 67, 70)) &&
              loc.errorStrike == ToFloat(PySlice(row, 78, 82))
    ensures GetOriginMetadata(row).Ok? &&
              GetEventOriginRow(row, agencies).value.value.metadata == Some(GetOriginMetadata(row).value)
  {
    var ymd := ParseInts(Split(PySlice(row, 0, 10), '/')).value;
    var date := MakeDate(ymd[0], ymd[1], ymd[2]);
    var time := GetTimeFromStr(row);
    var latitude := PyFloat(PySlice(row, 36, 44));
    var longitude := PyFloat(PySlice(row, 45, 54));
    var metadata := GetOriginMetadata(row);
    assert date.Ok? && time.Ok? && latitude.Ok? && longitude.Ok? && metadata.Ok?;
    var originId := ToStr(PySlice(row, 128, |row|));
    var location := ReaderLocation(originId, longitude.value, latitude.value, ToFloat(PySlice(row, 71, 76)),
                                   ToFloat(PySlice(row, 55, 60)), ToFloat(PySlice(row, 61, 66)),
                                   ToFloat(PySlice(row, 67, 70)), ToFloat(PySlice(row, 78, 82)));
    assert GetEventOriginRow(row, agencies) ==
      Ok(Some(NewOrigin(originId, date.value, time.value.0, location, ToStr(PySlice(row, 118, 127)),
                        time.value.1, time.value.2, Some(metadata.value))));
  }

  /**
    `get_event_magnitude`: `None` when the allow-list is non-empty and the
    author (columns 20-28, spaces stripped) is not on it; otherwise the
    magnitude of scale columns 0-4, value 6-9, error 11-13, station count
    15-18 and origin id from column 30. A blank value raises, as the
    magnitude identifier cannot be formatted.
   */
  function GetEventMagnitude(row: string, eventId: string, agencies: seq<string>): (r: Result<Option<Magnitude>>)
    ensures (r.Ok? && r.value.None?) <==> !Selected(Strip(PySlice(row, 20, 29), {' '}), agencies)
    ensures r.Err? <==> Selected(Strip(PySlice(row, 20, 29), {' '}), agencies) && ToFloat(PySlice(row, 6, 10)).None?
    ensures r.Ok? && r.value.Some? ==>
              var m := r.value.value;
              m.eventId == eventId && m.originId == ToStr(PySlice(row, 30, |row|)) &&
              m.author == Strip(PySlice(row, 20, 29), {' '}) &&
              Some(m.value) == ToFloat(PySlice(row, 6, 10)) &&
              m.sigma == ToFloat(PySlice(row, 11, 14)) && m.stations == ToInt(PySlice(row, 15, 19))
    ensures r.Ok? && r.value.Some? ==>
              var scale := Strip(PySlice(row, 0, 5), {' '});
              r.value.value.scale == if scale == [] then "UK" else scale
  {
    var originId := ToStr(PySlice(row, 30, |row|));
    var author := Strip(PySlice(row, 20, 29), {' '});
    if !Selected(author, agencies) then Ok(None)
    else
      var sigma := ToFloat(PySlice(row, 11, 14));
      var stations := ToInt(PySlice(row, 15, 19));
      var m :- NewMagnitude(eventId, originId, ToFloat(PySlice(row, 6, 10)), author,
                            Some(Strip(PySlice(row, 0, 5), {' '})), sigma, stations);
      Ok(Some(m))
  }

  /** A number right-aligned in a field of spaces strips to its digits. */
  lemma PaddedNatStrip(field: string, n: nat, w: nat)
    requires field == PadLeft(NatToString(n), w)
    ensures Strip(field, Whitespace) == NatToString(n) == Strip(NatToString(n), Whitespace)
  {
    var d := NatToString(n);
    var k := if |d| < w then w - |d| else 0;
    assert d[0] !in Whitespace && d[|d| - 1] !in Whitespace by {
      assert IsDigit(d[0]) && IsDigit(d[|d| - 1]);
    }
    assert field == Repeat(' ', k) + d + Repeat(' ', 0) by {
      assert Repeat(' ', 0) == [];
      assert d + [] == d;
    }
    StripSpaces(d, k, 0, Whitespace);
    NatStringUnpadded(n);
  }

  /** A number right-aligned in a field of spaces decodes to itself. */
  lemma PaddedNatField(field: string, n: nat, w: nat)
    requires field == PadLeft(NatToString(n), w)
    ensures ToFloat(field) == Some(n as real) && ToInt(field) == Some(n)
  {
    var d := NatToString(n);
    PaddedNatStrip(field, n, w);
    PyFloatOfStripped(field, d);
    PyFloatOfNat(n);
    assert PyFloat(field) == Ok(n as real);
    PyIntOfStripped(field, d);
    assert IntToString(n) == d;
    PyIntRoundTrip(n);
    assert PyInt(field) == Ok(n);
  }

  /** A text left-aligned in a field of spaces strips back to itself. */
  lemma PaddedTextField(field: string, t: string, w: nat, cs: set<char>)
    requires ' ' in cs && cs <= Whitespace
    requires field == PadRight(t, w) && t != [] && t[0] !in Whitespace && t[|t| - 1] !in Whitespace
    ensures Strip(field, cs) == t
  {
    StripSpaces(t, 0, if |t| < w then w - |t| else 0, cs);
    assert field == Repeat(' ', 0) + t + Repeat(' ', if |t| < w then w - |t| else 0);
  }

  /**
    A magnitude line laid out in the columns the reader expects, with whole
    numbers for value, error and station count, reads back as the magnitude
    it describes.
   */
  lemma MagnitudeLineRoundTrip(row: string, eventId: string, agencies: seq<string>,
                               scale: string, value: nat, sigma: nat, stations: nat, author: string, originId: string)
    requires |row| == MagnitudeLineLength
    requires row[0..5] == PadRight(scale, 5) && row[6..10] == PadLeft(NatToString(value), 4)
    requires row[11..14] == PadLeft(NatToString(sigma), 3) && row[15..19] == PadLeft(NatToString(stations), 4)
    requires row[20..29] == PadRight(author, 9) && row[30..38] == PadRight(originId, 8)
    requires scale != [] && scale[0] !in Whitespace && scale[|scale| - 1] !in Whitespace
    requires author != [] && author[0] !in Whitespace && author[|author| - 1] !in Whitespace
    requires originId != [] && originId[0] !in Whitespace && originId[|originId| - 1] !in Whitespace
    requires Selected(author, agencies)
    ensures GetEventMagnitude(row, eventId, agencies) ==
              Ok(Some(MakeMagnitude(eventId, originId, value as real, author, scale, Some(sigma as real), Some(stations))))
  {
    MagnitudeColumns(row, scale, value, sigma, stations, author, originId);
    var r := GetEventMagnitude(row, eventId, agencies);
    assert r.Ok? && r.value.Some?;
  }

  /** The fields of a magnitude line laid out in the expected columns decode to the values written there. */
  lemma MagnitudeColumns(row: string, scale: string, value: nat, sigma: nat, stations: nat, author: string, originId: string)
    requires |row| == MagnitudeLineLength
    requires row[0..5] == PadRight(scale, 5) && row[6..10] == PadLeft(NatToString(value), 4)
    requires row[11..14] == PadLeft(NatToString(sigma), 3) && row[15..19] == PadLeft(NatToString(stations), 4)
    requires row[20..29] == PadRight(author, 9) && row[30..38] == PadRight(originId, 8)
    requires scale != [] && scale[0] !in Whitespace && scale[|scale| - 1] !in Whitespace
    requires author != [] && author[0] !in Whitespace && author[|author| - 1] !in Whitespace
    requires originId != [] && originId[0] !in Whitespace && originId[|originId| - 1] !in Whitespace
    ensures Strip(PySlice(row, 0, 5), {' '}) == scale && Strip(PySlice(row, 20, 29), {' '}) == author
    ensures ToFloat(PySlice(row, 6, 10)) == Some(value as real)
    ensures ToFloat(PySlice(row, 11, 14)) == Some(sigma as real) && ToInt(PySlice(row, 15, 19)) == Some(stations)
    ensures ToStr(PySlice(row, 30, |row|)) == originId
  {
    TextColumn(row, 0, 5, scale, {' '});
    NatColumn(row, 6, 10, value);
    NatColumn(row, 11, 14, sigma);
    NatColumn(row, 15, 19, stations);
    TextColumn(row, 20, 29, author, {' '});
    TextColumn(row, 30, |row|, originId, Whitespace);
  }

  /** Columns `[i, j)` holding a right-aligned whole number decode to it. */
  lemma NatColumn(row: string, i: nat, j: nat, n: nat)
    requires i <= j <= |row| && row[i..j] == PadLeft(NatToString(n), j - i)
    ensures ToFloat(PySlice(row, i, j)) == Some(n as real) && ToInt(PySlice(row, i, j)) == Some(n)
  {
    PaddedNatField(row[i..j], n, j - i);
  }

  /** Columns `[i, j)` holding a left-aligned text strip to it. */
  lemma TextColumn(row: string, i: nat, j: nat, t: string, cs: set<char>)
    requires ' ' in cs && cs <= Whitespace
    requires i <= j <= |row| && row[i..j] == PadRight(t, j - i)
    requires t != [] && t[0] !in Whitespace && t[|t| - 1] !in Whitespace
    ensures Strip(PySlice(row, i, j), cs) == t
  {
    PaddedTextField(row[i..j], t, j - i, cs);
  }

  // ---------------------------------------------------------------------------
  // The line-driven reader

  /** The event being read, with the origins and magnitudes gathered for it so far. */
  datatype Block = Block(event: Event, origins: seq<Origin>, magnitudes: seq<Magnitude>)

  /**
    The reader's state between lines: the catalogue's events so far, the
    current block (absent until the first `Event` line) and the two section
    flags.
   */
  datatype ReaderState = ReaderState(events: seq<Event>, current: Option<Block>, isOrigin: bool, isMagnitude: bool)

  /** The state before the first line. */
  const Start := ReaderState([], None, false, false)

  /** `origins[-1].is_prime = True` on a non-empty list; nothing on an empty one. */
  function MarkLast(origins: seq<Origin>, prime: bool): (r: seq<Origin>)
    ensures |r| == |origins|
    ensures |origins| > 0 ==> r[..|r| - 1] == origins[..|origins| - 1]
    ensures |origins| > 0 && prime ==> r[|r| - 1] == origins[|origins| - 1].(isPrime := true)
    ensures |origins| > 0 && !prime ==> r[|r| - 1] == origins[|origins| - 1].(isCentroid := true)
    ensures |origins| == 0 ==> r == []
  {
    if |origins| == 0 then []
    else
      var last := origins[|origins| - 1];
      origins[..|origins| - 1] + [if prime then last.(isPrime := true) else last.(isCentroid := true)]
  }

  /** An event as the reader adds it to the catalogue: with at least one origin and one magnitude. */
  predicate Assembled(e: Event)
  {
    |e.origins| > 0 && |e.magnitudes| > 0
  }

  /** Closing a block: its event, with magnitudes assigned to origins, is added only when it has both. */
  function Flush(events: seq<Event>, b: Block): (r: seq<Event>)
    ensures |b.origins| > 0 && |b.magnitudes| > 0 ==> |r| == |events| + 1 && r[..|events|] == events && Assembled(r[|events|])
    ensures |b.origins| > 0 && |b.magnitudes| > 0 ==>
              r[|events|] == AssignMagnitudesToOrigins(b.event.(origins := b.origins, magnitudes := b.magnitudes)).0
    ensures !(|b.origins| > 0 && |b.magnitudes| > 0) ==> r == events
  {
    if |b.origins| > 0 && |b.magnitudes| > 0 then
      events + [AssignMagnitudesToOrigins(b.event.(origins := b.origins, magnitudes := b.magnitudes)).0]
    else events
  }

  /** A line the reader treats as the start of a new event. */
  predicate IsEventLine(row: string)
  {
    RStrip(row, Newline) != [] && !Contains(row, "(#PRIME)") && !Contains(row, "(#CENTROID)") && Contains(row, "Event")
  }

  /** A `(#PRIME)` or `(#CENTROID)` line: marks the last origin of the current block. */
  function MarkerLine(st: ReaderState, prime: bool): (r: Result<ReaderState>)
    ensures r.Ok? <==> st.current.Some?
    ensures r.Ok? ==> r.value.events == st.events && r.value.current.Some?
  {
    match st.current
    case None => Err(UnboundLocal("origins"))
    case Some(b) => Ok(st.(current := Some(b.(origins := MarkLast(b.origins, prime)))))
  }

  /** An `Event` line: closes the current block and opens a new one for the event of the header. */
  function EventLine(st: ReaderState, line: string): (r: Result<ReaderState>)
    ensures r.Ok? ==> r.value.events == (if st.current.Some? then Flush(st.events, st.current.value) else st.events)
    ensures r.Ok? ==> r.value.current.Some?
  {
    var events := match st.current case None => st.events case Some(b) => Flush(st.events, b);
    var event :- GetEventHeaderRow(line);
    Ok(st.(events := events, current := Some(Block(event, [], []))))
  }

  /** A magnitude line: its magnitude, when its agency is selected, joins the current block. */
  function MagnitudeLine(st: ReaderState, row: string, agencies: seq<string>): (r: Result<ReaderState>)
    ensures st.current.None? ==> r.Err?
    ensures r.Ok? ==> r.value.events == st.events && r.value.current.Some?
  {
    match st.current
    case None => Err(UnboundLocal("Event"))
    case Some(b) =>
      var mag :- GetEventMagnitude(row, b.event.id, agencies);
      if mag.None? then Ok(st)
      else Ok(st.(current := Some(b.(magnitudes := b.magnitudes + [mag.value]))))
  }

  /** An origin line: its origin, when its agency is selected, joins the current block. */
  function OriginLine(st: ReaderState, row: string, agencies: seq<string>): (r: Result<ReaderState>)
    ensures r.Ok? ==> r.value.events == st.events && (r.value.current.Some? <==> st.current.Some?)
  {
    var orig :- GetEventOriginRow(row, agencies);
    if orig.None? then Ok(st)
    else
      match st.current
      case None => Err(UnboundLocal("origins"))
      case Some(b) => Ok(st.(current := Some(b.(origins := b.origins + [orig.value]))))
  }

  /**
    One iteration of `read_file`'s loop. The tests run in the source's order:
    blank line, prime marker, centroid marker, `Event` line, the two section
    headers, then a magnitude line (magnitude section, 38 characters) or an
    origin line (origin section, 136 characters); any other line is skipped.
    Touching the current block before the first `Event` line fails as an
    unbound local variable would. Only an `Event` line changes the events,
    and only by flushing the current block.
   */
  function Step(st: ReaderState, row: string, originAgencies: seq<string>, magnitudeAgencies: seq<string>): (r: Result<ReaderState>)
    ensures r.Ok? ==> r.value.events == st.events ||
                      (IsEventLine(row) && st.current.Some? && r.value.events == Flush(st.events, st.current.value))
    ensures r.Ok? && !IsEventLine(row) ==> r.value.events == st.events && (st.current.Some? <==> r.value.current.Some?)
    ensures r.Ok? && IsEventLine(row) ==> r.value.current.Some?
  {
    var line := RStrip(row, Newline);
    if line == [] then Ok(st)
    else if Contains(row, "(#PRIME)") || Contains(row, "(#CENTROID)") then MarkerLine(st, Contains(row, "(#PRIME)"))
    else if Contains(row, "Event") then EventLine(st, line)
    else if line == OriginHeader then Ok(st.(isOrigin := true, isMagnitude := false))
    else if Strip(row, Newline) == MagnitudeHeader then Ok(st.(isOrigin := false, isMagnitude := true))
    else if st.isMagnitude && |Strip(row, Newline)| == MagnitudeLineLength then
      MagnitudeLine(st, Strip(row, Newline), magnitudeAgencies)
    else if st.isOrigin && |Strip(row, Newline)| == OriginLineLength then
      OriginLine(st, Strip(row, Newline), originAgencies)
    else Ok(st)
  }

  /** A step keeps the events read so far in front and adds at most one, and that only on an `Event` line with a block open. */
  lemma StepGrows(st: ReaderState, row: string, oa: seq<string>, ma: seq<string>)
    requires Step(st, row, oa, ma).Ok?
    ensures IsPrefix(st.events, Step(st, row, oa, ma).value.events)
    ensures |Step(st, row, oa, ma).value.events| <= |st.events| + (if IsEventLine(row) && st.current.Some? then 1 else 0)
  {
  }

  /** The loop of `read_file` over all lines; the first failure ends it. */
  function ReadRows(st: ReaderState, rows: seq<string>, originAgencies: seq<string>, magnitudeAgencies: seq<string>): (r: Result<ReaderState>)
    decreases |rows|
  {
    if |rows| == 0 then Ok(st)
    else
      var next :- Step(st, rows[0], originAgencies, magnitudeAgencies);
      ReadRows(next, rows[1..], originAgencies, magnitudeAgencies)
  }

  /**
    `ISFReader.read_file` on the lines of a file: the catalogue of the
    events flushed while reading. The block open at the end of the file is
    never added.
   */
  function ReadFile(identifier: string, name: string, rows: seq<string>,
                    originAgencies: seq<string>, magnitudeAgencies: seq<string>): (r: Result<Catalogue>)
    ensures r.Ok? ==> r.value.id == identifier && r.value.name == name
  {
    var st :- ReadRows(Start, rows, originAgencies, magnitudeAgencies);
    Ok(Catalogue(identifier, name, st.events))
  }

  // ---------------------------------------------------------------------------
  // Properties of single steps

  /**
    A marker line changes only the last origin of the current block (and
    nothing when it has none), even when it also contains `Event`; before
    the first event it fails.
   */
  lemma MarkerStep(st: ReaderState, row: string, oa: seq<string>, ma: seq<string>)
    requires RStrip(row, Newline) != []
    requires Contains(row, "(#PRIME)") || Contains(row, "(#CENTROID)")
    ensures st.current.None? ==> Step(st, row, oa, ma).Err?
    ensures st.current.Some? ==> Step(st, row, oa, ma).Ok?
    ensures st.current.Some? ==>
              var r := Step(st, row, oa, ma).value;
              var b := st.current.value;
              r.events == st.events && r.isOrigin == st.isOrigin && r.isMagnitude == st.isMagnitude &&
              r.current.Some? && r.current.value.event == b.event && r.current.value.magnitudes == b.magnitudes &&
              r.current.value.origins == MarkLast(b.origins, Contains(row, "(#PRIME)"))
  {
  }

  /**
    An `Event` line closes the current block (adding its event only when it
    has origins and magnitudes) and opens a new one from the header, leaving
    the section flags as they were.
   */
  lemma EventStep(st: ReaderState, row: string, oa: seq<string>, ma: seq<string>)
    requires IsEventLine(row)
    ensures Step(st, row, oa, ma).Err? <==> |Tokens(RStrip(row, Newline))| < 2
    ensures Step(st, row, oa, ma).Ok? ==>
              var r := Step(st, row, oa, ma).value;
              r.isOrigin == st.isOrigin && r.isMagnitude == st.isMagnitude &&
              r.events == (if st.current.Some? then Flush(st.events, st.current.value) else st.events) &&
              r.current == Some(Block(GetEventHeaderRow(RStrip(row, Newline)).value, [], []))
  {
  }

  /**
    A line that is neither blank, a marker, an `Event` line nor a header,
    and not of the length the current section expects, leaves the state as
    it is.
   */
  lemma OtherLineStep(st: ReaderState, row: string, oa: seq<string>, ma: seq<string>)
    requires !Contains(row, "(#PRIME)") && !Contains(row, "(#CENTROID)") && !Contains(row, "Event")
    requires RStrip(row, Newline) != OriginHeader && Strip(row, Newline) != MagnitudeHeader
    requires !(st.isMagnitude && |Strip(row, Newline)| == MagnitudeLineLength)
    requires !(st.isOrigin && |Strip(row, Newline)| == OriginLineLength)
    ensures Step(st, row, oa, ma) == Ok(st)
  {
  }

  /** A line that strips to something is not blank. */
  lemma StrippedNotBlank(row: string)
    requires Strip(row, Newline) != []
    ensures RStrip(row, Newline) != []
  {
  }

  /** A magnitude record joins the open block when its agency is selected. */
  lemma MagnitudeLineEffect(st: ReaderState, row: string, ma: seq<string>)
    requires st.current.Some?
    ensures MagnitudeLine(st, row, ma).Err? <==> GetEventMagnitude(row, st.current.value.event.id, ma).Err?
    ensures MagnitudeLine(st, row, ma).Ok? ==>
              (var mag := GetEventMagnitude(row, st.current.value.event.id, ma).value;
               var b := st.current.value;
               MagnitudeLine(st, row, ma).value == st.(current := Some(b.(magnitudes := b.magnitudes + (if mag.Some? then [mag.value] else [])))))
  {
    var b := st.current.value;
    var mag := GetEventMagnitude(row, b.event.id, ma);
    if mag.Ok? && mag.value.None? {
      assert b.magnitudes + [] == b.magnitudes;
    }
  }

  /** A record line of the magnitude section reaches the magnitude branch of a step. */
  lemma StepOnMagnitudeRow(st: ReaderState, row: string, oa: seq<string>, ma: seq<string>)
    requires !Contains(row, "(#PRIME)") && !Contains(row, "(#CENTROID)") && !Contains(row, "Event")
    requires RStrip(row, Newline) != OriginHeader && Strip(row, Newline) != MagnitudeHeader
    requires st.isMagnitude && |Strip(row, Newline)| == MagnitudeLineLength
    ensures Step(st, row, oa, ma) == MagnitudeLine(st, Strip(row, Newline), ma)
  {
    StrippedNotBlank(row);
  }

  /** A record line of the origin section reaches the origin branch of a step. */
  lemma StepOnOriginRow(st: ReaderState, row: string, oa: seq<string>, ma: seq<string>)
    requires !Contains(row, "(#PRIME)") && !Contains(row, "(#CENTROID)") && !Contains(row, "Event")
    requires RStrip(row, Newline) != OriginHeader && Strip(row, Newline) != MagnitudeHeader
    requires st.isOrigin && |Strip(row, Newline)| == OriginLineLength
    ensures Step(st, row, oa, ma) == OriginLine(st, Strip(row, Newline), oa)
  {
    StrippedNotBlank(row);
  }

  /**
    In the magnitude section, a line of magnitude length adds its magnitude
    to the current block when its agency is selected and changes nothing
    else; a line the magnitude parser rejects fails the step, and so does
    any such line before the first event.
   */
  lemma MagnitudeStep(st: ReaderState, row: string, oa: seq<string>, ma: seq<string>)
    requires !Contains(row, "(#PRIME)") && !Contains(row, "(#CENTROID)") && !Contains(row, "Event")
    requires RStrip(row, Newline) != OriginHeader && Strip(row, Newline) != MagnitudeHeader
    requires st.isMagnitude && |Strip(row, Newline)| == MagnitudeLineLength
    ensures st.current.None? ==> Step(st, row, oa, ma).Err?
    ensures st.current.Some? ==>
              (Step(st, row, oa, ma).Err? <==> GetEventMagnitude(Strip(row, Newline), st.current.value.event.id, ma).Err?)
    ensures st.current.Some? && Step(st, row, oa, ma).Ok? ==>
              (var mag := GetEventMagnitude(Strip(row, Newline), st.current.value.event.id, ma).value;
               var b := st.current.value;
               Step(st, row, oa, ma).value == st.(current := Some(b.(magnitudes := b.magnitudes + (if mag.Some? then [mag.value] else [])))))
  {
    StepOnMagnitudeRow(st, row, oa, ma);
    if st.current.Some? {
      MagnitudeLineEffect(st, Strip(row, Newline), ma);
    }
  }

  /**
    In the origin section, a line of origin length adds its origin to the
    current block when its agency is selected and changes nothing else; a
    line the origin parser rejects fails the step, and so does a selected
    origin before the first event.
   */
  lemma OriginStep(st: ReaderState, row: string, oa: seq<string>, ma: seq<string>)
    requires !Contains(row, "(#PRIME)") && !Contains(row, "(#CENTROID)") && !Contains(row, "Event")
    requires RStrip(row, Newline) != OriginHeader && Strip(row, Newline) != MagnitudeHeader
    requires st.isOrigin && |Strip(row, Newline)| == OriginLineLength
    ensures GetEventOriginRow(Strip(row, Newline), oa).Err? ==> Step(st, row, oa, ma).Err?
    ensures GetEventOriginRow(Strip(row, Newline), oa) == Ok(None) ==> Step(st, row, oa, ma) == Ok(st)
    ensures GetEventOriginRow(Strip(row, Newline), oa).Ok? && GetEventOriginRow(Strip(row, Newline), oa).value.Some? ==>
              (var o := GetEventOriginRow(Strip(row, Newline), oa).value.value;
               Step(st, row, oa, ma) ==
                 match st.current
                 case None => Err(UnboundLocal("origins"))
                 case Some(b) => Ok(st.(current := Some(b.(origins := b.origins + [o])))))
  {
    StepOnOriginRow(st, row, oa, ma);
  }

  // ---------------------------------------------------------------------------
  // Properties of the whole loop

  /** The number of `Event` lines among the rows. */
  function CountEventLines(rows: seq<string>): nat
  {
    if |rows| == 0 then 0 else (if IsEventLine(rows[0]) then 1 else 0) + CountEventLines(rows[1..])
  }

  /** The catalogue only grows while reading: the events so far are a prefix of the final ones. */
  lemma {:induction false} ReadRowsGrows(st: ReaderState, rows: seq<string>, oa: seq<string>, ma: seq<string>)
    requires ReadRows(st, rows, oa, ma).Ok?
    ensures IsPrefix(st.events, ReadRows(st, rows, oa, ma).value.events)
    decreases |rows|
  {
    if |rows| > 0 {
      var next := Step(st, rows[0], oa, ma).value;
      StepGrows(st, rows[0], oa, ma);
      ReadRowsGrows(next, rows[1..], oa, ma);
      var fin := ReadRows(next, rows[1..], oa, ma).value.events;
      assert fin[..|st.events|] == fin[..|next.events|][..|st.events|];
    }
  }

  /** Every event the reader adds has at least one origin and one magnitude. */
  lemma {:induction false} ReadRowsAssembled(st: ReaderState, rows: seq<string>, oa: seq<string>, ma: seq<string>)
    requires forall i :: 0 <= i < |st.events| ==> Assembled(st.events[i])
    requires ReadRows(st, rows, oa, ma).Ok?
    ensures var fin := ReadRows(st, rows, oa, ma).value.events;
      forall i :: 0 <= i < |fin| ==> Assembled(fin[i])
    decreases |rows|
  {
    if |rows| > 0 {
      var next := Step(st, rows[0], oa, ma).value;
      StepAssembled(st, rows[0], oa, ma);
      ReadRowsAssembled(next, rows[1..], oa, ma);
    }
  }

  /** A step adds only assembled events. */
  lemma StepAssembled(st: ReaderState, row: string, oa: seq<string>, ma: seq<string>)
    requires forall i :: 0 <= i < |st.events| ==> Assembled(st.events[i])
    requires Step(st, row, oa, ma).Ok?
    ensures forall i :: 0 <= i < |Step(st, row, oa, ma).value.events| ==> Assembled(Step(st, row, oa, ma).value.events[i])
  {
    var r := Step(st, row, oa, ma).value;
    if r.events != st.events {
      var b := st.current.value;
      assert r.events == Flush(st.events, b);
      assert |b.origins| > 0 && |b.magnitudes| > 0;
      assert r.events == st.events + [r.events[|st.events|]];
    }
  }

  /**
    Each `Event` line adds at most one event, and the open block is never
    added: the events plus the open block number at most the events and
    open block before, plus the `Event` lines read.
   */
  lemma {:induction false} ReadRowsCount(st: ReaderState, rows: seq<string>, oa: seq<string>, ma: seq<string>)
    requires ReadRows(st, rows, oa, ma).Ok?
    ensures var fin := ReadRows(st, rows, oa, ma).value;
      |fin.events| + (if fin.current.Some? then 1 else 0) <= |st.events| + (if st.current.Some? then 1 else 0) + CountEventLines(rows)
    decreases |rows|
  {
    if |rows| > 0 {
      var next := Step(st, rows[0], oa, ma).value;
      StepGrows(st, rows[0], oa, ma);
      ReadRowsCount(next, rows[1..], oa, ma);
    }
  }

  /** A file read from the start holds fewer events than `Event` lines; a single-event file gives an empty catalogue. */
  lemma ReadFileCount(identifier: string, name: string, rows: seq<string>, oa: seq<string>, ma: seq<string>)
    requires ReadFile(identifier, name, rows, oa, ma).Ok?
    ensures |ReadFile(identifier, name, rows, oa, ma).value.events| <= if CountEventLines(rows) == 0 then 0 else CountEventLines(rows) - 1
    ensures CountEventLines(rows) <= 1 ==> ReadFile(identifier, name, rows, oa, ma).value.events == []
    ensures forall i :: 0 <= i < |ReadFile(identifier, name, rows, oa, ma).value.events| ==>
              Assembled(ReadFile(identifier, name, rows, oa, ma).value.events[i])
  {
    ReadRowsCount(Start, rows, oa, ma);
    ReadRowsAssembled(Start, rows, oa, ma);
    ReadRowsOpensBlock(Start, rows, oa, ma);
  }

  /** Once an `Event` line has been read, a block stays open to the end. */
  lemma {:induction false} ReadRowsOpensBlock(st: ReaderState, rows: seq<string>, oa: seq<string>, ma: seq<string>)
    requires ReadRows(st, rows, oa, ma).Ok?
    ensures st.current.Some? || CountEventLines(rows) > 0 ==> ReadRows(st, rows, oa, ma).value.current.Some?
    decreases |rows|
  {
    if |rows| > 0 {
      var next := Step(st, rows[0], oa, ma).value;
      ReadRowsOpensBlock(next, rows[1..], oa, ma);
    }
  }

  // ---------------------------------------------------------------------------
  // A reader that closes the last block

  /** The events once the block open at the end of the input, if any, is closed as an `Event` line would close it. */
  function Closed(st: ReaderState): (events: seq<Event>)
    ensures IsPrefix(st.events, events)
    ensures |events| <= |st.events| + (if st.current.Some? then 1 else 0)
  {
    match st.current
    case None => st.events
    case Some(b) => Flush(st.events, b)
  }

  /**
    `read_file` as its loop evidently intends: the block still open after
    the last line is flushed like every earlier one. It fails exactly when
    the code as written fails, and it only adds to the catalogue the code
    as written returns.
   */
  function ReadFileFlushed(identifier: string, name: string, rows: seq<string>,
                           originAgencies: seq<string>, magnitudeAgencies: seq<string>): (r: Result<Catalogue>)
    ensures r.Ok? <==> ReadFile(identifier, name, rows, originAgencies, magnitudeAgencies).Ok?
    ensures r.Ok? ==> r.value.id == identifier && r.value.name == name
    ensures r.Ok? ==> IsPrefix(ReadFile(identifier, name, rows, originAgencies, magnitudeAgencies).value.events, r.value.events)
  {
    var st :- ReadRows(Start, rows, originAgencies, magnitudeAgencies);
    Ok(Catalogue(identifier, name, Closed(st)))
  }

  /**
    With the final flush, the last block is kept when it has origins and
    magnitudes, as one more event after those of the code as written;
    there are at most as many events as `Event` lines, and each has
    origins and magnitudes.
   */
  lemma ReadFileFlushedKeepsLast(identifier: string, name: string, rows: seq<string>, oa: seq<string>, ma: seq<string>)
    requires ReadFile(identifier, name, rows, oa, ma).Ok?
    ensures var fin := ReadRows(Start, rows, oa, ma).value;
              fin.current.Some? && |fin.current.value.origins| > 0 && |fin.current.value.magnitudes| > 0 ==>
                (var b := fin.current.value;
                 ReadFileFlushed(identifier, name, rows, oa, ma).value.events ==
                   ReadFile(identifier, name, rows, oa, ma).value.events +
                   [AssignMagnitudesToOrigins(b.event.(origins := b.origins, magnitudes := b.magnitudes)).0])
    ensures |ReadFileFlushed(identifier, name, rows, oa, ma).value.events| <= CountEventLines(rows)
    ensures forall i :: 0 <= i < |ReadFileFlushed(identifier, name, rows, oa, ma).value.events| ==>
              Assembled(ReadFileFlushed(identifier, name, rows, oa, ma).value.events[i])
  {
    var fin := ReadRows(Start, rows, oa, ma).value;
    ReadRowsCount(Start, rows, oa, ma);
    ReadRowsAssembled(Start, rows, oa, ma);
    var events := Closed(fin);
    if fin.current.Some? {
      var b := fin.current.value;
      if |b.origins| > 0 && |b.magnitudes| > 0 {
        assert events == fin.events + [events[|fin.events|]];
      }
    }
  }
}
