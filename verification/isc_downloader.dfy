/**
  The request builder of the ISC bulletin downloader (`ISCBulletinUrl`): the
  ordered request fields, `SetField`, `UseMirror`, `CreateUrl`, the settings
  file written by `SaveSettings` and read by `LoadSettings`, the year blocks
  of `GetCatalogue` and the catalogue block `DownloadBlock` cuts out of a
  page. Fetching pages is a parameter (`fetch`: URL to page text); writing
  the output file is left to the caller.
 */
module IscDownloader {
  import opened Base
  import opened Text

  // ---------------------------------------------------------------------------
  // Settings

  /** One request field: its name and its `parameter=value` text. */
  datatype Field = Field(key: string, text: string)

  /** The server address and the request fields in insertion order. */
  datatype Settings = Settings(baseServer: string, request: seq<Field>)

  const DefaultServer := "http://www.isc.ac.uk/cgi-bin/web-db-v4?"

  const MirrorServer := "http://isc-mirror.iris.washington.edu/cgi-bin/web-db-v4?"

  /** The fields a new `ISCBulletinUrl` holds, compulsory then optional. */
  const DefaultRequest: seq<Field> := [
    Field("CatalogueType", "request=REVIEWED"),
    Field("OutputFormat", "out_format=CATCSV"),
    Field("SearchAreaShape", "searchshape=RECT"),
    Field("RectangleBottomLatitude", "bot_lat=36"),
    Field("RectangleTopLatitude", "top_lat=48"),
    Field("RectangleLeftLongitude", "left_lon=6"),
    Field("RectangleRightLongitude", "right_lon=19"),
    Field("CircularLatitude", "ctr_lat="),
    Field("CircularLongitude", "ctr_lon="),
    Field("CircularRadius", "radius="),
    Field("MaxDistanceUnits", "max_dist_units=deg"),
    Field("SeismicRegionNumber", "srn="),
    Field("GeogrephicRegionNumber", "grn="),
    Field("PolygonCoordinates", "coordvals="),
    Field("StartYear", "start_year=2012"),
    Field("StartMonth", "start_month=01"),
    Field("StartDay", "start_day=01"),
    Field("StartTime", "start_time=00:00:00"),
    Field("EndYear", "end_year=2013"),
    Field("EndMonth", "end_month=12"),
    Field("EndDay", "end_day=31"),
    Field("EndTime", "end_time=00:00:00"),
    Field("MinimumDepth", "min_dep="),
    Field("MaximumDepth", "max_dep="),
    Field("NoDepthEvents", "null_dep=on"),
    Field("MinimumMagnitude", "min_mag="),
    Field("MaximumMagnitude", "max_mag="),
    Field("NoMagnitudeEvents", "null_mag=on"),
    Field("MagnitudeType", "req_mag_type="),
    Field("MagnitudeAgency", "req_mag_agcy="),
    Field("FocalMechanismAgency", "req_fm_agcy=Any"),
    Field("IncludePhases", "include_phases=off"),
    Field("MinimumPhaseNumber", "min_def="),
    Field("MaximumPhaseNumber", "max_def="),
    Field("NoKnownPhases", "null_phs="),
    Field("PrimeOnly", "prime_only="),
    Field("IncludeMagnitudes", "include_magnitudes=on"),
    Field("IncludeHeaders", "include_headers=on"),
    Field("IncludeComments", "include_comments=on"),
    Field("IncludeLinks", "include_links=off")
  ]

  /** The settings of a new `ISCBulletinUrl`. */
  const Default := Settings(DefaultServer, DefaultRequest)

  /** `UseMirror`: the IRIS mirror as server, the request untouched. */
  function UseMirror(s: Settings): (r: Settings)
    ensures r.request == s.request && r.baseServer == MirrorServer
  {
    s.(baseServer := MirrorServer)
  }

  /** The position of the field named `key`, if any. */
  function KeyIndex(request: seq<Field>, key: string): (r: Option<nat>)
    ensures r.None? <==> forall j :: 0 <= j < |request| ==> request[j].key != key
    ensures r.Some? ==> r.value < |request| && request[r.value].key == key
    ensures r.Some? ==> forall j :: 0 <= j < r.value ==> request[j].key != key
  {
    if |request| == 0 then None
    else if request[0].key == key then Some(0)
    else match KeyIndex(request[1..], key)
      case None => None
      case Some(i) => Some(i + 1)
  }

  /** No two fields share a name, as in the ordered dictionary the request is. */
  predicate DistinctKeys(request: seq<Field>)
  {
    forall i, j :: 0 <= i < j < |request| ==> request[i].key != request[j].key
  }

  /** The parameter name of a field: its text before the first `=` (`split("=")[0]`). */
  function Prefix(f: Field): string
  {
    Split(f.text, '=')[0]
  }

  /** The value of a field, `split("=")[1]`: the text after the first `=` up to any second one; a text without `=` raises. */
  function FieldValue(f: Field): (r: Result<string>)
    ensures r.Err? <==> '=' !in f.text
    ensures r.Ok? ==> '=' !in r.value
  {
    var parts := Split(f.text, '=');
    if |parts| < 2 then Err(IndexError) else Ok(parts[1])
  }

  /** A parameter name, `=`, and a value without `=` split back into name and value. */
  lemma FieldParts(prefix: string, value: string)
    requires '=' !in prefix && '=' !in value
    ensures Split(prefix + "=" + value, '=') == [prefix, value]
  {
    SplitJoin([prefix, value], '=');
  }

  /** The parameter name survives any value after the `=`. */
  lemma PrefixOfAssignment(prefix: string, value: string)
    requires '=' !in prefix
    ensures Split(prefix + "=" + value, '=')[0] == prefix
    ensures '=' !in value ==> Split(prefix + "=" + value, '=') == [prefix, value]
  {
    if '=' !in value {
      FieldParts(prefix, value);
    }
    var s := prefix + "=" + value;
    IndexOfAfterFree(prefix, "=" + value, '=');
    assert s == prefix + ("=" + value);
    assert s[..|prefix|] == prefix;
  }

  /**
    `SetField`: the named field keeps its parameter name and takes the new
    value; every other field, the order and the server stay as they were.
    An unknown name raises `KeyError`.
   */
  function SetField(s: Settings, name: string, value: string): (r: Result<Settings>)
    ensures r.Err? <==> KeyIndex(s.request, name).None?
    ensures r.Err? ==> r.error == KeyError(name)
    ensures r.Ok? ==> r.value.baseServer == s.baseServer && |r.value.request| == |s.request|
    ensures r.Ok? ==> forall j :: 0 <= j < |s.request| ==> r.value.request[j].key == s.request[j].key
    ensures r.Ok? ==> forall j :: 0 <= j < |s.request| && s.request[j].key != name ==> r.value.request[j] == s.request[j]
    ensures r.Ok? ==> var i := KeyIndex(s.request, name).value;
              Prefix(r.value.request[i]) == Prefix(s.request[i]) &&
              ('=' !in value ==> FieldValue(r.value.request[i]) == Ok(value))
  {
    match KeyIndex(s.request, name)
    case None => Err(KeyError(name))
    case Some(i) => Ok(Assign(s, i, value))
  }

  /** Field `i` keeps its name and parameter name and takes the new value; nothing else changes. */
  function Assign(s: Settings, i: nat, value: string): (r: Settings)
    requires i < |s.request|
    ensures r.baseServer == s.baseServer && |r.request| == |s.request|
    ensures forall j :: 0 <= j < |s.request| ==> r.request[j].key == s.request[j].key
    ensures forall j :: 0 <= j < |s.request| && j != i ==> r.request[j] == s.request[j]
    ensures Prefix(r.request[i]) == Prefix(s.request[i])
    ensures '=' !in value ==> FieldValue(r.request[i]) == Ok(value)
  {
    s.(request := s.request[i := Reassigned(s.request[i], value)])
  }

  /** `name=value` rebuilt from a field's parameter name and a new value. */
  function Reassigned(f: Field, value: string): (g: Field)
    ensures g.key == f.key && Prefix(g) == Prefix(f)
    ensures '=' !in value ==> FieldValue(g) == Ok(value)
  {
    var prefix := Prefix(f);
    PrefixOfAssignment(prefix, value);
    Field(f.key, prefix + "=" + value)
  }

  /** Setting a field twice is setting it once, to the second value. */
  lemma SetFieldLastWins(s: Settings, name: string, v1: string, v2: string)
    requires SetField(s, name, v1).Ok?
    ensures SetField(SetField(s, name, v1).value, name, v2) == SetField(s, name, v2)
  {
    var i := KeyIndex(s.request, name).value;
    var t := SetField(s, name, v1).value;
    assert KeyIndex(t.request, name) == Some(i) by {
      KeyIndexOfSameKeys(s.request, t.request, name);
    }
    var f := Field(name, Prefix(s.request[i]) + "=" + v2);
    assert t.request[i := f] == s.request[i := f];
  }

  /** Setting a field keeps the names and parameter names of every field. */
  lemma SetFieldLayout(s: Settings, name: string, value: string)
    requires SetField(s, name, value).Ok?
    ensures SameLayout(SetField(s, name, value).value, s)
  {
    var i := KeyIndex(s.request, name).value;
    var prefix := Prefix(s.request[i]);
    PrefixOfAssignment(prefix, value);
    var t := s.(request := s.request[i := Field(name, prefix + "=" + value)]);
    assert SetField(s, name, value) == Ok(t);
    forall j | 0 <= j < |s.request|
      ensures t.request[j].key == s.request[j].key && Prefix(t.request[j]) == Prefix(s.request[j])
    {
    }
  }

  /** Two requests with the same names in the same order find a name at the same place. */
  lemma {:induction false} KeyIndexOfSameKeys(a: seq<Field>, b: seq<Field>, name: string)
    requires |a| == |b| && forall j :: 0 <= j < |a| ==> a[j].key == b[j].key
    ensures KeyIndex(a, name) == KeyIndex(b, name)
  {
    if |a| > 0 {
      KeyIndexOfSameKeys(a[1..], b[1..], name);
    }
  }

  // ---------------------------------------------------------------------------
  // URL

  /** The texts of the fields, in order. */
  function Texts(request: seq<Field>): (ts: seq<string>)
    ensures |ts| == |request| && forall j :: 0 <= j < |ts| ==> ts[j] == request[j].text
  {
    if |request| == 0 then [] else [request[0].text] + Texts(request[1..])
  }

  /** Each field's text followed by `&`. */
  function Query(request: seq<Field>): string
  {
    if |request| == 0 then [] else request[0].text + "&" + Query(request[1..])
  }

  /** `CreateUrl`: the server followed by every field's text and `&`, in order. */
  function CreateUrl(s: Settings): (url: string)
    ensures |url| >= |s.baseServer| && url[..|s.baseServer|] == s.baseServer
  {
    s.baseServer + Query(s.request)
  }

  /** The query is the field texts joined by `&`, with a final `&`. */
  lemma {:induction false} QueryIsJoin(request: seq<Field>)
    ensures Query(request) == Join(Texts(request) + [""], "&")
  {
    if |request| > 0 {
      QueryIsJoin(request[1..]);
      assert Texts(request) + [""] == [request[0].text] + (Texts(request[1..]) + [""]);
      assert ([request[0].text] + (Texts(request[1..]) + [""]))[1..] == Texts(request[1..]) + [""];
    }
  }

  /** When no field text holds `&`, the query splits back into the field texts (and an empty tail). */
  lemma UrlRoundTrip(s: Settings)
    requires forall j :: 0 <= j < |s.request| ==> '&' !in s.request[j].text
    ensures Split(CreateUrl(s)[|s.baseServer|..], '&') == Texts(s.request) + [""]
  {
    QueryIsJoin(s.request);
    assert CreateUrl(s)[|s.baseServer|..] == Query(s.request);
    SplitJoin(Texts(s.request) + [""], '&');
  }

  /** The mirror is asked exactly the same query. */
  lemma MirrorSameQuery(s: Settings)
    ensures CreateUrl(UseMirror(s)) == MirrorServer + CreateUrl(s)[|s.baseServer|..]
  {
    assert CreateUrl(s)[|s.baseServer|..] == Query(s.request);
  }

  // ---------------------------------------------------------------------------
  // Settings file

  /** The line `SaveSettings` writes for a field: `name=value`, with `Null` for an empty value. */
  function SaveLine(f: Field): (r: Result<string>)
    ensures r.Err? <==> '=' !in f.text
  {
    var value :- FieldValue(f);
    Ok(f.key + "=" + (if value == [] then "Null" else value))
  }

  function SaveLines(request: seq<Field>): (r: Result<seq<string>>)
    ensures r.Ok? ==> |r.value| == |request| && forall j :: 0 <= j < |request| ==> SaveLine(request[j]) == Ok(r.value[j])
    ensures r.Err? <==> exists j :: 0 <= j < |request| && '=' !in request[j].text
  {
    if |request| == 0 then Ok([])
    else
      match SaveLine(request[0])
      case Err(e) => Err(e)
      case Ok(line) =>
        var rest := SaveLines(request[1..]);
        SaveLinesCons(request, line, rest);
        if rest.Err? then Err(rest.error) else Ok([line] + rest.value)
  }

  /** The lines of a request are the line of its first field followed by the lines of the others. */
  lemma SaveLinesCons(request: seq<Field>, line: string, rest: Result<seq<string>>)
    requires |request| > 0 && SaveLine(request[0]) == Ok(line)
    requires rest.Ok? ==> (|rest.value| == |request| - 1 &&
      forall j :: 0 <= j < |request| - 1 ==> SaveLine(request[1..][j]) == Ok(rest.value[j]))
    requires rest.Err? <==> exists j :: 0 <= j < |request| - 1 && '=' !in request[1..][j].text
    ensures rest.Ok? ==> forall j :: 0 <= j < |request| ==> SaveLine(request[j]) == Ok(([line] + rest.value)[j])
    ensures rest.Err? <==> exists j :: 0 <= j < |request| && '=' !in request[j].text
  {
    TailIndices(request);
    if rest.Err? {
      var j :| 0 <= j < |request| - 1 && '=' !in request[1..][j].text;
      assert '=' !in request[j + 1].text;
    }
  }

  /** `SaveSettings`: one line per field, separated by line breaks (none after the last). */
  function SaveSettings(s: Settings): (r: Result<string>)
    ensures r.Err? <==> exists j :: 0 <= j < |s.request| && '=' !in s.request[j].text
  {
    var lines :- SaveLines(s.request);
    Ok(Join(lines, "\n"))
  }

  /** The lines Python iterates over in a file: the text split at line breaks, without a final empty line. */
  function FileLines(text: string): (lines: seq<string>)
    ensures forall j :: 0 <= j < |lines| ==> '\n' !in lines[j]
  {
    var parts := Split(text, '\n');
    if parts[|parts| - 1] == [] then parts[..|parts| - 1] else parts
  }

  /**
    One line of `LoadSettings`: the name before the first `=`, the value up
    to the next (`Null` read as empty), stored with `SetField`. A line with
    no `=` raises, and so does an unknown name.
   */
  function LoadLine(s: Settings, line: string): (r: Result<Settings>)
    ensures '=' !in line ==> r.Err?
  {
    var parts := Split(line, '=');
    if |parts| < 2 then Err(IndexError)
    else SetField(s, parts[0], if parts[1] == "Null" then "" else parts[1])
  }

  function LoadLines(s: Settings, lines: seq<string>): (r: Result<Settings>)
    ensures r.Ok? ==> r.value.baseServer == s.baseServer && |r.value.request| == |s.request|
    ensures r.Ok? ==> forall j :: 0 <= j < |s.request| ==> r.value.request[j].key == s.request[j].key
    decreases |lines|
  {
    if |lines| == 0 then Ok(s)
    else
      var next :- LoadLine(s, lines[0]);
      LoadLines(next, lines[1..])
  }

  /** `LoadSettings`: every line of the file applied in turn. */
  function LoadSettings(s: Settings, text: string): (r: Result<Settings>)
    ensures r.Ok? ==> r.value.baseServer == s.baseServer && |r.value.request| == |s.request|
    ensures r.Ok? ==> forall j :: 0 <= j < |s.request| ==> r.value.request[j].key == s.request[j].key
  {
    LoadLines(s, FileLines(text))
  }

  /**
    A field the settings file stores faithfully: a name without `=` or line
    break, and a text of one parameter name, one `=` and a value that is not
    the literal `Null`, with no line break.
   */
  predicate Plain(f: Field)
  {
    var parts := Split(f.text, '=');
    |parts| == 2 && parts[1] != "Null" && f.key != [] &&
    '=' !in f.key && '\n' !in f.key && '\n' !in f.text
  }

  /** Settings whose request has the same names and parameter names as another's. */
  predicate SameLayout(t: Settings, s: Settings)
  {
    t.baseServer == s.baseServer && |t.request| == |s.request| &&
    forall j :: 0 <= j < |s.request| ==> t.request[j].key == s.request[j].key && Prefix(t.request[j]) == Prefix(s.request[j])
  }

  /** `t` with its first `k` fields taken from `s`. */
  function Overlay(t: Settings, s: Settings, k: nat): Settings
    requires |t.request| == |s.request| && k <= |s.request|
  {
    Settings(t.baseServer, s.request[..k] + t.request[k..])
  }

  /**
    Loading the file that `SaveSettings` wrote for `s` into settings with the
    same layout restores `s`, provided every field is plain and the names
    are distinct.
   */
  lemma SaveLoadRoundTrip(s: Settings, t: Settings)
    requires DistinctKeys(s.request) && SameLayout(t, s)
    requires forall j :: 0 <= j < |s.request| ==> Plain(s.request[j])
    ensures SaveSettings(s).Ok?
    ensures LoadSettings(t, SaveSettings(s).value) == Ok(s)
  {
    SavePlainOk(s.request);
    var lines := SaveLines(s.request).value;
    assert SaveSettings(s) == Ok(Join(lines, "\n"));
    SaveLinesFileLines(s.request, lines);
    assert LoadSettings(t, SaveSettings(s).value) == LoadLines(t, lines);
    OverlayEnds(t, s);
    LoadOverlay(t, s, 0, lines);
    assert lines[0..] == lines;
  }

  /** With plain fields, the lines of the saved file are the saved lines, one per field in order. */
  lemma SaveSettingsLines(s: Settings)
    requires forall j :: 0 <= j < |s.request| ==> Plain(s.request[j])
    ensures SaveSettings(s).Ok? && SaveLines(s.request).Ok?
    ensures FileLines(SaveSettings(s).value) == SaveLines(s.request).value
    ensures |FileLines(SaveSettings(s).value)| == |s.request|
  {
    SavePlainOk(s.request);
    var lines := SaveLines(s.request).value;
    assert SaveSettings(s) == Ok(Join(lines, "\n"));
    SaveLinesFileLines(s.request, lines);
  }

  /** Plain fields can all be saved. */
  lemma SavePlainOk(request: seq<Field>)
    requires forall j :: 0 <= j < |request| ==> Plain(request[j])
    ensures SaveLines(request).Ok?
  {
    forall j | 0 <= j < |request|
      ensures '=' in request[j].text
    {
      var parts := Split(request[j].text, '=');
      assert |parts| == 2;
    }
  }

  /** The overlay at 0 is `t` and the full overlay is `s`. */
  lemma OverlayEnds(t: Settings, s: Settings)
    requires SameLayout(t, s)
    ensures Overlay(t, s, 0) == t && Overlay(t, s, |s.request|) == s
  {
    assert s.request[..0] + t.request[0..] == t.request;
    assert s.request[..|s.request|] + t.request[|s.request|..] == s.request;
  }

  /** The saved lines come back as the file's lines. */
  lemma SaveLinesFileLines(request: seq<Field>, lines: seq<string>)
    requires forall j :: 0 <= j < |request| ==> Plain(request[j])
    requires SaveLines(request) == Ok(lines)
    ensures FileLines(Join(lines, "\n")) == lines
  {
    if |lines| == 0 {
      assert Join(lines, "\n") == [];
      assert Split([], '\n') == [[]];
    } else {
      forall j | 0 <= j < |lines|
        ensures '\n' !in lines[j] && lines[j] != []
      {
        SaveLineOfPlain(request[j]);
      }
      SplitJoin(lines, '\n');
    }
  }

  /** The saved line of a plain field is `name=value` and splits back into the two. */
  lemma SaveLineOfPlain(f: Field)
    requires Plain(f)
    ensures SaveLine(f).Ok? && '\n' !in SaveLine(f).value && SaveLine(f).value != []
    ensures var v := Split(f.text, '=')[1];
      Split(SaveLine(f).value, '=') == [f.key, if v == [] then "Null" else v]
  {
    var parts := Split(f.text, '=');
    var v := parts[1];
    var saved := if v == [] then "Null" else v;
    assert FieldValue(f) == Ok(v);
    var line := f.key + "=" + saved;
    assert SaveLine(f) == Ok(line);
    assert '\n' !in v by {
      JoinSplit(f.text, '=');
      assert Join(parts, "=") == parts[0] + "=" + v;
      assert f.text[|parts[0]| + 1..] == v;
    }
    assert '\n' !in line by {
      assert forall k :: 0 <= k < |line| ==> line[k] in f.key || line[k] == '=' || line[k] in saved;
    }
    FieldParts(f.key, saved);
  }

  /** `lines` are what `SaveSettings` writes for `s`, and they can be loaded back into `t`. */
  predicate Restorable(t: Settings, s: Settings, lines: seq<string>)
  {
    DistinctKeys(s.request) && SameLayout(t, s) &&
    (forall j :: 0 <= j < |s.request| ==> Plain(s.request[j])) &&
    SaveLines(s.request) == Ok(lines)
  }

  /** Loading the saved lines from position `k` on turns the overlay at `k` into `s`. */
  lemma {:induction false} LoadOverlay(t: Settings, s: Settings, k: nat, lines: seq<string>)
    requires Restorable(t, s, lines) && k <= |s.request|
    ensures LoadLines(Overlay(t, s, k), lines[k..]) == Ok(Overlay(t, s, |s.request|))
    decreases |s.request| - k
  {
    if k < |s.request| {
      LoadOverlayStep(t, s, k, lines);
      LoadOverlay(t, s, k + 1, lines);
    } else {
      assert lines[k..] == [];
    }
  }

  /** One step of `LoadOverlay`: the saved line of field `k` moves the overlay on by one field. */
  lemma LoadOverlayStep(t: Settings, s: Settings, k: nat, lines: seq<string>)
    requires DistinctKeys(s.request) && SameLayout(t, s)
    requires k < |s.request| == |lines| && Plain(s.request[k]) && SaveLine(s.request[k]) == Ok(lines[k])
    ensures LoadLines(Overlay(t, s, k), lines[k..]) == LoadLines(Overlay(t, s, k + 1), lines[k + 1..])
  {
    LoadLineRestores(t, s, k, lines[k]);
    LoadLinesStep(Overlay(t, s, k), lines[k..], Overlay(t, s, k + 1));
    assert lines[k..][1..] == lines[k + 1..];
  }

  /** Loading lines is loading the first, then the rest. */
  lemma LoadLinesStep(o: Settings, ls: seq<string>, next: Settings)
    requires |ls| > 0 && LoadLine(o, ls[0]) == Ok(next)
    ensures LoadLines(o, ls) == LoadLines(next, ls[1..])
  {
  }

  /** Loading the saved line of field `k` into the overlay at `k` gives the overlay at `k + 1`. */
  lemma LoadLineRestores(t: Settings, s: Settings, k: nat, line: string)
    requires DistinctKeys(s.request) && SameLayout(t, s)
    requires k < |s.request| && Plain(s.request[k])
    requires SaveLine(s.request[k]) == Ok(line)
    ensures LoadLine(Overlay(t, s, k), line) == Ok(Overlay(t, s, k + 1))
  {
    var f := s.request[k];
    var o := Overlay(t, s, k);
    var v := Split(f.text, '=')[1];
    LoadSavedLine(o, f, line);
    OverlayKeyIndex(t, s, k);
    PlainText(f);
    OverlayStep(t, s, k);
  }

  /** Reading back the saved line of a plain field sets that field's name to its value. */
  lemma LoadSavedLine(o: Settings, f: Field, line: string)
    requires Plain(f) && SaveLine(f) == Ok(line)
    ensures LoadLine(o, line) == SetField(o, f.key, Split(f.text, '=')[1])
  {
    SaveLineOfPlain(f);
  }

  /** In the overlay at `k` the name of field `k` is found at `k`. */
  lemma OverlayKeyIndex(t: Settings, s: Settings, k: nat)
    requires DistinctKeys(s.request) && SameLayout(t, s) && k < |s.request|
    ensures KeyIndex(Overlay(t, s, k).request, s.request[k].key) == Some(k)
  {
    var o := Overlay(t, s, k);
    assert o.request[k] == t.request[k];
    forall j | 0 <= j < k
      ensures o.request[j].key != s.request[k].key
    {
      assert o.request[j] == s.request[j];
    }
  }

  /** A plain field's text is its parameter name, `=` and its value. */
  lemma PlainText(f: Field)
    requires Plain(f)
    ensures f.text == Prefix(f) + "=" + Split(f.text, '=')[1]
  {
    JoinSplit(f.text, '=');
  }

  /** Storing field `k` of `s` into the overlay at `k` gives the overlay at `k + 1`. */
  lemma OverlayStep(t: Settings, s: Settings, k: nat)
    requires SameLayout(t, s) && k < |s.request| && Plain(s.request[k])
    requires s.request[k].text == Prefix(s.request[k]) + "=" + Split(s.request[k].text, '=')[1]
    ensures var o := Overlay(t, s, k);
      o.(request := o.request[k := Field(s.request[k].key, Prefix(o.request[k]) + "=" + Split(s.request[k].text, '=')[1])]) ==
      Overlay(t, s, k + 1)
  {
    var o := Overlay(t, s, k);
    assert o.request[k] == t.request[k];
    assert Field(s.request[k].key, Prefix(o.request[k]) + "=" + Split(s.request[k].text, '=')[1]) == s.request[k];
    assert o.request[k := s.request[k]] == s.request[..k + 1] + t.request[k + 1..];
  }

  // ---------------------------------------------------------------------------
  // Year blocks

  function Min(a: int, b: int): int
  {
    if a <= b then a else b
  }

  /**
    The blocks of a year loop: starts `first`, `first + split`, ... while
    below `stop`, each ending `split - 1` years later but never after `cap`.
   */
  function Blocks(first: int, stop: int, cap: int, split: nat): (r: seq<(int, int)>)
    requires split >= 1
    ensures |r| == 0 <==> first >= stop
    ensures |r| > 0 ==> r[0].0 == first && r[|r| - 1].0 + split >= stop
    ensures forall k :: 0 <= k < |r| ==> first <= r[k].0 < stop && r[k].1 == Min(cap, r[k].0 + split - 1)
    decreases stop - first
  {
    if first >= stop then []
    else [(first, Min(cap, first + split - 1))] + Blocks(first + split, stop, cap, split)
  }

  /** Each block starts at least `split` years after any earlier block starts. */
  lemma {:induction false} BlocksSpaced(first: int, stop: int, cap: int, split: nat)
    requires split >= 1
    ensures forall i, j :: 0 <= i < j < |Blocks(first, stop, cap, split)| ==>
      Blocks(first, stop, cap, split)[i].0 + split <= Blocks(first, stop, cap, split)[j].0
    decreases stop - first
  {
    if first < stop {
      var rest := Blocks(first + split, stop, cap, split);
      BlocksSpaced(first + split, stop, cap, split);
      var r := Blocks(first, stop, cap, split);
      assert r == [(first, Min(cap, first + split - 1))] + rest;
      forall i, j | 0 <= i < j < |r|
        ensures r[i].0 + split <= r[j].0
      {
        assert r[j] == rest[j - 1];
        if i > 0 {
          assert r[i] == rest[i - 1];
        }
      }
    }
  }

  /** Each block ends before any later block begins, so blocks never overlap. */
  lemma BlocksOrdered(first: int, stop: int, cap: int, split: nat)
    requires split >= 1
    ensures forall i, j :: 0 <= i < j < |Blocks(first, stop, cap, split)| ==>
      Blocks(first, stop, cap, split)[i].1 < Blocks(first, stop, cap, split)[j].0
  {
    BlocksSpaced(first, stop, cap, split);
  }

  /** The year blocks of `GetCatalogue` as written: `range(StartYear, EndYear, SplitYears)`. */
  function YearBlocks(startYear: int, endYear: int, split: nat): (r: seq<(int, int)>)
    requires split >= 1
    ensures forall k :: 0 <= k < |r| ==> startYear <= r[k].0 <= r[k].1 <= endYear && r[k].0 < endYear
    ensures forall i, j :: 0 <= i < j < |r| ==> r[i].1 < r[j].0
  {
    BlocksOrdered(startYear, endYear, endYear, split);
    Blocks(startYear, endYear, endYear, split)
  }

  /** `m` steps of `split` years, added up one step at a time. */
  function Span(split: nat, m: nat): nat
  {
    if m == 0 then 0 else Span(split, m - 1) + split
  }

  /** `m` steps of `split` years span `m * split` years. */
  lemma {:induction false} SpanIsProduct(split: nat, m: nat)
    ensures Span(split, m) == m * split
  {
    if m > 0 {
      SpanIsProduct(split, m - 1);
    }
  }

  /** Blocks whose stop is a whole number `m` of steps away all end before the stop. */
  lemma {:induction false} BlocksBeforeWholeStop(first: int, stop: int, cap: int, split: nat, m: nat)
    requires split >= 1 && stop - first == Span(split, m)
    ensures forall k :: 0 <= k < |Blocks(first, stop, cap, split)| ==> Blocks(first, stop, cap, split)[k].0 + split <= stop
    decreases m
  {
    if m > 0 {
      assert stop - (first + split) == Span(split, m - 1);
      BlocksBeforeWholeStop(first + split, stop, cap, split, m - 1);
      var rest := Blocks(first + split, stop, cap, split);
      assert Blocks(first, stop, cap, split) == [(first, Min(cap, first + split - 1))] + rest;
    }
  }

  /**
    As written, the end year is never requested when the span is a multiple
    of the block length, although a request without blocks covers it.
   */
  lemma YearBlocksMissEndYear(startYear: int, endYear: int, split: nat)
    requires split >= 1 && startYear <= endYear && (endYear - startYear) % split == 0
    ensures forall k :: 0 <= k < |YearBlocks(startYear, endYear, split)| ==> YearBlocks(startYear, endYear, split)[k].1 < endYear
  {
    var m := (endYear - startYear) / split;
    assert endYear - startYear == m * split;
    SpanIsProduct(split, m);
    BlocksBeforeWholeStop(startYear, endYear, endYear, split, m);
  }

  /** With the default years and one-year blocks only 2012 is requested, not 2013. */
  lemma DefaultYearsOneBlock()
    ensures YearBlocks(2012, 2013, 1) == [(2012, 2012)]
    ensures CoveringYearBlocks(2012, 2013, 1) == [(2012, 2012), (2013, 2013)]
  {
    assert Blocks(2013, 2013, 2013, 1) == [];
    assert Blocks(2014, 2014, 2013, 1) == [];
    assert Blocks(2013, 2014, 2013, 1) == [(2013, 2013)];
  }

  /** The year blocks with the end year included: `range(StartYear, EndYear + 1, SplitYears)`. */
  function CoveringYearBlocks(startYear: int, endYear: int, split: nat): (r: seq<(int, int)>)
    requires split >= 1
    ensures forall k :: 0 <= k < |r| ==> startYear <= r[k].0 <= r[k].1 <= endYear
    ensures forall i, j :: 0 <= i < j < |r| ==> r[i].1 < r[j].0
    ensures |r| > 0 ==> r[0].0 == startYear && r[|r| - 1].1 == endYear
  {
    BlocksOrdered(startYear, endYear + 1, endYear, split);
    Blocks(startYear, endYear + 1, endYear, split)
  }

  /** The index of the block holding year `y`, counted block by block from `first`. */
  function BlockOf(first: int, split: nat, y: int): nat
    requires split >= 1 && first <= y
    decreases y - first
  {
    if y < first + split then 0 else 1 + BlockOf(first + split, split, y)
  }

  /** Every year below the stop lies in its block, when the cap does not cut blocks short. */
  lemma {:induction false} BlocksCover(first: int, stop: int, cap: int, split: nat, y: int)
    requires split >= 1 && first <= y < stop && stop - 1 <= cap
    ensures var r := Blocks(first, stop, cap, split); var k := BlockOf(first, split, y);
      k < |r| && r[k].0 <= y <= r[k].1
    decreases y - first
  {
    var r := Blocks(first, stop, cap, split);
    var rest := Blocks(first + split, stop, cap, split);
    assert r == [(first, Min(cap, first + split - 1))] + rest;
    if y >= first + split {
      BlocksCover(first + split, stop, cap, split, y);
      var k := BlockOf(first + split, split, y);
      assert BlockOf(first, split, y) == k + 1;
      assert r[k + 1] == rest[k];
    }
  }

  /** Every year from the start year to the end year lies in exactly one covering block. */
  lemma CoveringYearBlocksCover(startYear: int, endYear: int, split: nat, y: int)
    requires split >= 1 && startYear <= y <= endYear
    ensures var r := CoveringYearBlocks(startYear, endYear, split); var k := BlockOf(startYear, split, y);
      k < |r| && r[k].0 <= y <= r[k].1 &&
      forall j :: 0 <= j < |r| && r[j].0 <= y <= r[j].1 ==> j == k
  {
    BlocksCover(startYear, endYear + 1, endYear, split, y);
  }

  // ---------------------------------------------------------------------------
  // Downloading

  /**
    `DownloadBlock`'s cut of a page: from the first `DATA_TYPE` to just before
    the character that precedes the first `STOP`, or nothing unless both
    markers occur. Python's slice semantics apply: a `STOP` at the very
    start makes the end index -1, the last character.
   */
  function ExtractBlock(page: string): (r: string)
    ensures !Contains(page, "DATA_TYPE") || !Contains(page, "STOP") ==> r == []
    ensures var a := Find(page, "DATA_TYPE"); var b := Find(page, "STOP");
      a >= 0 && b > a ==> r == page[a..b - 1]
    ensures var a := Find(page, "DATA_TYPE"); var b := Find(page, "STOP");
      0 < b <= a ==> r == []
  {
    var a := Find(page, "DATA_TYPE");
    var b := Find(page, "STOP");
    if a > -1 && b > -1 then PySlice(page, a, b - 1) else []
  }

  /** An occurrence inside a slice is an occurrence in the whole text, shifted by the slice's start. */
  lemma OccursInSlice(page: string, lo: int, hi: int, pat: string, j: int)
    requires 0 <= lo <= hi <= |page| && OccursAt(page[lo..hi], pat, j)
    ensures OccursAt(page, pat, lo + j)
  {
    var sub := page[lo..hi];
    forall t | 0 <= t < |pat|
      ensures page[lo + j..lo + j + |pat|][t] == pat[t]
    {
      assert sub[j..j + |pat|][t] == pat[t];
    }
  }

  /** The block starts with its marker and holds no `STOP`. */
  lemma ExtractBlockBetweenMarkers(page: string)
    requires Contains(page, "DATA_TYPE") && Contains(page, "STOP")
    requires Find(page, "DATA_TYPE") + 9 < Find(page, "STOP")
    ensures |ExtractBlock(page)| >= 9 && ExtractBlock(page)[..9] == "DATA_TYPE"
    ensures !Contains(ExtractBlock(page), "STOP")
  {
    var a := Find(page, "DATA_TYPE");
    var b := Find(page, "STOP");
    var r := ExtractBlock(page);
    assert r == page[a..b - 1];
    assert r[..9] == page[a..a + 9];
    forall j | 0 <= j
      ensures !OccursAt(r, "STOP", j)
    {
      if OccursAt(r, "STOP", j) {
        OccursInSlice(page, a, b - 1, "STOP", j);
      }
    }
  }

  /** A `STOP` at the very start of the page makes the block run to the last character but one... of the page. */
  lemma ExtractBlockStopFirst(page: string)
    requires Contains(page, "DATA_TYPE") && Find(page, "STOP") == 0
    ensures ExtractBlock(page) == page[Find(page, "DATA_TYPE")..|page| - 1]
  {
  }

  /**
   * Where `chunk.split('\n', n)[-1]` starts: just after the `n`-th line break, or after
   * the last one when there are fewer; a cut never falls anywhere but after a line break.
   */
  function LinesStart(chunk: string, n: nat): (k: nat)
    ensures k <= |chunk|
    ensures k == 0 || chunk[k - 1] == '\n'
    ensures n == 0 ==> k == 0
    decreases n
  {
    if n == 0 || '\n' !in chunk then 0
    else
      var i := IndexOf(chunk, '\n');
      i + 1 + LinesStart(chunk[i + 1..], n - 1)
  }

  /** `chunk.split('\n', n)[-1]`: the text after the first `n` line breaks, or after all of them when there are fewer. */
  function AfterLines(chunk: string, n: nat): (r: string)
    ensures |r| <= |chunk| && r == chunk[|chunk| - |r|..]
  {
    chunk[LinesStart(chunk, n)..]
  }

  /** Dropping the first two lines of a chunk (its header). */
  function DropTwoLines(chunk: string): (r: string)
    ensures |r| <= |chunk| && r == chunk[|chunk| - |r|..]
  {
    AfterLines(chunk, 2)
  }

  /** Two header lines are dropped exactly. */
  lemma DropTwoLinesOfHeader(l1: string, l2: string, rest: string)
    requires '\n' !in l1 && '\n' !in l2
    ensures DropTwoLines(l1 + "\n" + l2 + "\n" + rest) == rest
  {
    var c := l1 + "\n" + l2 + "\n" + rest;
    IndexOfAfterFree(l1, "\n" + l2 + "\n" + rest, '\n');
    assert c == l1 + ("\n" + l2 + "\n" + rest);
    var c1 := c[|l1| + 1..];
    assert c1 == l2 + ("\n" + rest);
    IndexOfAfterFree(l2, "\n" + rest, '\n');
    assert c1[|l2| + 1..] == rest;
    assert LinesStart(c, 2) == |l1| + 1 + |l2| + 1;
  }

  /** `self.Request[key].split("=")[1]`: `KeyError` for an unknown name, `IndexError` for a text without `=`. */
  function RequestValue(s: Settings, key: string): (r: Result<string>)
    ensures KeyIndex(s.request, key).None? ==> r == Err(KeyError(key))
    ensures KeyIndex(s.request, key).Some? ==> r == FieldValue(s.request[KeyIndex(s.request, key).value])
  {
    match KeyIndex(s.request, key)
    case None => Err(KeyError(key))
    case Some(i) => FieldValue(s.request[i])
  }

  /** Rendered integers hold no `=`. */
  lemma IntStringHasNoEquals(i: int)
    ensures '=' !in IntToString(i)
  {
    var t := IntToString(i);
    forall k | 0 <= k < |t|
      ensures t[k] != '='
    {
      if i >= 0 {
        assert IsDigit(t[k]);
      } else if k > 0 {
        assert t[1..][k - 1] == t[k];
        assert IsDigit(t[1..][k - 1]);
      }
    }
  }

  /** The settings after writing both years of a block, when both fields exist. */
  function SetYears(s: Settings, block: (int, int)): Result<Settings>
  {
    var s1 :- SetField(s, "StartYear", IntToString(block.0));
    SetField(s1, "EndYear", IntToString(block.1))
  }

  /** A value without `=` written by `SetField` is read back by `RequestValue`. */
  lemma SetFieldReadBack(s: Settings, name: string, value: string)
    requires KeyIndex(s.request, name).Some? && '=' !in value
    ensures SetField(s, name, value).Ok?
    ensures RequestValue(SetField(s, name, value).value, name) == Ok(value)
  {
    KeyIndexOfSameKeys(s.request, SetField(s, name, value).value.request, name);
  }

  /** `SetField` leaves the value of every other field as it was. */
  lemma SetFieldOtherValue(s: Settings, name: string, value: string, other: string)
    requires KeyIndex(s.request, name).Some? && other != name
    ensures SetField(s, name, value).Ok?
    ensures RequestValue(SetField(s, name, value).value, other) == RequestValue(s, other)
  {
    KeyIndexOfSameKeys(s.request, SetField(s, name, value).value.request, other);
  }

  lemma SetYearsReadBack(s: Settings, block: (int, int))
    requires KeyIndex(s.request, "StartYear").Some? && KeyIndex(s.request, "EndYear").Some?
    ensures SetYears(s, block).Ok?
    ensures RequestValue(SetYears(s, block).value, "StartYear") == Ok(IntToString(block.0))
    ensures RequestValue(SetYears(s, block).value, "EndYear") == Ok(IntToString(block.1))
  {
    IntStringHasNoEquals(block.0);
    IntStringHasNoEquals(block.1);
    SetFieldReadBack(s, "StartYear", IntToString(block.0));
    var s1 := SetField(s, "StartYear", IntToString(block.0)).value;
    KeyIndexOfSameKeys(s.request, s1.request, "EndYear");
    SetFieldReadBack(s1, "EndYear", IntToString(block.1));
    SetFieldOtherValue(s1, "EndYear", IntToString(block.1), "StartYear");
  }

  lemma SetYearsLayout(s: Settings, block: (int, int))
    requires SetYears(s, block).Ok?
    ensures SameLayout(SetYears(s, block).value, s)
    ensures forall j :: 0 <= j < |s.request| && s.request[j].key !in {"StartYear", "EndYear"} ==>
              SetYears(s, block).value.request[j] == s.request[j]
  {
    var s1 := SetField(s, "StartYear", IntToString(block.0)).value;
    SetFieldLayout(s, "StartYear", IntToString(block.0));
    SetFieldLayout(s1, "EndYear", IntToString(block.1));
    SameLayoutTrans(Ok(([], SetYears(s, block).value)), s1, s);
  }

  /** The settings for one block: start and end year set, everything else as it was. */
  function BlockSettings(s: Settings, block: (int, int)): (r: Result<Settings>)
    ensures r.Ok? <==> KeyIndex(s.request, "StartYear").Some? && KeyIndex(s.request, "EndYear").Some?
    ensures r.Ok? ==> RequestValue(r.value, "StartYear") == Ok(IntToString(block.0))
    ensures r.Ok? ==> RequestValue(r.value, "EndYear") == Ok(IntToString(block.1))
    ensures r.Ok? ==> SameLayout(r.value, s)
    ensures r.Ok? ==> forall j :: 0 <= j < |s.request| && s.request[j].key !in {"StartYear", "EndYear"} ==>
              r.value.request[j] == s.request[j]
  {
    if KeyIndex(s.request, "StartYear").Some? && KeyIndex(s.request, "EndYear").Some? then
      SetYearsReadBack(s, block);
      SetYearsLayout(s, block);
      SetYears(s, block)
    else
      SetYears(s, block)
  }

  /** One block fetched: its settings, and its text without the two header lines unless it is the first year's block. */
  function FetchBlock(s: Settings, block: (int, int), startYear: int, fetch: string -> string): (r: Result<(string, Settings)>)
    ensures r.Ok? <==> BlockSettings(s, block).Ok?
    ensures r.Ok? ==> r.value.1 == BlockSettings(s, block).value
  {
    var next :- BlockSettings(s, block);
    var chunk := ExtractBlock(fetch(CreateUrl(next)));
    Ok((if block.0 != startYear then DropTwoLines(chunk) else chunk, next))
  }

  /** The blocks fetched in turn, their texts appended to `acc`. */
  function DownloadBlocks(s: Settings, blocks: seq<(int, int)>, startYear: int, acc: string, fetch: string -> string): (r: Result<(string, Settings)>)
    ensures r.Ok? ==> |r.value.0| >= |acc| && r.value.0[..|acc|] == acc
    ensures r.Ok? ==> SameLayout(r.value.1, s)
    decreases |blocks|
  {
    if |blocks| == 0 then Ok((acc, s))
    else
      var fetched :- FetchBlock(s, blocks[0], startYear, fetch);
      var r := DownloadBlocks(fetched.1, blocks[1..], startYear, acc + fetched.0, fetch);
      PrefixOfPrefix(acc, acc + fetched.0, r);
      SameLayoutTrans(r, fetched.1, s);
      r
  }

  /** A prefix of a prefix of the result is a prefix of it. */
  lemma PrefixOfPrefix(acc: string, longer: string, r: Result<(string, Settings)>)
    requires |longer| >= |acc| && longer[..|acc|] == acc
    requires r.Ok? ==> |r.value.0| >= |longer| && r.value.0[..|longer|] == longer
    ensures r.Ok? ==> |r.value.0| >= |acc| && r.value.0[..|acc|] == acc
  {
    if r.Ok? {
      assert r.value.0[..|acc|] == r.value.0[..|longer|][..|acc|];
    }
  }

  /** Having the same layout is transitive. */
  lemma SameLayoutTrans(r: Result<(string, Settings)>, mid: Settings, s: Settings)
    requires SameLayout(mid, s)
    requires r.Ok? ==> SameLayout(r.value.1, mid)
    ensures r.Ok? ==> SameLayout(r.value.1, s)
  {
  }

  /** The start and end years of the request, read back as integers: the text after the first `=` of each field. */
  function RequestYears(s: Settings): (r: Result<(int, int)>)
    ensures KeyIndex(s.request, "StartYear").None? ==> r == Err(KeyError("StartYear"))
    ensures r.Ok? ==> RequestValue(s, "StartYear").Ok? && PyInt(RequestValue(s, "StartYear").value) == Ok(r.value.0)
    ensures r.Ok? ==> RequestValue(s, "EndYear").Ok? && PyInt(RequestValue(s, "EndYear").value) == Ok(r.value.1)
  {
    var startText :- RequestValue(s, "StartYear");
    var startYear :- PyInt(startText);
    var endText :- RequestValue(s, "EndYear");
    var endYear :- PyInt(endText);
    Ok((startYear, endYear))
  }

  /**
    `GetCatalogue` as written, without the file write: the catalogue text
    and the settings it leaves behind. Without blocks (0) one page is
    fetched; with blocks the start and end years are read from the request
    and one page is fetched per block of `range(StartYear, EndYear, SplitYears)`.
   */
  function GetCatalogue(s: Settings, split: nat, fetch: string -> string): (r: Result<(string, Settings)>)
    ensures split == 0 ==> r == Ok((ExtractBlock(fetch(CreateUrl(s))), s))
    ensures split > 0 && KeyIndex(s.request, "StartYear").None? ==> r == Err(KeyError("StartYear"))
    ensures r.Ok? ==> SameLayout(r.value.1, s)
  {
    if split == 0 then Ok((ExtractBlock(fetch(CreateUrl(s))), s))
    else
      var years :- RequestYears(s);
      DownloadBlocks(s, YearBlocks(years.0, years.1, split), years.0, [], fetch)
  }

  /** `GetCatalogue` as its loop evidently intends: the blocks run up to and including the end year. */
  function GetCatalogueCorrected(s: Settings, split: nat, fetch: string -> string): (r: Result<(string, Settings)>)
    ensures split == 0 ==> r == GetCatalogue(s, split, fetch)
    ensures split > 0 && KeyIndex(s.request, "StartYear").None? ==> r == Err(KeyError("StartYear"))
    ensures r.Ok? ==> SameLayout(r.value.1, s)
  {
    if split == 0 then Ok((ExtractBlock(fetch(CreateUrl(s))), s))
    else
      var years :- RequestYears(s);
      DownloadBlocks(s, CoveringYearBlocks(years.0, years.1, split), years.0, [], fetch)
  }

  /** The first block's text is kept whole: it opens the catalogue. */
  lemma FirstBlockKept(s: Settings, blocks: seq<(int, int)>, startYear: int, fetch: string -> string)
    requires |blocks| > 0 && blocks[0].0 == startYear
    requires DownloadBlocks(s, blocks, startYear, [], fetch).Ok?
    ensures var chunk := ExtractBlock(fetch(CreateUrl(BlockSettings(s, blocks[0]).value)));
      var text := DownloadBlocks(s, blocks, startYear, [], fetch).value.0;
      |text| >= |chunk| && text[..|chunk|] == chunk
  {
    var next := BlockSettings(s, blocks[0]).value;
    var chunk := ExtractBlock(fetch(CreateUrl(next)));
    assert FetchBlock(s, blocks[0], startYear, fetch) == Ok((chunk, next));
    assert [] + chunk == chunk;
  }

  /** The settings left behind carry the last block's end year. */
  lemma {:induction false} DownloadBlocksLastYear(s: Settings, blocks: seq<(int, int)>, startYear: int, acc: string, fetch: string -> string)
    requires |blocks| > 0 && DownloadBlocks(s, blocks, startYear, acc, fetch).Ok?
    ensures RequestValue(DownloadBlocks(s, blocks, startYear, acc, fetch).value.1, "EndYear") == Ok(IntToString(blocks[|blocks| - 1].1))
    decreases |blocks|
  {
    var fetched := FetchBlock(s, blocks[0], startYear, fetch).value;
    if |blocks| > 1 {
      DownloadBlocksLastYear(fetched.1, blocks[1..], startYear, acc + fetched.0, fetch);
    }
  }

  /** Block settings exist, and still name both years, when the request names both years. */
  lemma BlockSettingsKeepsYears(s: Settings, block: (int, int))
    requires KeyIndex(s.request, "StartYear").Some? && KeyIndex(s.request, "EndYear").Some?
    ensures BlockSettings(s, block).Ok?
    ensures KeyIndex(BlockSettings(s, block).value.request, "StartYear").Some?
    ensures KeyIndex(BlockSettings(s, block).value.request, "EndYear").Some?
  {
    var next := BlockSettings(s, block).value;
    assert RequestValue(next, "StartYear").Ok? && RequestValue(next, "EndYear").Ok?;
  }

  /** A block fetch succeeds, and keeps both year names, when the request names both years. */
  lemma FetchBlockKeepsYears(s: Settings, block: (int, int), startYear: int, fetch: string -> string)
    requires KeyIndex(s.request, "StartYear").Some? && KeyIndex(s.request, "EndYear").Some?
    ensures FetchBlock(s, block, startYear, fetch).Ok?
    ensures KeyIndex(FetchBlock(s, block, startYear, fetch).value.1.request, "StartYear").Some?
    ensures KeyIndex(FetchBlock(s, block, startYear, fetch).value.1.request, "EndYear").Some?
  {
    BlockSettingsKeepsYears(s, block);
  }

  /** Every block is fetched when the request names both years. */
  lemma {:induction false} DownloadBlocksOk(s: Settings, blocks: seq<(int, int)>, startYear: int, acc: string, fetch: string -> string)
    requires KeyIndex(s.request, "StartYear").Some? && KeyIndex(s.request, "EndYear").Some?
    ensures DownloadBlocks(s, blocks, startYear, acc, fetch).Ok?
    decreases |blocks|
  {
    if |blocks| > 0 {
      FetchBlockKeepsYears(s, blocks[0], startYear, fetch);
      var fetched := FetchBlock(s, blocks[0], startYear, fetch).value;
      DownloadBlocksOk(fetched.1, blocks[1..], startYear, acc + fetched.0, fetch);
    }
  }

  /** With blocks, integer years are read back and the blocks between them downloaded, as written and corrected. */
  lemma GetCatalogueOfIntYears(s: Settings, split: nat, fetch: string -> string, startYear: int, endYear: int)
    requires split >= 1
    requires RequestValue(s, "StartYear") == Ok(IntToString(startYear))
    requires RequestValue(s, "EndYear") == Ok(IntToString(endYear))
    ensures GetCatalogue(s, split, fetch) == DownloadBlocks(s, YearBlocks(startYear, endYear, split), startYear, [], fetch)
    ensures GetCatalogueCorrected(s, split, fetch) == DownloadBlocks(s, CoveringYearBlocks(startYear, endYear, split), startYear, [], fetch)
  {
    RequestYearsOfInts(s, startYear, endYear);
  }

  /** Years written as integers are read back as those integers. */
  lemma RequestYearsOfInts(s: Settings, startYear: int, endYear: int)
    requires RequestValue(s, "StartYear") == Ok(IntToString(startYear))
    requires RequestValue(s, "EndYear") == Ok(IntToString(endYear))
    ensures RequestYears(s) == Ok((startYear, endYear))
  {
    PyIntRoundTrip(startYear);
    PyIntRoundTrip(endYear);
  }

  /**
    As written, with blocks and a span that is a whole number of blocks,
    every block is fetched but the settings left behind end before the end
    year: the last year is never requested.
   */
  lemma GetCatalogueMissesEndYear(s: Settings, split: nat, fetch: string -> string, startYear: int, endYear: int)
    requires split >= 1 && startYear < endYear && (endYear - startYear) % split == 0
    requires RequestValue(s, "StartYear") == Ok(IntToString(startYear))
    requires RequestValue(s, "EndYear") == Ok(IntToString(endYear))
    ensures GetCatalogue(s, split, fetch).Ok?
    ensures var blocks := YearBlocks(startYear, endYear, split);
              |blocks| > 0 && blocks[|blocks| - 1].1 < endYear &&
              RequestValue(GetCatalogue(s, split, fetch).value.1, "EndYear") == Ok(IntToString(blocks[|blocks| - 1].1))
  {
    var blocks := YearBlocks(startYear, endYear, split);
    assert |blocks| > 0;
    YearBlocksMissEndYear(startYear, endYear, split);
    GetCatalogueOfIntYears(s, split, fetch, startYear, endYear);
    DownloadBlocksOk(s, blocks, startYear, [], fetch);
    DownloadBlocksLastYear(s, blocks, startYear, [], fetch);
  }

  /**
    Corrected, with blocks, a request whose years are written as integers
    is fetched in full, and the settings left behind end at the end year
    itself.
   */
  lemma GetCatalogueReachesEndYear(s: Settings, split: nat, fetch: string -> string, startYear: int, endYear: int)
    requires split >= 1 && startYear <= endYear
    requires RequestValue(s, "StartYear") == Ok(IntToString(startYear))
    requires RequestValue(s, "EndYear") == Ok(IntToString(endYear))
    ensures GetCatalogueCorrected(s, split, fetch).Ok?
    ensures RequestValue(GetCatalogueCorrected(s, split, fetch).value.1, "EndYear") == Ok(IntToString(endYear))
  {
    var blocks := CoveringYearBlocks(startYear, endYear, split);
    assert |blocks| > 0 && blocks[|blocks| - 1].1 == endYear;
    GetCatalogueOfIntYears(s, split, fetch, startYear, endYear);
    DownloadBlocksOk(s, blocks, startYear, [], fetch);
    DownloadBlocksLastYear(s, blocks, startYear, [], fetch);
  }
}
