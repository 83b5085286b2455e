/**
 * `toGoogleCalendarUrl` (utils/calendar.ts): the Google Calendar "add event" link for an
 * event. Start and end are compacted into the UTC DATE-TIME form of section 3.3.5 of
 * RFC 5545, and the fields go, in a fixed order, into a URLSearchParams query.
 */
module CalendarLink {
  import opened Wrappers
  import opened UrlQuery

  const DefaultTimezone: string := "America/Mexico_City"
  const RenderEndpoint: string := "https://calendar.google.com/calendar/render?"

  /**
   * The arguments of `toGoogleCalendarUrl`. `start` and `end` are taken as the strings
   * their `toISOString()` gives; `None` stands for an argument left `undefined`.
   */
  datatype CalendarEvent = CalendarEvent(
    title: string,
    startIso: string,
    endIso: string,
    description: Option<string>,
    location: Option<string>,
    timezone: Option<string>)

  // ---------------------------------------------------------------------------
  // fmt
  // ---------------------------------------------------------------------------

  /** `replace(/[-:]/g, "")` */
  function StripSeparators(s: string): string
  {
    if s == [] then []
    else (if s[0] == '-' || s[0] == ':' then [] else [s[0]]) + StripSeparators(s[1..])
  }

  /** `split(".")[0]`: the text before the first `.`, or all of it without one. */
  function BeforeFirstDot(s: string): (r: string)
    ensures '.' !in r
    ensures |r| <= |s| && r == s[..|r|]
    ensures |r| == |s| || s[|r|] == '.'
  {
    if s == [] || s[0] == '.' then [] else [s[0]] + BeforeFirstDot(s[1..])
  }

  /** `fmt`: the ISO timestamp without separators and fraction, marked `Z`. */
  function Fmt(iso: string): (r: string)
    ensures |r| >= 1 && r[|r| - 1] == 'Z'
    ensures '-' !in r && ':' !in r && '.' !in r
  {
    StripRemoves(iso);
    BeforeFirstDot(StripSeparators(iso)) + "Z"
  }

  lemma {:induction false} StripRemoves(s: string)
    ensures '-' !in StripSeparators(s) && ':' !in StripSeparators(s)
  {
    if s != [] {
      StripRemoves(s[1..]);
    }
  }

  /** `fmt` brings in no character but the final `Z`. */
  lemma FmtAddsOnlyZ(iso: string, c: char)
    requires c !in iso && c != 'Z'
    ensures c !in Fmt(iso)
  {
    StripAddsNothing(iso, c);
  }

  lemma {:induction false} StripAddsNothing(s: string, c: char)
    requires c !in s
    ensures c !in StripSeparators(s)
  {
    if s != [] {
      assert c !in s[1..];
      StripAddsNothing(s[1..], c);
    }
  }

  predicate IsDigit(c: char)
  {
    '0' <= c <= '9'
  }

  predicate AllDigits(s: string)
  {
    forall i :: 0 <= i < |s| ==> IsDigit(s[i])
  }

  /** `YYYY-MM-DDTHH:mm:ss.sssZ`, the form `Date.prototype.toISOString` gives for years 0 to 9999. */
  predicate IsIsoTimestamp(s: string)
  {
    |s| == 24 &&
    AllDigits(s[0..4]) && s[4] == '-' && AllDigits(s[5..7]) && s[7] == '-' && AllDigits(s[8..10]) &&
    s[10] == 'T' &&
    AllDigits(s[11..13]) && s[13] == ':' && AllDigits(s[14..16]) && s[16] == ':' && AllDigits(s[17..19]) &&
    s[19] == '.' && AllDigits(s[20..23]) && s[23] == 'Z'
  }

  /** The UTC form of an RFC 5545 DATE-TIME: `YYYYMMDD`, `T`, `HHMMSS`, `Z`. */
  predicate IsUtcDateTime(r: string)
  {
    |r| == 16 && AllDigits(r[0..8]) && r[8] == 'T' && AllDigits(r[9..15]) && r[15] == 'Z'
  }

  lemma {:induction false} StripAppend(a: string, b: string)
    ensures StripSeparators(a + b) == StripSeparators(a) + StripSeparators(b)
  {
    if a == [] {
      assert a + b == b;
    } else {
      assert (a + b)[0] == a[0] && (a + b)[1..] == a[1..] + b;
      StripAppend(a[1..], b);
    }
  }

  lemma {:induction false} StripKeeps(s: string)
    requires '-' !in s && ':' !in s
    ensures StripSeparators(s) == s
  {
    if s != [] {
      assert '-' !in s[1..] && ':' !in s[1..];
      StripKeeps(s[1..]);
      assert [s[0]] + s[1..] == s;
    }
  }

  lemma {:induction false} BeforeDotOf(a: string, b: string)
    requires '.' !in a
    ensures BeforeFirstDot(a + "." + b) == a
  {
    if a == [] {
      assert a + "." + b == ['.'] + b;
    } else {
      assert (a + "." + b)[1..] == a[1..] + "." + b;
      assert '.' !in a[1..];
      BeforeDotOf(a[1..], b);
      assert [a[0]] + a[1..] == a;
    }
  }

  /** The fourteen digits of an ISO timestamp with the `T` between date and time. */
  function CompactBody(s: string): string
    requires |s| >= 19
  {
    s[0..4] + s[5..7] + s[8..10] + "T" + s[11..13] + s[14..16] + s[17..19]
  }

  /**
   * On an ISO timestamp `fmt` keeps the fourteen digits and the `T`, in their order, and
   * gives the sixteen-character UTC DATE-TIME.
   */
  lemma FmtIsoTimestamp(s: string)
    requires IsIsoTimestamp(s)
    ensures Fmt(s) == s[0..4] + s[5..7] + s[8..10] + "T" + s[11..13] + s[14..16] + s[17..19] + "Z"
    ensures IsUtcDateTime(Fmt(s))
  {
    var body := CompactBody(s);
    StripIso(s);
    CompactBodyShape(s);
    assert s[19..] == "." + s[20..];
    BeforeDotOf(body, s[20..]);
    assert StripSeparators(s) == body + "." + s[20..];
    assert BeforeFirstDot(StripSeparators(s)) == body;
    var r := body + "Z";
    assert Fmt(s) == r;
    assert |r| == 16 && r[8] == 'T' && r[15] == 'Z';
    assert r[0..8] == body[0..8];
    assert r[9..15] == body[9..15];
  }

  lemma StripIso(s: string)
    requires IsIsoTimestamp(s)
    ensures StripSeparators(s) == CompactBody(s) + s[19..]
  {
    var datePart, timePart, rest := s[..10], s[10..19], s[19..];
    assert s == datePart + timePart + rest;
    StripAppend(datePart + timePart, rest);
    StripAppend(datePart, timePart);
    assert datePart == s[0..4] + "-" + s[5..7] + "-" + s[8..10];
    StripDate(datePart, s[0..4], s[5..7], s[8..10]);
    assert timePart == [s[10]] + s[11..13] + [s[13]] + s[14..16] + [s[16]] + s[17..19];
    assert timePart == "T" + s[11..13] + ":" + s[14..16] + ":" + s[17..19];
    StripTime(timePart, s[11..13], s[14..16], s[17..19]);
    assert rest == [s[19]] + s[20..23] + [s[23]];
    assert forall i :: 0 <= i < |rest| ==> rest[i] != '-' && rest[i] != ':';
    StripKeeps(rest);
  }

  lemma CompactBodyShape(s: string)
    requires IsIsoTimestamp(s)
    ensures |CompactBody(s)| == 15 && '.' !in CompactBody(s)
    ensures AllDigits(CompactBody(s)[0..8]) && CompactBody(s)[8] == 'T' && AllDigits(CompactBody(s)[9..15])
  {
    var body := CompactBody(s);
    assert forall i :: 0 <= i < 15 ==> IsDigit(body[i]) || body[i] == 'T';
  }

  lemma StripAround(a: string, c: char, b: string)
    requires c == '-' || c == ':'
    ensures StripSeparators(a + [c] + b) == StripSeparators(a) + StripSeparators(b)
  {
    StripAppend(a + [c], b);
    StripAppend(a, [c]);
  }

  lemma StripDate(d: string, y: string, m: string, day: string)
    requires AllDigits(y) && AllDigits(m) && AllDigits(day)
    requires d == y + "-" + m + "-" + day
    ensures StripSeparators(d) == y + m + day
  {
    StripAround(y + "-" + m, '-', day);
    StripAround(y, '-', m);
    DigitsKept(y);
    DigitsKept(m);
    DigitsKept(day);
  }

  lemma StripTime(t: string, h: string, m: string, sec: string)
    requires AllDigits(h) && AllDigits(m) && AllDigits(sec)
    requires t == "T" + h + ":" + m + ":" + sec
    ensures StripSeparators(t) == "T" + h + m + sec
  {
    StripAround("T" + h + ":" + m, ':', sec);
    StripAround("T" + h, ':', m);
    StripAppend("T", h);
    DigitsKept(h);
    DigitsKept(m);
    DigitsKept(sec);
  }

  lemma DigitsKept(s: string)
    requires AllDigits(s)
    ensures StripSeparators(s) == s
  {
    assert forall i :: 0 <= i < |s| ==> s[i] != '-' && s[i] != ':';
    StripKeeps(s);
  }

  // ---------------------------------------------------------------------------
  // The parameters and the link
  // ---------------------------------------------------------------------------

  /** `if (x)` on an optional string: present and not empty. */
  predicate Truthy(x: Option<string>)
  {
    x.Some? && x.value != ""
  }

  /** The `timezone = "America/Mexico_City"` default, applied only to `undefined`. */
  function TimezoneOf(e: CalendarEvent): string
  {
    if e.timezone.Some? then e.timezone.value else DefaultTimezone
  }

  /** The `dates` value: the two compact timestamps joined by `/`. */
  function Dates(e: CalendarEvent): string
  {
    Fmt(e.startIso) + "/" + Fmt(e.endIso)
  }

  /** The record the URLSearchParams object is built from. */
  function FixedParams(e: CalendarEvent): seq<Pair>
  {
    [("action", "TEMPLATE"), ("text", e.title), ("dates", Dates(e)), ("ctz", TimezoneOf(e))]
  }

  /** The query the builder produces, written out as one list. */
  function CalendarParams(e: CalendarEvent): seq<Pair>
  {
    FixedParams(e) +
    (if Truthy(e.description) then [("details", e.description.value)] else []) +
    (if Truthy(e.location) then [("location", e.location.value)] else [])
  }

  /** The link the builder returns. */
  function CalendarUrl(e: CalendarEvent): string
  {
    RenderEndpoint + Serialize(CalendarParams(e))
  }

  /**
   * `toGoogleCalendarUrl`: the four fixed parameters, then `set` for a non-empty
   * description and a non-empty location, then the endpoint and the serialized query.
   */
  method ToGoogleCalendarUrl(e: CalendarEvent) returns (url: string)
    ensures url == CalendarUrl(e)
  {
    var params := new SearchParams(FixedParams(e));
    ghost var withDetails := FixedParams(e) +
      (if Truthy(e.description) then [("details", e.description.value)] else []);
    if Truthy(e.description) {
      assert "details" !in Keys(params.list);
      SetParamSpec(params.list, "details", e.description.value);
      params.Set("details", e.description.value);
    }
    assert params.list == withDetails;
    if Truthy(e.location) {
      assert "location" !in Keys(params.list);
      SetParamSpec(params.list, "location", e.location.value);
      params.Set("location", e.location.value);
    }
    assert params.list == CalendarParams(e);
    url := RenderEndpoint + params.ToString();
  }

  /** The keys, in order: the four fixed ones, then `details` and `location` when given. */
  lemma CalendarParamKeys(e: CalendarEvent)
    ensures Keys(CalendarParams(e)) ==
      ["action", "text", "dates", "ctz"] +
      (if Truthy(e.description) then ["details"] else []) +
      (if Truthy(e.location) then ["location"] else [])
  {
    var fixed := FixedParams(e);
    var details := if Truthy(e.description) then [("details", e.description.value)] else [];
    var loc := if Truthy(e.location) then [("location", e.location.value)] else [];
    KeysAppend(fixed + details, loc);
    KeysAppend(fixed, details);
  }

  /**
   * `action` is `TEMPLATE`, `ctz` is the event's zone or the default, and `details` and
   * `location` carry the event's text exactly when it is non-empty.
   */
  lemma CalendarParamValues(e: CalendarEvent)
    ensures ValuesOf(CalendarParams(e), "action") == ["TEMPLATE"]
    ensures ValuesOf(CalendarParams(e), "ctz") == [TimezoneOf(e)]
    ensures e.timezone == None ==> ValuesOf(CalendarParams(e), "ctz") == ["America/Mexico_City"]
    ensures ValuesOf(CalendarParams(e), "details") == if Truthy(e.description) then [e.description.value] else []
    ensures ValuesOf(CalendarParams(e), "location") == if Truthy(e.location) then [e.location.value] else []
  {
    ValuesOfFixed(e, "action");
    ValuesOfFixed(e, "ctz");
    ValuesOfFixed(e, "details");
    ValuesOfFixed(e, "location");
    ValuesOfOptional(e, "action");
    ValuesOfOptional(e, "ctz");
    ValuesOfOptional(e, "details");
    ValuesOfOptional(e, "location");
  }

  /** The values of one name in the four fixed parameters. */
  lemma ValuesOfFixed(e: CalendarEvent, name: string)
    ensures ValuesOf(FixedParams(e), name) ==
      (if name == "action" then ["TEMPLATE"] else []) +
      (if name == "text" then [e.title] else []) +
      (if name == "dates" then [Dates(e)] else []) +
      (if name == "ctz" then [TimezoneOf(e)] else [])
  {
    var fixed := FixedParams(e);
    ValuesOfStep(fixed, 0, name);
    ValuesOfStep(fixed, 1, name);
    ValuesOfStep(fixed, 2, name);
    ValuesOfStep(fixed, 3, name);
    assert fixed[4..] == [] && fixed[0..] == fixed;
  }

  /** The values of one name in the two optional parameters. */
  lemma ValuesOfOptional(e: CalendarEvent, name: string)
    ensures ValuesOf(CalendarParams(e), name) ==
      ValuesOf(FixedParams(e), name) +
      (if name == "details" && Truthy(e.description) then [e.description.value] else []) +
      (if name == "location" && Truthy(e.location) then [e.location.value] else [])
  {
    var fixed := FixedParams(e);
    var details := if Truthy(e.description) then [("details", e.description.value)] else [];
    var loc := if Truthy(e.location) then [("location", e.location.value)] else [];
    DistributeValues(fixed + details, loc, name);
    DistributeValues(fixed, details, name);
    if details != [] {
      ValuesOfStep(details, 0, name);
      assert details[1..] == [] && details[0..] == details;
    }
    if loc != [] {
      ValuesOfStep(loc, 0, name);
      assert loc[1..] == [] && loc[0..] == loc;
    }
  }

  lemma KeysAppend(a: seq<Pair>, b: seq<Pair>)
    ensures Keys(a + b) == Keys(a) + Keys(b)
  {
  }

  /**
   * A zone name `Area/City` of unreserved characters, such as the default
   * `America/Mexico_City`, is sent with only its `/` escaped, as `Area%2FCity`.
   */
  lemma ZoneEncoding(area: string, city: string)
    requires forall i :: 0 <= i < |area| ==> IsUnreservedChar(area[i])
    requires forall i :: 0 <= i < |city| ==> IsUnreservedChar(city[i])
    ensures Encode(area + "/" + city) == area + "%2F" + city
  {
    EncodeAppend(area + "/", city);
    EncodeAppend(area, "/");
    EncodeUnreserved(area);
    EncodeUnreserved(city);
    assert Encode("/") == "%2F";
  }

  /** The default zone is sent as `America%2FMexico_City`. */
  lemma DefaultZoneEncoding()
    ensures Encode(DefaultTimezone) == "America" + "%2F" + "Mexico_City"
  {
    var area, city := "America", "Mexico_City";
    assert DefaultTimezone == area + "/" + city;
    assert forall i :: 0 <= i < |area| ==> IsUnreservedChar(area[i]);
    assert forall i :: 0 <= i < |city| ==> IsUnreservedChar(city[i]);
    ZoneEncoding(area, city);
  }

  /** Whatever the order of start and end, `dates` holds exactly one `/`, between the two. */
  lemma DatesSplit(e: CalendarEvent)
    requires '/' !in e.startIso && '/' !in e.endIso
    ensures SplitOn(Dates(e), '/') == [Fmt(e.startIso), Fmt(e.endIso)]
  {
    var a, b := Fmt(e.startIso), Fmt(e.endIso);
    FmtAddsOnlyZ(e.startIso, '/');
    FmtAddsOnlyZ(e.endIso, '/');
    assert Dates(e) == a + ['/'] + b;
    SplitAfter(a, b, '/');
    SplitWithout(b, '/');
  }

  /**
   * The link is the render endpoint followed by a query that parses back into exactly the
   * parameters, in order, as UTF-8 bytes.
   */
  lemma CalendarUrlParses(e: CalendarEvent)
    ensures |CalendarUrl(e)| > |RenderEndpoint|
    ensures CalendarUrl(e)[..|RenderEndpoint|] == RenderEndpoint
    ensures ParseQuery(CalendarUrl(e)[|RenderEndpoint|..]) == Utf8Pairs(CalendarParams(e))
  {
    var q := Serialize(CalendarParams(e));
    assert CalendarUrl(e)[|RenderEndpoint|..] == q;
    ParseSerialize(CalendarParams(e));
    ParseSerializedPair(CalendarParams(e)[0]);
  }
}
