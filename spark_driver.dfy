/** The JDBC entry point: which URLs the driver accepts, how an accepted URL
    splits into the Spark master and a query string, how the query string
    becomes properties, and the requirement that a configuration file is named. */
module SparkDriver {
  import opened Outcomes
  import opened JavaText
  import UrlDecoding

  const UrlPrefix: string := "jdbc:spark:"

  /** The exceptions connect raises. */
  datatype DriverError =
    | InvalidProperty(segment: string)                   // SQLException "invalid Property: " + segment
    | MalformedEscape(cause: UrlDecoding.DecodeError)    // IllegalArgumentException out of URLDecoder
    | ConfigNotSpecified                                 // SQLException "config must be specified"

  /** Properties.getProperty over own entries and a defaults list: the own
      entry when there is one, else the default, else null. */
  function PropertyOf(entries: map<string, string>, defaults: map<string, string>, key: string): (r: Option<string>)
    ensures r.Some? <==> key in entries || key in defaults
    ensures key in entries ==> r == Some(entries[key])
    ensures key !in entries && key in defaults ==> r == Some(defaults[key])
  {
    if key in entries then Some(entries[key])
    else if key in defaults then Some(defaults[key])
    else None
  }

  /** java.util.Properties with string keys and values, and the defaults
      getProperty falls back to (the whole chain of defaults as one map). */
  class Properties {
    var entries: map<string, string>
    var defaults: map<string, string>

    constructor ()
      ensures entries == map[] && defaults == map[]
    {
      entries := map[];
      defaults := map[];
    }

    /** getProperty: the own value, else the default, else null. */
    function GetProperty(key: string): Option<string>
      reads this
    {
      PropertyOf(entries, defaults, key)
    }

    /** putAll: every entry of other, overriding the own ones already present;
        the defaults are not touched. */
    method PutAll(other: map<string, string>)
      modifies this
      ensures entries == old(entries) + other
      ensures defaults == old(defaults)
    {
      entries := entries + other;
    }
  }

  /** acceptsURL: the URL begins with "jdbc:spark:". */
  function AcceptsUrl(url: string): (b: bool)
    ensures b <==> |UrlPrefix| <= |url| && url[..|UrlPrefix|] == UrlPrefix
  {
    UrlPrefix <= url
  }

  /** A master written "//host:port" names a standalone cluster: "spark://host:port". */
  function SparkMaster(m: string): string
  {
    if "//" <= m then "spark:" + m else m
  }

  /** The master connect derives from an accepted URL: the text after the
      prefix up to the first '?', normalised by SparkMaster. */
  function MasterOf(url: string): (r: string)
    requires AcceptsUrl(url)
    ensures '?' !in r
  {
    var rest := url[|UrlPrefix|..];
    var q := IndexOf(rest, '?');
    SparkMaster(if q >= 0 then rest[..q] else rest)
  }

  /** The query string of an accepted URL: everything after its first '?'. */
  function QueryOf(url: string): (r: Option<string>)
    requires AcceptsUrl(url)
    ensures r.Some? <==> '?' in url
  {
    var rest := url[|UrlPrefix|..];
    var q := IndexOf(rest, '?');
    if q >= 0 then Some(rest[q + 1..]) else None
  }

  /** An accepted URL takes apart into the master and query it was built from. */
  lemma UrlParts(m: string, query: Option<string>)
    requires '?' !in m
    ensures var url := UrlPrefix + m + (if query.Some? then "?" + query.value else "");
      AcceptsUrl(url) && MasterOf(url) == SparkMaster(m) && QueryOf(url) == query
  {
    var tail := if query.Some? then "?" + query.value else "";
    var url := UrlPrefix + m + tail;
    assert url[..|UrlPrefix|] == UrlPrefix;
    var rest := url[|UrlPrefix|..];
    assert rest == m + tail;
    if query.Some? {
      assert rest == m + ['?'] + query.value;
      IndexOfAfter(m, '?', query.value);
      assert rest[..|m|] == m;
      assert rest[|m| + 1..] == query.value;
    } else {
      assert rest == m;
      assert IndexOf(rest, '?') == -1;
    }
  }

  /** One '&'-separated segment of the query string: it must split on '=' into
      exactly two parts, which are then URL-decoded, key first. */
  function SegmentEntry(segment: string): (r: Result<(string, string), DriverError>)
    ensures '=' !in segment ==> r == Err(InvalidProperty(segment))
    ensures r.Err? && r.error.InvalidProperty? ==> r.error.segment == segment
    ensures r.Err? ==> !r.error.ConfigNotSpecified?
  {
    var property := Split(segment, '=');
    if |property| != 2 then Err(InvalidProperty(segment))
    else
      match UrlDecoding.Decode(property[0])
      case Err(e) => Err(MalformedEscape(e))
      case Ok(key) =>
        match UrlDecoding.Decode(property[1])
        case Err(e) => Err(MalformedEscape(e))
        case Ok(value) => Ok((key, value))
  }

  /** Sets each segment's entry into props, in order; the first bad segment
      stops everything. */
  function ApplySegments(props: map<string, string>, segments: seq<string>): (r: Result<map<string, string>, DriverError>)
    ensures r.Ok? ==> props.Keys <= r.value.Keys
    ensures r.Err? && r.error.InvalidProperty? ==> r.error.segment in segments
    ensures r.Err? ==> !r.error.ConfigNotSpecified?
    decreases |segments|
  {
    if segments == [] then Ok(props)
    else
      match SegmentEntry(segments[0])
      case Err(e) => Err(e)
      case Ok(entry) => ApplySegments(props[entry.0 := entry.1], segments[1..])
  }

  /** What parseUrlIno returns for a query string. */
  function ParseQuery(query: string): (r: Result<map<string, string>, DriverError>)
    ensures r.Err? && r.error.InvalidProperty? ==> r.error.segment in Split(query, '&')
    ensures r.Err? ==> !r.error.ConfigNotSpecified?
  {
    ApplySegments(map[], Split(query, '&'))
  }

  /** parseUrlIno: split the query on '&', then every segment on '=', and set
      each decoded key to its decoded value. */
  method ParseUrlInfo(urlProperties: string) returns (r: Result<map<string, string>, DriverError>)
    ensures r == ParseQuery(urlProperties)
  {
    var info: map<string, string> := map[];
    var split := Split(urlProperties, '&');
    var i := 0;
    while i < |split|
      invariant 0 <= i <= |split|
      invariant ApplySegments(map[], split) == ApplySegments(info, split[i..])
    {
      assert split[i..][1..] == split[i + 1..];
      var property := Split(split[i], '=');
      if |property| == 2 {
        var key := UrlDecoding.Decode(property[0]);
        if key.Err? {
          return Err(MalformedEscape(key.error));
        }
        var value := UrlDecoding.Decode(property[1]);
        if value.Err? {
          return Err(MalformedEscape(value.error));
        }
        info := info[key.value := value.value];
      } else {
        return Err(InvalidProperty(split[i]));
      }
      i := i + 1;
    }
    return Ok(info);
  }

  /** What connect builds: a SparkConnection over the master and the loaded
      configuration file, named here by its path. */
  datatype Connection = Connection(master: string, configPath: string)

  /** connect's outcome: null for a URL it does not accept, a connection, or an exception. */
  datatype ConnectResult = NotAccepted | Connected(connection: Connection) | Failed(error: DriverError)

  /** The properties connect works with: the caller's, overridden by the URL's. */
  function MergedProperties(url: string, given: map<string, string>): (r: Result<map<string, string>, DriverError>)
    requires AcceptsUrl(url)
    ensures r.Ok? ==> given.Keys <= r.value.Keys
    ensures r.Err? ==> QueryOf(url).Some? && !r.error.ConfigNotSpecified?
  {
    match QueryOf(url)
    case None => Ok(given)
    case Some(query) =>
      match ParseQuery(query)
      case Err(e) => Err(e)
      case Ok(fromUrl) => Ok(given + fromUrl)
  }

  lemma MergedWithQuery(url: string, given: map<string, string>, query: string)
    requires AcceptsUrl(url) && QueryOf(url) == Some(query)
    ensures MergedProperties(url, given) ==
      if ParseQuery(query).Ok? then Ok(given + ParseQuery(query).value) else Err(ParseQuery(query).error)
  {
  }

  /** What connect returns for a URL and the caller's properties (own entries
      and defaults). */
  function ConnectOutcome(url: string, given: map<string, string>, defaults: map<string, string>): (r: ConnectResult)
    ensures r.NotAccepted? <==> !AcceptsUrl(url)
    ensures r.Connected? ==> r.connection.configPath != "" && '?' !in r.connection.master
  {
    if !AcceptsUrl(url) then NotAccepted
    else
      match MergedProperties(url, given)
      case Err(e) => Failed(e)
      case Ok(info) =>
        var path := PropertyOf(info, defaults, "config");
        if path.None? || path.value == "" then Failed(ConfigNotSpecified)
        else Connected(Connection(MasterOf(url), path.value))
  }

  /** The start of connect: the text after the prefix, split at its first '?'
      into the master (normalised by SparkMaster) and the query string. */
  method SplitUrl(url: string) returns (master: string, query: Option<string>)
    requires AcceptsUrl(url)
    ensures master == MasterOf(url) && query == QueryOf(url)
  {
    var urlProperties := url[|UrlPrefix|..];
    var questionIndex := IndexOf(urlProperties, '?');
    master := if questionIndex >= 0 then urlProperties[..questionIndex] else urlProperties;
    if "//" <= master {
      master := "spark:" + master;
    }
    query := if questionIndex >= 0 then Some(urlProperties[questionIndex + 1..]) else None;
  }

  lemma ConnectQueryFails(url: string, given: map<string, string>, defaults: map<string, string>, query: string)
    requires AcceptsUrl(url) && QueryOf(url) == Some(query) && ParseQuery(query).Err?
    ensures MergedProperties(url, given) == Err(ParseQuery(query).error)
    ensures ConnectOutcome(url, given, defaults) == Failed(ParseQuery(query).error)
  {
    MergedWithQuery(url, given, query);
  }

  lemma ConnectOnMerged(url: string, given: map<string, string>, defaults: map<string, string>, merged: map<string, string>)
    requires AcceptsUrl(url) && MergedProperties(url, given) == Ok(merged)
    ensures var path := PropertyOf(merged, defaults, "config");
      ConnectOutcome(url, given, defaults) ==
        if path.Some? && path.value != "" then Connected(Connection(MasterOf(url), path.value))
        else Failed(ConfigNotSpecified)
  {
  }

  /** connect: a missing info becomes an empty one; a URL that is not accepted
      gives null; the URL's properties are put into the caller's info, which
      is therefore changed, before the config check; its defaults stay. */
  method Connect(url: string, info: Properties?) returns (r: ConnectResult)
    modifies info
    ensures r == ConnectOutcome(url, if info == null then map[] else old(info.entries),
                                     if info == null then map[] else old(info.defaults))
    ensures info != null ==>
      info.entries == if AcceptsUrl(url) && MergedProperties(url, old(info.entries)).Ok?
                      then MergedProperties(url, old(info.entries)).value
                      else old(info.entries)
    ensures info != null ==> info.defaults == old(info.defaults)
  {
    ghost var given := if info == null then map[] else info.entries;
    ghost var defaults := if info == null then map[] else info.defaults;
    var props := info;
    if props == null {
      props := new Properties();
    }
    assert props.entries == given && props.defaults == defaults;
    if !AcceptsUrl(url) {
      return NotAccepted;
    }

    var master, query := SplitUrl(url);
    if query.Some? {
      var prop := ParseUrlInfo(query.value);
      if prop.Err? {
        ConnectQueryFails(url, given, defaults, query.value);
        return Failed(prop.error);
      }
      props.PutAll(prop.value);
      MergedWithQuery(url, given, query.value);
    }
    ghost var merged := props.entries;
    assert MergedProperties(url, given) == Ok(merged);
    ConnectOnMerged(url, given, defaults, merged);

    var path := props.GetProperty("config");
    if path.None? || path.value == "" {
      return Failed(ConfigNotSpecified);
    }
    return Connected(Connection(master, path.value));
  }

  /** A stand-in for java.sql.DriverPropertyInfo. */
  datatype DriverPropertyInfo = DriverPropertyInfo(name: string, value: string)

  /** getPropertyInfo: the driver describes no properties, whatever it is asked. */
  function PropertyInfo(url: string, info: map<string, string>): (r: seq<DriverPropertyInfo>)
    ensures |r| == 0
  {
    []
  }

  /** jdbcCompliant: the driver does not claim SQL-92 compliance. */
  function JdbcCompliant(): (b: bool)
    ensures !b
  {
    false
  }

  // ---- What parseUrlIno computes ----

  /** The position of the first segment that is not a valid property, or |segments|. */
  function FirstInvalid(segments: seq<string>): (i: nat)
    ensures i <= |segments|
    ensures forall j :: 0 <= j < i ==> SegmentEntry(segments[j]).Ok?
    ensures i < |segments| ==> SegmentEntry(segments[i]).Err?
  {
    if segments == [] || SegmentEntry(segments[0]).Err? then 0
    else 1 + FirstInvalid(segments[1..])
  }

  /** The (key, value) pairs of segments that are all valid, in order. */
  function Entries(segments: seq<string>): (es: seq<(string, string)>)
    requires forall j :: 0 <= j < |segments| ==> SegmentEntry(segments[j]).Ok?
    ensures |es| == |segments|
    ensures forall j :: 0 <= j < |segments| ==> es[j] == SegmentEntry(segments[j]).value
  {
    if segments == [] then [] else [SegmentEntry(segments[0]).value] + Entries(segments[1..])
  }

  /** Properties.setProperty applied to each pair in turn. */
  function Assign(props: map<string, string>, es: seq<(string, string)>): map<string, string>
    decreases |es|
  {
    if es == [] then props else Assign(props[es[0].0 := es[0].1], es[1..])
  }

  /** Parsing fails exactly at the first invalid segment, with that segment's
      error; otherwise it sets every segment's pair in order. */
  lemma {:induction false} ApplySegmentsMeaning(props: map<string, string>, segments: seq<string>)
    ensures var i := FirstInvalid(segments);
      ApplySegments(props, segments) ==
        if i < |segments| then Err(SegmentEntry(segments[i]).error)
        else Ok(Assign(props, Entries(segments)))
    decreases |segments|
  {
    if segments != [] && SegmentEntry(segments[0]).Ok? {
      var e := SegmentEntry(segments[0]).value;
      ApplySegmentsMeaning(props[e.0 := e.1], segments[1..]);
      if FirstInvalid(segments) == |segments| {
        assert Entries(segments)[1..] == Entries(segments[1..]);
      }
    }
  }

  /** A key no pair sets keeps its old value, or stays absent. */
  lemma {:induction false} AssignUntouched(props: map<string, string>, es: seq<(string, string)>, k: string)
    requires forall j :: 0 <= j < |es| ==> es[j].0 != k
    ensures k in Assign(props, es) <==> k in props
    ensures k in props ==> Assign(props, es)[k] == props[k]
    decreases |es|
  {
    if es != [] {
      AssignUntouched(props[es[0].0 := es[0].1], es[1..], k);
    }
  }

  /** A later setProperty of the same key overwrites an earlier one: a key
      ends with the value of the last pair that sets it. */
  lemma {:induction false} AssignLastWins(props: map<string, string>, es: seq<(string, string)>, i: nat)
    requires i < |es|
    requires forall j :: i < j < |es| ==> es[j].0 != es[i].0
    ensures es[i].0 in Assign(props, es) && Assign(props, es)[es[i].0] == es[i].1
    decreases |es|
  {
    if i == 0 {
      AssignUntouched(props[es[0].0 := es[0].1], es[1..], es[0].0);
    } else {
      AssignLastWins(props[es[0].0 := es[0].1], es[1..], i - 1);
    }
  }

  /** The keys after setting are the old ones and the ones set. */
  lemma {:induction false} AssignKeys(props: map<string, string>, es: seq<(string, string)>)
    ensures Assign(props, es).Keys == props.Keys + set j | 0 <= j < |es| :: es[j].0
    decreases |es|
  {
    if es != [] {
      var tail := es[1..];
      AssignKeys(props[es[0].0 := es[0].1], tail);
      var keys := set j | 0 <= j < |es| :: es[j].0;
      var tailKeys := set j | 0 <= j < |tail| :: tail[j].0;
      assert keys == {es[0].0} + tailKeys by {
        forall k | k in keys ensures k in {es[0].0} + tailKeys {
          var j :| 0 <= j < |es| && es[j].0 == k;
          if j > 0 { assert tail[j - 1].0 == k; }
        }
        forall k | k in tailKeys ensures k in keys {
          var j :| 0 <= j < |tail| && tail[j].0 == k;
          assert es[j + 1].0 == k;
        }
      }
    }
  }

  /** parseUrlIno's contract: it fails iff some '&'-segment is invalid, with the
      error of the first; otherwise every key set by a segment is present, with
      the value of its last segment, and no other key is. */
  lemma ParseQueryMeaning(query: string)
    ensures var segments := Split(query, '&');
      var i := FirstInvalid(segments);
      && (ParseQuery(query).Err? <==> i < |segments|)
      && (ParseQuery(query).Err? ==> ParseQuery(query).error == SegmentEntry(segments[i]).error)
      && (ParseQuery(query).Ok? ==>
            var es := Entries(segments);
            && ParseQuery(query).value.Keys == (set j | 0 <= j < |es| :: es[j].0)
            && forall j :: 0 <= j < |es| && (forall l :: j < l < |es| ==> es[l].0 != es[j].0) ==>
                 ParseQuery(query).value[es[j].0] == es[j].1)
  {
    var segments := Split(query, '&');
    ApplySegmentsMeaning(map[], segments);
    if FirstInvalid(segments) == |segments| {
      var es := Entries(segments);
      AssignKeys(map[], es);
      forall j | 0 <= j < |es| && (forall l :: j < l < |es| ==> es[l].0 != es[j].0)
        ensures Assign(map[], es)[es[j].0] == es[j].1
      {
        AssignLastWins(map[], es, j);
      }
    }
  }

  /** A segment is valid only in the shape key '=' value, any number of
      trailing '=', the value non-empty, and both parts decodable. */
  lemma SegmentShape(segment: string)
    requires SegmentEntry(segment).Ok?
    ensures var parts := Split(segment, '=');
      && |parts| == 2 && parts[1] != [] && '=' !in parts[0] && '=' !in parts[1]
      && segment == parts[0] + "=" + parts[1] + Repeat('=', |Pieces(segment, '=')| - 2)
      && SegmentEntry(segment).value == (UrlDecoding.Decode(parts[0]).value, UrlDecoding.Decode(parts[1]).value)
  {
    SplitInTwo(segment, '=');
  }

  /** And every segment of that shape is valid. */
  lemma SegmentOfShape(key: string, value: string, n: nat)
    requires '=' !in key && '=' !in value && value != []
    requires UrlDecoding.Decode(key).Ok? && UrlDecoding.Decode(value).Ok?
    ensures SegmentEntry(key + "=" + value + Repeat('=', n)) ==
      Ok((UrlDecoding.Decode(key).value, UrlDecoding.Decode(value).value))
  {
    SplitInTwoOf(key, value, n, '=');
  }

  /** Text that needs no decoding and holds neither separator. */
  predicate PlainText(t: string)
  {
    '=' !in t && '&' !in t && '%' !in t && '+' !in t
  }

  /** One property k=v parses to {k: v}, also with an empty key and with any
      number of trailing '=' and '&', which String.split drops. */
  lemma SinglePropertyAccepted(k: string, v: string, m: nat, n: nat)
    requires PlainText(k) && PlainText(v) && v != []
    ensures ParseQuery(k + "=" + v + Repeat('=', m) + Repeat('&', n)) == Ok(map[k := v])
  {
    var segment := k + "=" + v + Repeat('=', m);
    assert '&' !in segment;
    assert segment + Repeat('&', n) == k + "=" + v + Repeat('=', m) + Repeat('&', n);
    SplitOfJoin([segment], n, '&');
    SegmentOfShape(k, v, m);
    UrlDecoding.DecodePlain(k);
    UrlDecoding.DecodePlain(v);
    assert SegmentEntry(segment) == Ok((k, v));
    assert ApplySegments(map[], [segment]) == ApplySegments(map[k := v], []);
  }

  lemma SplitTwoSegments(s1: string, s2: string)
    requires '&' !in s1 && '&' !in s2 && s2 != []
    ensures Split(s1 + "&" + s2, '&') == [s1, s2]
  {
    assert Join([s1, s2], '&') == s1 + ['&'] + Join([s2], '&');
    assert s1 + "&" + s2 == Join([s1, s2], '&') + Repeat('&', 0);
    SplitOfJoin([s1, s2], 0, '&');
  }

  lemma PlainSegment(k: string, v: string)
    requires PlainText(k) && PlainText(v) && v != []
    ensures '&' !in k + "=" + v
    ensures SegmentEntry(k + "=" + v) == Ok((k, v))
  {
    SegmentOfShape(k, v, 0);
    assert k + "=" + v + Repeat('=', 0) == k + "=" + v;
    UrlDecoding.DecodePlain(k);
    UrlDecoding.DecodePlain(v);
  }

  lemma TwoSegmentsApply(s1: string, s2: string, k: string, v1: string, v2: string)
    requires SegmentEntry(s1) == Ok((k, v1)) && SegmentEntry(s2) == Ok((k, v2))
    ensures ApplySegments(map[], [s1, s2]) == Ok(map[k := v2])
  {
    assert [s1, s2][1..] == [s2];
    assert ApplySegments(map[k := v1], [s2]) == ApplySegments(map[k := v1][k := v2], []);
    assert map[k := v1][k := v2] == map[k := v2];
  }

  /** Of two segments setting the same key, the later one wins. */
  lemma LaterDuplicateWins(k: string, v1: string, v2: string)
    requires PlainText(k) && PlainText(v1) && PlainText(v2) && v1 != [] && v2 != []
    ensures ParseQuery((k + "=" + v1) + "&" + (k + "=" + v2)) == Ok(map[k := v2])
  {
    var s1, s2 := k + "=" + v1, k + "=" + v2;
    PlainSegment(k, v1);
    PlainSegment(k, v2);
    SplitTwoSegments(s1, s2);
    TwoSegmentsApply(s1, s2, k, v1, v2);
  }

  /** An empty query string after '?' is one empty segment, which is rejected. */
  lemma EmptyQueryRejected()
    ensures ParseQuery("") == Err(InvalidProperty(""))
  {
    assert Split("", '&') == [""];
    assert Split("", '=') == [""];
  }

  /** A query of separators only splits into no segments at all and gives
      no properties. */
  lemma SeparatorsOnlyAccepted(n: nat)
    requires n >= 1
    ensures ParseQuery(Repeat('&', n)) == Ok(map[])
  {
    var s := Repeat('&', n);
    assert s[0] == '&';
    SplitEmpty(s, '&');
  }

  /** "?&" is accepted with no properties, unlike "?". */
  lemma AmpersandOnlyAccepted()
    ensures ParseQuery("&") == Ok(map[])
  {
    assert Repeat('&', 1) == "&";
    SeparatorsOnlyAccepted(1);
  }

  /** "k=" loses its empty value to String.split and is rejected. */
  lemma MissingValueRejected()
    ensures ParseQuery("k=") == Err(InvalidProperty("k="))
  {
    assert Join(["k"], '=') + Repeat('=', 1) == "k=";
    SplitOfJoin(["k"], 1, '=');
    OneBadSegmentRejected("k=");
  }

  /** A leading '&' gives an empty first segment, which is rejected. */
  lemma LeadingAmpersandRejected()
    ensures ParseQuery("&k=v") == Err(InvalidProperty(""))
  {
    assert Join(["", "k=v"], '&') + Repeat('&', 0) == "&k=v";
    assert Split("&k=v", '&') == ["", "k=v"] by { SplitOfJoin(["", "k=v"], 0, '&'); }
    assert Split("", '=') == [""];
  }

  /** A segment without '=' is rejected before the empty one after it. */
  lemma BareSegmentRejected()
    ensures ParseQuery("a&&b") == Err(InvalidProperty("a"))
  {
    assert Join(["a", "", "b"], '&') + Repeat('&', 0) == "a&&b";
    assert Split("a&&b", '&') == ["a", "", "b"] by { SplitOfJoin(["a", "", "b"], 0, '&'); }
    assert Split("a", '=') == ["a"];
  }

  /** A query of one segment that does not split in two on '=' is rejected
      as that segment. */
  lemma OneBadSegmentRejected(segment: string)
    requires '&' !in segment && |Split(segment, '=')| != 2
    ensures ParseQuery(segment) == Err(InvalidProperty(segment))
  {
    assert Split(segment, '&') == [segment];
    assert SegmentEntry(segment) == Err(InvalidProperty(segment));
  }

  /** A value holding '=' makes three parts and is rejected. */
  lemma SecondEqualsRejected()
    ensures ParseQuery("k=v=w") == Err(InvalidProperty("k=v=w"))
  {
    assert Join(["k", "v", "w"], '=') + Repeat('=', 0) == "k=v=w";
    SplitOfJoin(["k", "v", "w"], 0, '=');
    OneBadSegmentRejected("k=v=w");
  }

  // ---- What connect does with the merged properties ----

  /** A property the URL sets overrides the caller's; a caller's property the
      URL does not set survives. */
  lemma UrlOverridesCaller(url: string, given: map<string, string>, query: string, k: string)
    requires AcceptsUrl(url) && QueryOf(url) == Some(query) && ParseQuery(query).Ok?
    ensures MergedProperties(url, given).Ok?
    ensures k in ParseQuery(query).value ==> MergedProperties(url, given).value[k] == ParseQuery(query).value[k]
    ensures k !in ParseQuery(query).value && k in given ==> MergedProperties(url, given).value[k] == given[k]
  {
    MergedWithQuery(url, given, query);
  }

  /** connect succeeds iff the URL is accepted, its query string parses, and
      the merged properties (or, failing them, the defaults) give a non-empty
      "config"; the connection then has the URL's master and that config
      path. A bad query string is reported before a missing config. */
  lemma ConnectMeaning(url: string, given: map<string, string>, defaults: map<string, string>)
    ensures ConnectOutcome(url, given, defaults).Connected? <==>
      && AcceptsUrl(url) && MergedProperties(url, given).Ok?
      && var path := PropertyOf(MergedProperties(url, given).value, defaults, "config");
         path.Some? && path.value != ""
    ensures AcceptsUrl(url) && QueryOf(url).Some? && ParseQuery(QueryOf(url).value).Err? ==>
      ConnectOutcome(url, given, defaults) == Failed(ParseQuery(QueryOf(url).value).error)
    ensures AcceptsUrl(url) && MergedProperties(url, given).Ok? ==>
      var path := PropertyOf(MergedProperties(url, given).value, defaults, "config");
      if path.Some? && path.value != "" then
        ConnectOutcome(url, given, defaults) == Connected(Connection(MasterOf(url), path.value))
      else ConnectOutcome(url, given, defaults) == Failed(ConfigNotSpecified)
  {
    if AcceptsUrl(url) && QueryOf(url).Some? {
      MergedWithQuery(url, given, QueryOf(url).value);
    }
  }

  /** A non-empty "config" in the URL wins over the caller's entry and over
      the defaults. */
  lemma ConfigFromUrlWins(url: string, given: map<string, string>, defaults: map<string, string>, query: string)
    requires AcceptsUrl(url) && QueryOf(url) == Some(query) && ParseQuery(query).Ok?
    requires "config" in ParseQuery(query).value && ParseQuery(query).value["config"] != ""
    ensures ConnectOutcome(url, given, defaults) ==
      Connected(Connection(MasterOf(url), ParseQuery(query).value["config"]))
  {
    UrlOverridesCaller(url, given, query, "config");
    ConnectOnMerged(url, given, defaults, MergedProperties(url, given).value);
  }

  /** A URL without '?' connects on the caller's own "config", or its default. */
  lemma ConnectWithoutQuery(m: string, given: map<string, string>, defaults: map<string, string>)
    requires '?' !in m
    ensures var path := PropertyOf(given, defaults, "config");
      ConnectOutcome(UrlPrefix + m, given, defaults) ==
        if path.Some? && path.value != "" then Connected(Connection(SparkMaster(m), path.value))
        else Failed(ConfigNotSpecified)
  {
    UrlParts(m, None);
    assert UrlPrefix + m + "" == UrlPrefix + m;
  }
}
