/** The `Url` object of url.js as an immutable record: its constructor
    (5-28), the serializer (379-406), the accessor getters (412-583) and the
    setters, which hand their value to the URL parser and turn whatever it
    throws into the `exception` property. The parser itself is not part of
    this model: each operation that calls it takes its outcome as a
    parameter. */
module UrlObject {

  import opened Wrappers
  import opened Text

  const AT: CodeUnit := 0x40
  const QUESTION: CodeUnit := 0x3F

  /** The underscored properties of a `Url` object. `schemeData` is
      `_scheme_data`, the property the serializer and `pathname` read (the
      `schemeData` accessor writes `_schemeData`, which nothing reads);
      `host` is the host as `hostSerializer` prints it; `exception` and
      `href` stay absent until something sets them. */
  datatype Url = Url(
    scheme: Option<Str>,
    schemeData: Option<Str>,
    username: Str,
    password: Option<Str>,
    host: Option<Str>,
    port: Str,
    path: seq<Str>,
    query: Option<Str>,
    fragment: Option<Str>,
    exception: Option<string>,
    href: Option<Str>)

  //// The serializer

  /** What `null + ":"` writes for a missing scheme. */
  const NULL: Str := ['n' as int, 'u' as int, 'l' as int, 'l' as int]

  function SchemeText(scheme: Option<Str>): Str {
    scheme.GetOr(NULL)
  }

  /** `hostSerializer`: a missing host prints as "". */
  function HostText(host: Option<Str>): Str {
    host.GetOr([])
  }

  /** "user[:password]@", written when there is a user name or a password. */
  function Credentials(u: Url): (r: Str)
    ensures r != [] <==> u.username != [] || u.password.Some?
    ensures r != [] ==> |r| > |u.username| && r[|r| - 1] == AT && r[..|u.username|] == u.username
  {
    if u.username != [] || u.password.Some? then
      u.username + (if u.password.Some? then [COLON] + u.password.value else []) + [AT]
    else []
  }

  /** ":port", written only for a non-empty port. */
  function PortText(port: Str): Str {
    if |port| != 0 then [COLON] + port else []
  }

  /** "/" and the segments joined by "/". */
  function PathText(path: seq<Str>): Str {
    [SLASH] + Join(path, [SLASH])
  }

  /** "//", the credentials, the host and the port. */
  function Authority(u: Url): (r: Str)
    ensures |r| >= 2 && r[..2] == [SLASH, SLASH]
  {
    [SLASH, SLASH] + Credentials(u) + HostText(u.host) + PortText(u.port)
  }

  /** What follows "scheme:": the scheme data verbatim when it is truthy,
      otherwise the authority and the path. */
  function Body(u: Url): Str {
    if Truthy(u.schemeData) then u.schemeData.value else Authority(u) + PathText(u.path)
  }

  /** `prefix` and the value, or nothing for a missing value (an empty value
      is still written). */
  function Suffix(prefix: CodeUnit, v: Option<Str>): Str {
    if v.Some? then [prefix] + v.value else []
  }

  /** `serializer(excludeFragment)`; an omitted argument is `false`. */
  function Serialize(u: Url, excludeFragment: bool): (r: Str)
    ensures |r| > |SchemeText(u.scheme)| && r[..|SchemeText(u.scheme)| + 1] == SchemeText(u.scheme) + [COLON]
    ensures u.scheme.None? ==> r[..5] == NULL + [COLON]
  {
    SchemeText(u.scheme) + [COLON] + Body(u) + Suffix(QUESTION, u.query) +
      if excludeFragment then [] else Suffix(HASH, u.fragment)
  }

  /** Leaving the fragment out removes exactly the "#fragment" suffix, and
      nothing when there is no fragment. */
  lemma SerializeFragment(u: Url)
    ensures u.fragment.Some? ==> Serialize(u, false) == Serialize(u, true) + [HASH] + u.fragment.value
    ensures u.fragment.None? ==> Serialize(u, false) == Serialize(u, true)
  {
    var head := SchemeText(u.scheme) + [COLON] + Body(u) + Suffix(QUESTION, u.query);
    assert Serialize(u, true) == head;
    assert Serialize(u, false) == head + Suffix(HASH, u.fragment);
  }

  /** After "scheme:" comes the scheme data when it is truthy, else "//". */
  lemma SerializeLayout(u: Url, excludeFragment: bool)
    ensures var r, n := Serialize(u, excludeFragment), |SchemeText(u.scheme)| + 1;
      if Truthy(u.schemeData) then n + |u.schemeData.value| <= |r| && r[n..n + |u.schemeData.value|] == u.schemeData.value
      else n + 2 <= |r| && r[n..n + 2] == [SLASH, SLASH]
  {
    var n, b := |SchemeText(u.scheme)| + 1, Body(u);
    var r := Serialize(u, excludeFragment);
    assert r == (SchemeText(u.scheme) + [COLON]) + b + (Suffix(QUESTION, u.query) + if excludeFragment then [] else Suffix(HASH, u.fragment));
    assert r[n..n + |b|] == b;
    if !Truthy(u.schemeData) {
      assert b[..2] == [SLASH, SLASH];
    }
  }

  //// The getters of the second accessor block

  /** `href`: the stored `_href` when it is truthy, else the serialization. */
  function Href(u: Url): (r: Str)
    ensures Truthy(u.href) ==> r == u.href.value
    ensures !Truthy(u.href) && u.scheme.Some? ==> |Protocol(u)| <= |r| && r[..|Protocol(u)|] == Protocol(u)
    ensures !Truthy(u.href) && u.fragment.Some? ==> |Hash(u)| <= |r| && r[|r| - |Hash(u)|..] == Hash(u)
  {
    if Truthy(u.href) then u.href.value
    else
      SerializeFragment(u);
      Serialize(u, false)
  }

  /** `protocol`: the scheme and ":", or ":" alone for a falsy scheme. */
  function Protocol(u: Url): (r: Str)
    ensures r != [] && r[|r| - 1] == COLON
    ensures r == [COLON] <==> !Truthy(u.scheme)
  {
    if Truthy(u.scheme) then u.scheme.value + [COLON] else [COLON]
  }

  /** `username`: what the serializer writes before ":" or "@". */
  function Username(u: Url): (r: Str)
    ensures r != [] ==> |r| < |Credentials(u)| && Credentials(u)[..|r|] == r
  {
    u.username
  }

  /** `password`: "" for a missing or empty password, although the
      serializer writes ":" for an empty one. */
  function Password(u: Url): (r: Str)
    ensures r != [] ==> Credentials(u) == Username(u) + [COLON] + r + [AT]
    ensures r == [] && u.password.Some? ==> Credentials(u) == Username(u) + [COLON, AT]
  {
    if Truthy(u.password) then u.password.value else []
  }

  /** `hostname`: what the serializer writes after "//" and the
      credentials; "" for a missing host. */
  function Hostname(u: Url): (r: Str)
    ensures u.host.None? ==> r == []
    ensures var n := 2 + |Credentials(u)|;
      n + |r| <= |Authority(u)| && Authority(u)[n..n + |r|] == r
  {
    assert Authority(u) == ([SLASH, SLASH] + Credentials(u)) + HostText(u.host) + PortText(u.port);
    HostText(u.host)
  }

  /** `port`: what the serializer writes after ":" at the end of the
      authority, which ends with the host name when the port is empty. */
  function Port(u: Url): (r: Str)
    ensures var a, n := Authority(u), |r|;
      if r != [] then n + 1 <= |a| && a[|a| - n - 1..] == [COLON] + r
      else |Hostname(u)| <= |a| && a[|a| - |Hostname(u)|..] == Hostname(u)
  {
    u.port
  }

  /** `host` (the later of its two definitions): host name, ":" and port,
      with the ":" written even when the port is empty. */
  function Host(u: Url): (r: Str)
    ensures |r| == |Hostname(u)| + 1 + |Port(u)| && r[|Hostname(u)|] == COLON
    ensures Port(u) == [] ==> r == Hostname(u) + [COLON]
  {
    Hostname(u) + [COLON] + Port(u)
  }

  /** `pathname`: "" without a scheme; otherwise the scheme data when it is
      truthy, else "/" and the path. */
  function Pathname(u: Url): (r: Str)
    ensures !Truthy(u.scheme) ==> r == []
    ensures Truthy(u.scheme) && !Truthy(u.schemeData) ==> r != [] && r[0] == SLASH
  {
    if !Truthy(u.scheme) then []
    else if Truthy(u.schemeData) then u.schemeData.value
    else PathText(u.path)
  }

  /** `search`: "" for a missing and for an empty query alike. */
  function Search(u: Url): (r: Str)
    ensures r == [] <==> !Truthy(u.query)
    ensures r != [] ==> r[0] == QUESTION && r[1..] == u.query.value
  {
    if !Truthy(u.query) then [] else [QUESTION] + u.query.value
  }

  /** `hash`: "" for a missing and for an empty fragment alike. */
  function Hash(u: Url): (r: Str)
    ensures r == [] <==> !Truthy(u.fragment)
    ensures r != [] ==> r[0] == HASH && r[1..] == u.fragment.value
  {
    if !Truthy(u.fragment) then [] else [HASH] + u.fragment.value
  }

  /** With a scheme, and with query and fragment each missing or non-empty,
      the serialization is the getters' values put back together. */
  lemma SerializeFromGetters(u: Url)
    requires Truthy(u.scheme) && u.query != Some([]) && u.fragment != Some([])
    ensures Serialize(u, false) ==
      Protocol(u) + (if Truthy(u.schemeData) then [] else Authority(u)) + Pathname(u) + Search(u) + Hash(u)
  {
    var m := if Truthy(u.schemeData) then [] else Authority(u);
    BodyFromGetters(u);
    SuffixesFromGetters(u);
    assert Serialize(u, false) == Protocol(u) + Body(u) + Search(u) + Hash(u);
    Associative(Protocol(u), m, Pathname(u));
  }

  lemma BodyFromGetters(u: Url)
    requires Truthy(u.scheme)
    ensures Body(u) == (if Truthy(u.schemeData) then [] else Authority(u)) + Pathname(u)
  {
  }

  lemma SuffixesFromGetters(u: Url)
    requires u.query != Some([]) && u.fragment != Some([])
    ensures Suffix(QUESTION, u.query) == Search(u) && Suffix(HASH, u.fragment) == Hash(u)
  {
  }


  /** The getters hide an empty query that the serializer still writes as
      "?". */
  lemma EmptyQueryWritten(u: Url, excludeFragment: bool)
    requires u.query == Some([])
    ensures Search(u) == Search(u.(query := None)) == []
    ensures |Serialize(u, excludeFragment)| == |Serialize(u.(query := None), excludeFragment)| + 1
  {
  }

  /** Without a scheme `protocol` is ":" and `pathname` is "", yet the
      serialization starts with "null:". */
  lemma MissingScheme(u: Url, excludeFragment: bool)
    requires u.scheme.None?
    ensures Protocol(u) == [COLON] && Pathname(u) == []
    ensures Serialize(u, excludeFragment)[..5] == NULL + [COLON] != Protocol(u)
  {
  }

  //// The setters

  /** The parser start rule each setter names, one per accessor. */
  datatype Attribute =
    | SetProtocol | SetUsername | SetPassword | SetHost | SetHostname | SetPort | SetPathname | SetSearch | SetHash

  /** A setter: the parser runs on the value with the URL and the attribute's
      start rule; its result replaces the URL, and a message it throws is
      stored in `exception`, with nothing else changed. */
  function Set(u: Url, attr: Attribute, value: Str, parse: (Url, Attribute, Str) -> Result<Url, string>): (r: Url)
    ensures parse(u, attr, value).Success? ==> r == parse(u, attr, value).value
    ensures parse(u, attr, value).Failure? ==>
      r.exception == Some(parse(u, attr, value).error) && r.(exception := u.exception) == u
  {
    match parse(u, attr, value)
    case Success(v) => v
    case Failure(message) => u.(exception := Some(message))
  }

  /** A setter the parser rejects leaves the serialization and every getter
      as they were. */
  lemma FailedSetKeepsUrl(u: Url, attr: Attribute, value: Str, parse: (Url, Attribute, Str) -> Result<Url, string>)
    requires parse(u, attr, value).Failure?
    ensures var r := Set(u, attr, value, parse);
      Serialize(r, false) == Serialize(u, false) && Serialize(r, true) == Serialize(u, true) &&
      Href(r) == Href(u) && Protocol(r) == Protocol(u) && Username(r) == Username(u) &&
      Password(r) == Password(u) && Host(r) == Host(u) && Hostname(r) == Hostname(u) &&
      Port(r) == Port(u) && Pathname(r) == Pathname(u) && Search(r) == Search(u) && Hash(r) == Hash(u)
  {
    var r := Set(u, attr, value, parse);
    assert r.(exception := u.exception) == u;
    assert r == u.(exception := r.exception);
  }

  //// The constructor and the href setter

  /** TAB, LF, FF, CR and SPACE, the characters trimmed from the input. */
  predicate IsUrlSpace(c: int) {
    c == 0x09 || c == 0x0A || c == 0x0C || c == 0x0D || c == 0x20
  }

  /** The test `/^[\t\n\f\r ]|[\t\n\f\r ]$/`. */
  predicate HasOuterSpace(s: Str) {
    s != [] && (IsUrlSpace(s[0]) || IsUrlSpace(s[|s| - 1]))
  }

  /** The replace of `/^[\t\n\f\r ]+/` by "". */
  function TrimStart(s: Str): (r: Str)
    ensures |r| <= |s| && r == s[|s| - |r|..]
    ensures r == [] || !IsUrlSpace(r[0])
    ensures forall i :: 0 <= i < |s| - |r| ==> IsUrlSpace(s[i])
    decreases |s|
  {
    if s != [] && IsUrlSpace(s[0]) then TrimStart(s[1..]) else s
  }

  /** The replace of `/[\t\n\f\r ]+$/` by "". */
  function TrimEnd(s: Str): (r: Str)
    ensures |r| <= |s| && r == s[..|r|]
    ensures r == [] || !IsUrlSpace(r[|r| - 1])
    ensures forall i :: |r| <= i < |s| ==> IsUrlSpace(s[i])
    decreases |s|
  {
    if s != [] && IsUrlSpace(s[|s| - 1]) then TrimEnd(s[..|s| - 1]) else s
  }

  function Trim(s: Str): Str {
    TrimEnd(TrimStart(s))
  }

  /** Trimming keeps a middle slice of the input, removes only TAB, LF, FF,
      CR and SPACE, and leaves none at either end. */
  lemma TrimSlice(s: Str) returns (i: nat)
    ensures i + |Trim(s)| <= |s| && Trim(s) == s[i..i + |Trim(s)|]
    ensures !HasOuterSpace(Trim(s))
    ensures forall k :: 0 <= k < i || i + |Trim(s)| <= k < |s| ==> IsUrlSpace(s[k])
  {
    var a := TrimStart(s);
    var r := TrimEnd(a);
    i := |s| - |a|;
    assert Trim(s) == r;
    MiddleSlice(s, a, r);
    if r != [] {
      assert r[0] == a[0];
    }
  }

  /** A prefix `r` of a suffix `a` of `s`, where what the two cuts leave
      out is white space. */
  lemma MiddleSlice(s: Str, a: Str, r: Str)
    requires |a| <= |s| && a == s[|s| - |a|..] && forall k :: 0 <= k < |s| - |a| ==> IsUrlSpace(s[k])
    requires |r| <= |a| && r == a[..|r|] && forall k :: |r| <= k < |a| ==> IsUrlSpace(a[k])
    ensures var i := |s| - |a|; r == s[i..i + |r|]
    ensures var i := |s| - |a|; forall k :: 0 <= k < i || i + |r| <= k < |s| ==> IsUrlSpace(s[k])
  {
    var i := |s| - |a|;
    forall k | i + |r| <= k < |s| ensures IsUrlSpace(s[k]) {
      assert s[k] == a[k - i];
    }
  }

  /** Trimming changes the input exactly when the whitespace test fires. */
  lemma TrimUnchanged(s: Str)
    ensures Trim(s) == s <==> !HasOuterSpace(s)
  {
    var _ := TrimSlice(s);
    if !HasOuterSpace(s) && s != [] {
      assert TrimStart(s) == s;
      assert TrimEnd(s) == s;
    }
  }

  const WhitespaceWarning: string := "invalid leading/trailing whitespace characters"

  /** What the parser hands back: each property it reports, or `None` for one
      it leaves out (and which keeps the constructor's default). */
  datatype Parsed = Parsed(
    scheme: Option<Str>,
    schemeData: Option<Str>,
    username: Option<Str>,
    password: Option<Str>,
    host: Option<Str>,
    port: Option<Str>,
    path: Option<seq<Str>>,
    query: Option<Str>,
    fragment: Option<Str>)

  /** The defaults (null scheme, scheme data, password, host, query and
      fragment; "" user name and port; empty path), then every property the
      parser reported. `exception` and `href` are not touched. */
  function Install(u: Url, p: Parsed): (r: Url)
    ensures r.exception == u.exception && r.href == u.href
    ensures p.username.None? ==> r.username == []
    ensures p.port.None? ==> r.port == []
    ensures p.path.None? ==> r.path == []
  {
    u.(scheme := p.scheme, schemeData := p.schemeData, username := p.username.GetOr([]),
      password := p.password, host := p.host, port := p.port.GetOr([]), path := p.path.GetOr([]),
      query := p.query, fragment := p.fragment)
  }

  /** A constructed object: a parsed URL, or one whose only properties are
      `_href` and `_exception` because the parser threw. */
  datatype Constructed = Built(url: Url) | Broken(href: Str, message: string)

  /** `new Url(input)`: the input is trimmed, with a warning, when it starts
      or ends with whitespace, and the trimmed input is parsed. */
  function Construct(input: Str, parse: Str -> Result<Parsed, string>): (c: Constructed)
    ensures c.Built? ==>
      && c.url.href.None?
      && (c.url.exception == Some(WhitespaceWarning) <==> HasOuterSpace(input))
      && (c.url.exception.None? <==> !HasOuterSpace(input))
    ensures c.Broken? <==> parse(Trim(input)).Failure?
    ensures c.Broken? ==> c.href == Trim(input) && c.message == parse(Trim(input)).error
  {
    var exception := if HasOuterSpace(input) then Some(WhitespaceWarning) else None;
    var blank := Url(None, None, [], None, None, [], [], None, None, exception, None);
    match parse(Trim(input))
    case Success(p) => Built(Install(blank, p))
    case Failure(message) => Broken(Trim(input), message)
  }

  /** The `href` setter: the constructor runs again on the object, and
      `_href` and `_exception` are put back afterwards whatever happened. */
  function SetHref(u: Url, value: Str, parse: Str -> Result<Parsed, string>): (r: Url)
    ensures r.href == u.href && r.exception == u.exception
    ensures parse(Trim(value)).Failure? ==> r == u
  {
    match parse(Trim(value))
    case Success(p) => Install(u, p)
    case Failure(_) => u
  }

  /** Setting `href` gives the same URL as constructing one from the value,
      apart from the restored `href` and `exception`. */
  lemma SetHrefIsConstruct(u: Url, value: Str, parse: Str -> Result<Parsed, string>)
    requires Construct(value, parse).Built?
    ensures SetHref(u, value, parse) == Construct(value, parse).url.(exception := u.exception, href := u.href)
  {
  }

  /** Once `_href` is truthy the `href` getter keeps returning it, whatever
      `href` is set to afterwards. */
  lemma StaleHref(u: Url, value: Str, parse: Str -> Result<Parsed, string>)
    requires Truthy(u.href)
    ensures Href(SetHref(u, value, parse)) == Href(u) == u.href.value
  {
  }
}
