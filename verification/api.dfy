/** bitdiscovery/api.py: the requests the `BitDiscoveryApi` methods build,
    the cursor `get_lastid` reads out of a response, and what the retry
    helper makes of the endpoints that only ever return `True`. The HTTP
    exchange itself is not modelled: a request is the value that would be
    sent, a response is an input.

    A URL is kept as its parts: the base, the path, and the query
    parameters in the order the f-string writes them; `Render` writes it
    out as `base + path + "?" + k1=v1&k2=v2...`, which is the text the
    f-strings produce. A JSON body is kept as the pieces between its
    double quotes; `BodyText` joins them with `"` into the text the string
    concatenations produce. */
module Api {
  import opened Py
  import opened Text
  import opened Decimal
  import opened Json
  import opened Retry

  datatype Verb = Get | Post

  datatype Url = Url(base: string, path: string, query: seq<(string, string)>)

  /** A JSON body as the pieces of its text between double quotes. */
  datatype Body = Body(pieces: seq<string>)

  /** What one method hands to `requests`: verb, URL, headers in the order
      the dictionary literal gives them, and the `data=` body if any. */
  datatype Request = Request(verb: Verb, url: Url, headers: seq<(string, string)>, body: Option<Body>)

  datatype Client = Client(apiurl: string, apikey: string)

  /** The parts of a decoded response the scripts look at: the `assets`
      list, the `searches` list and the `total` field, each possibly
      absent. */
  datatype Response = Response(assets: Option<seq<Entity>>, searches: Option<seq<Entity>>, total: Option<Scalar>)

  function AcceptHeaders(c: Client): seq<(string, string)> {
    [("Accept", "application/json"), ("Authorization", c.apikey)]
  }

  function JsonHeaders(c: Client): seq<(string, string)> {
    [("Content-Type", "application/json"), ("Accept", "application/json"), ("Authorization", c.apikey)]
  }

  // ---- URLs ----

  /** `k1=v1&k2=v2...` */
  function Encode(ps: seq<(string, string)>): string
    requires ps != []
  {
    var p := ps[0].0 + "=" + ps[0].1;
    if |ps| == 1 then p else p + "&" + Encode(ps[1..])
  }

  /** The URL as text. */
  function Render(u: Url): string {
    if u.query == [] then u.base + u.path else u.base + u.path + "?" + Encode(u.query)
  }

  /** Every request the client builds is addressed under its base URL and
      carries its key as the `Authorization` header. */
  predicate Authorized(c: Client, r: Request) {
    && r.url.base == c.apiurl
    && ("Authorization", c.apikey) in r.headers
    && ("Accept", "application/json") in r.headers
  }

  /** The text of a URL starts with its base, so an authorized request is
      sent under the client's `apiurl`. */
  lemma RenderStartsWithBase(c: Client, r: Request)
    requires Authorized(c, r)
    ensures c.apiurl <= Render(r.url)
    ensures r.url.query == [] ==> Render(r.url) == c.apiurl + r.url.path
  {
  }

  function FindInventories(c: Client, offset: int, limit: int): (r: Request)
    ensures Authorized(c, r)
  {
    var query := [("offset", IntToString(offset)), ("limit", IntToString(limit)), ("forcescreenshots", "false")];
    Request(Get, Url(c.apiurl, "/inventories/list", query), AcceptHeaders(c), None)
  }

  function GetDashboard(c: Client, querytypes: string): (r: Request)
    ensures Authorized(c, r)
  {
    Request(Post, Url(c.apiurl, "/dashboard", [("columns", querytypes)]), JsonHeaders(c), Some(HostnameFilter))
  }

  function SearchInventory(c: Client, limit: int, after: string): (r: Request)
    ensures Authorized(c, r)
  {
    var query :=
      if after == "" then [("limit", IntToString(limit)), ("offset", "0"), ("sortorder", "true"), ("inventory", "false")]
      else [("limit", IntToString(limit)), ("after", after), ("sortorder", "true"), ("inventory", "false")];
    Request(Post, Url(c.apiurl, "/inventory", query), JsonHeaders(c), Some(HostnameFilter))
  }

  function SearchForIpAddress(c: Client, limit: int, after: string, ip: string): (r: Request)
    ensures Authorized(c, r)
  {
    var query :=
      if after == "" then [("limit", IntToString(limit)), ("sortorder", "true"), ("columns", "id,bd.ip_address")]
      else [("limit", IntToString(limit)), ("after", after), ("sortorder", "true"), ("columns", "id,bd.ip_address")];
    Request(Post, Url(c.apiurl, "/inventory", query), JsonHeaders(c), Some(IpFilter(ip)))
  }

  function SearchForSource(c: Client, limit: int, after: string, search: string): (r: Request)
    ensures Authorized(c, r)
  {
    var query :=
      if after == "" then [("offset", "0"), ("limit", IntToString(limit)), ("search", search)]
      else [("offset", "0"), ("offset", after), ("limit", IntToString(limit)), ("search", search)];
    Request(Get, Url(c.apiurl, "/sources", query), AcceptHeaders(c), None)
  }

  function AddIp(c: Client, newIp: string): (r: Request)
    ensures Authorized(c, r)
  {
    Request(Post, Url(c.apiurl, "/source/ip/add", []), JsonHeaders(c), Some(IpPayload(newIp)))
  }

  function AddSource(c: Client, newSource: string): (r: Request)
    ensures Authorized(c, r)
  {
    var query := [("as_subdomain", "true"), ("dont_discover", "true")];
    Request(Post, Url(c.apiurl, "/source/add", query), JsonHeaders(c), Some(KeywordPayload(newSource)))
  }

  function ArchiveIp(c: Client, oldId: string): (r: Request)
    ensures Authorized(c, r)
  {
    Request(Post, Url(c.apiurl, "/asset/hide", []), JsonHeaders(c), Some(HidePayload(oldId)))
  }

  function DeleteSource(c: Client, oldSourceId: string): (r: Request)
    ensures Authorized(c, r)
  {
    Request(Post, Url(c.apiurl, "/source/" + oldSourceId + "/delete", []), JsonHeaders(c), None)
  }

  /** `get_dashboard` posts the hostname filter to `/dashboard`, asking for
      the given columns. */
  lemma GetDashboardPath(c: Client, querytypes: string)
    ensures Render(GetDashboard(c, querytypes).url) == c.apiurl + "/dashboard" + "?" + "columns=" + querytypes
    ensures GetDashboard(c, querytypes).verb == Post && GetDashboard(c, querytypes).body == Some(HostnameFilter)
  {
  }

  /** `add_ip` posts to `/source/ip/add` with no query. */
  lemma AddIpPath(c: Client, newIp: string)
    ensures Render(AddIp(c, newIp).url) == c.apiurl + "/source/ip/add"
    ensures AddIp(c, newIp).verb == Post
  {
  }

  /** `add_source` posts to `/source/add` with the two fixed flags. */
  lemma AddSourcePath(c: Client, newSource: string)
    ensures Render(AddSource(c, newSource).url) == c.apiurl + "/source/add" + "?" + "as_subdomain=true&dont_discover=true"
    ensures AddSource(c, newSource).verb == Post
  {
    AddSourceQuery();
  }

  /** `archive_ip` posts to `/asset/hide` with no query. */
  lemma ArchiveIpPath(c: Client, oldId: string)
    ensures Render(ArchiveIp(c, oldId).url) == c.apiurl + "/asset/hide"
    ensures ArchiveIp(c, oldId).verb == Post
  {
  }

  /** `delete_source` puts the id in the path and posts no body. */
  lemma DeleteSourcePath(c: Client, oldSourceId: string)
    ensures Render(DeleteSource(c, oldSourceId).url) == c.apiurl + "/source/" + oldSourceId + "/delete"
    ensures DeleteSource(c, oldSourceId).verb == Post && DeleteSource(c, oldSourceId).body.None?
  {
  }

  lemma AddSourceQuery()
    ensures Encode([("as_subdomain", "true"), ("dont_discover", "true")]) == "as_subdomain=true&dont_discover=true"
  {
    var q := [("as_subdomain", "true"), ("dont_discover", "true")];
    assert q[1..] == [("dont_discover", "true")];
    assert Encode(q[1..]) == "dont_discover=true";
  }

  // ---- bodies: the value goes between two quotes as it is ----

  /** The body as text. */
  function BodyText(b: Body): string {
    if b.pieces == [] then "" else Join(b.pieces, '"')
  }

  /** `[ { "column": "bd.original_hostname", "type": "ends with", "value": "" } ]` */
  const HostnameFilter: Body :=
    Body(["[ { ", "column", ": ", "bd.original_hostname", ", ", "type", ": ", "ends with", ", ", "value", ": ", "", " } ]"])

  /** `[ {"column": "bd.ip_address", "type": "is", "value": "<ip>" } ]` */
  function IpFilter(ip: string): Body {
    Body(["[ {", "column", ": ", "bd.ip_address", ", ", "type", ": ", "is", ", ", "value", ": ", ip, " } ]"])
  }

  /** `{ "ip": "<v>" }` */
  function IpPayload(v: string): Body {
    Body(["{ ", "ip", ": ", v, " }"])
  }

  /** `{ "keyword": "<v>" }` */
  function KeywordPayload(v: string): Body {
    Body(["{ ", "keyword", ": ", v, " }"])
  }

  /** `[ {"id": "<id>", "hidden": true } ]` */
  function HidePayload(id: string): Body {
    Body(["[ {", "id", ": ", id, ", ", "hidden", ": true } ]"])
  }

  // ---- reading a URL back: the query string as key/value pairs ----

  /** What follows the first `?` of a URL, or nothing. */
  function QueryString(url: string): string {
    if '?' in url then url[IndexOf(url, '?') + 1..] else ""
  }

  /** One `key=value` parameter: the key ends at the first `=`. */
  function Param(p: string): (string, string) {
    if '=' in p then (p[..IndexOf(p, '=')], p[IndexOf(p, '=') + 1..]) else (p, "")
  }

  function ParamsOf(parts: seq<string>): (ps: seq<(string, string)>)
    ensures |ps| == |parts|
  {
    if parts == [] then [] else [Param(parts[0])] + ParamsOf(parts[1..])
  }

  /** The parameters of a URL's query string, in order. */
  function Params(url: string): seq<(string, string)> {
    if '?' in url then ParamsOf(Split(QueryString(url), '&')) else []
  }

  /** The values a parameter is given, in order. */
  function Values(ps: seq<(string, string)>, key: string): (vs: seq<string>)
    ensures |vs| <= |ps|
  {
    if ps == [] then []
    else (if ps[0].0 == key then [ps[0].1] else []) + Values(ps[1..], key)
  }

  /** A key free of `=` and `&` with a value free of `&`. */
  predicate PlainParam(p: (string, string)) {
    '=' !in p.0 && '&' !in p.0 && '&' !in p.1
  }

  /** Parameters that read back as they were written. */
  predicate Plain(ps: seq<(string, string)>) {
    forall k :: 0 <= k < |ps| ==> PlainParam(ps[k])
  }

  lemma QueryAfter(base: string, q: string)
    requires '?' !in base
    ensures '?' in base + "?" + q
    ensures QueryString(base + "?" + q) == q
  {
    IndexOfGlued(base, '?', q);
    assert (base + "?" + q)[|base|] == '?';
    assert (base + "?" + q)[|base| + 1..] == q;
  }

  lemma ParamOf(k: string, v: string)
    requires '=' !in k
    ensures Param(k + "=" + v) == (k, v)
  {
    IndexOfGlued(k, '=', v);
    assert (k + "=" + v)[..|k|] == k;
    assert (k + "=" + v)[|k| + 1..] == v;
  }

  /** Splitting an encoded query string at `&` and each piece at its first
      `=` gives the pairs back. */
  lemma {:induction false} DecodeEncode(ps: seq<(string, string)>)
    requires ps != [] && Plain(ps)
    ensures ParamsOf(Split(Encode(ps), '&')) == ps
  {
    if |ps| == 1 {
      EncodeSingle(ps);
      ParamOf(ps[0].0, ps[0].1);
    } else {
      PlainTail(ps);
      DecodeEncode(ps[1..]);
      DecodeEncodeStep(ps);
    }
  }

  /** The inductive step: the first pair reads back, then the rest. */
  lemma DecodeEncodeStep(ps: seq<(string, string)>)
    requires |ps| > 1 && Plain(ps)
    requires ParamsOf(Split(Encode(ps[1..]), '&')) == ps[1..]
    ensures ParamsOf(Split(Encode(ps), '&')) == ps
  {
    var p := ps[0].0 + "=" + ps[0].1;
    var e := Encode(ps[1..]);
    ParamOf(ps[0].0, ps[0].1);
    EncodeSplit(ps);
    ParamsOfCons(p, Split(e, '&'));
    assert ps == [ps[0]] + ps[1..];
  }

  lemma EncodeSingle(ps: seq<(string, string)>)
    requires |ps| == 1 && Plain(ps)
    ensures Split(Encode(ps), '&') == [ps[0].0 + "=" + ps[0].1]
  {
    PairNoAmpersand(ps[0]);
  }

  /** The first pair, then the pieces of the rest. */
  lemma EncodeSplit(ps: seq<(string, string)>)
    requires |ps| > 1 && Plain(ps)
    ensures Split(Encode(ps), '&') == [ps[0].0 + "=" + ps[0].1] + Split(Encode(ps[1..]), '&')
  {
    var p := ps[0].0 + "=" + ps[0].1;
    PairNoAmpersand(ps[0]);
    assert Encode(ps) == p + ['&'] + Encode(ps[1..]);
    SplitAt(p, '&', Encode(ps[1..]));
  }

  lemma PlainTail(ps: seq<(string, string)>)
    requires ps != [] && Plain(ps)
    ensures Plain(ps[1..])
  {
    forall k | 0 <= k < |ps| - 1
      ensures PlainParam(ps[1..][k])
    {
      assert ps[1..][k] == ps[k + 1];
    }
  }

  lemma ParamsOfCons(x: string, rest: seq<string>)
    ensures ParamsOf([x] + rest) == [Param(x)] + ParamsOf(rest)
  {
    assert ([x] + rest)[1..] == rest;
  }

  lemma PairNoAmpersand(q: (string, string))
    requires PlainParam(q)
    ensures '&' !in q.0 + "=" + q.1
  {
    var p := q.0 + "=" + q.1;
    assert forall i :: 0 <= i < |p| ==> p[i] == (if i < |q.0| then q.0[i] else if i == |q.0| then '=' else q.1[i - |q.0| - 1]);
  }

  /** A rendered URL whose base and path carry no `?` and whose parameters
      are plain reads back as its parameters. */
  lemma ParamsOfRender(u: Url)
    requires '?' !in u.base + u.path && Plain(u.query)
    ensures Params(Render(u)) == u.query
  {
    if u.query != [] {
      QueryAfter(u.base + u.path, Encode(u.query));
      DecodeEncode(u.query);
    }
  }

  lemma DecimalIsPlain(n: int)
    ensures '&' !in IntToString(n) && '?' !in IntToString(n)
  {
  }

  /** The values a rendered URL gives a parameter are the ones its query
      lists. */
  lemma QueryValues(u: Url, key: string)
    requires '?' !in u.base + u.path && Plain(u.query)
    ensures Values(Params(Render(u)), key) == Values(u.query, key)
  {
    ParamsOfRender(u);
  }

  function ValueIf(p: (string, string), key: string): seq<string> {
    if p.0 == key then [p.1] else []
  }

  lemma Plain3(p1: (string, string), p2: (string, string), p3: (string, string))
    requires PlainParam(p1) && PlainParam(p2) && PlainParam(p3)
    ensures Plain([p1, p2, p3])
  {
  }

  lemma Plain4(p1: (string, string), p2: (string, string), p3: (string, string), p4: (string, string))
    requires PlainParam(p1) && PlainParam(p2) && PlainParam(p3) && PlainParam(p4)
    ensures Plain([p1, p2, p3, p4])
  {
  }

  lemma Values3(p1: (string, string), p2: (string, string), p3: (string, string), key: string)
    ensures Values([p1, p2, p3], key) == ValueIf(p1, key) + ValueIf(p2, key) + ValueIf(p3, key)
  {
    var q := [p1, p2, p3];
    assert q[1..][1..][1..] == [];
    assert q[1..][1..] == [p3];
    assert Values(q[1..][1..], key) == ValueIf(p3, key);
    assert q[1..] == [p2, p3];
    assert Values(q[1..], key) == ValueIf(p2, key) + ValueIf(p3, key);
  }

  lemma Values4(p1: (string, string), p2: (string, string), p3: (string, string), p4: (string, string), key: string)
    ensures Values([p1, p2, p3, p4], key) == ValueIf(p1, key) + ValueIf(p2, key) + ValueIf(p3, key) + ValueIf(p4, key)
  {
    var q := [p1, p2, p3, p4];
    assert q[1..][1..][1..][1..] == [];
    assert q[1..][1..][1..] == [p4];
    assert Values(q[1..][1..][1..], key) == ValueIf(p4, key);
    assert q[1..][1..] == [p3, p4];
    assert Values(q[1..][1..], key) == ValueIf(p3, key) + ValueIf(p4, key);
    assert q[1..] == [p2, p3, p4];
    assert Values(q[1..], key) == ValueIf(p2, key) + ValueIf(p3, key) + ValueIf(p4, key);
  }

  /** A three-parameter URL read back, one parameter at a time. */
  lemma QueryValues3(base: string, path: string, p1: (string, string), p2: (string, string), p3: (string, string), key: string)
    requires '?' !in base && '?' !in path
    requires PlainParam(p1) && PlainParam(p2) && PlainParam(p3)
    ensures Values(Params(Render(Url(base, path, [p1, p2, p3]))), key) == ValueIf(p1, key) + ValueIf(p2, key) + ValueIf(p3, key)
  {
    assert '?' !in base + path;
    Plain3(p1, p2, p3);
    QueryValues(Url(base, path, [p1, p2, p3]), key);
    Values3(p1, p2, p3, key);
  }

  /** A four-parameter URL read back, one parameter at a time. */
  lemma QueryValues4(base: string, path: string, p1: (string, string), p2: (string, string), p3: (string, string), p4: (string, string), key: string)
    requires '?' !in base && '?' !in path
    requires PlainParam(p1) && PlainParam(p2) && PlainParam(p3) && PlainParam(p4)
    ensures Values(Params(Render(Url(base, path, [p1, p2, p3, p4]))), key)
         == ValueIf(p1, key) + ValueIf(p2, key) + ValueIf(p3, key) + ValueIf(p4, key)
  {
    assert '?' !in base + path;
    Plain4(p1, p2, p3, p4);
    QueryValues(Url(base, path, [p1, p2, p3, p4]), key);
    Values4(p1, p2, p3, p4, key);
  }

  /** A decimal number or a value free of `&` under a fixed key reads back. */
  lemma PlainValues(n: int, v: string)
    requires '&' !in v
    ensures PlainParam(("limit", IntToString(n))) && PlainParam(("offset", IntToString(n)))
    ensures PlainParam(("offset", v)) && PlainParam(("after", v)) && PlainParam(("search", v))
  {
    DecimalIsPlain(n);
  }

  /** The fixed parameters read back. */
  lemma PlainConstants()
    ensures PlainParam(("offset", "0")) && PlainParam(("sortorder", "true")) && PlainParam(("inventory", "false"))
    ensures PlainParam(("columns", "id,bd.ip_address")) && PlainParam(("forcescreenshots", "false"))
  {
    PlainConstant("offset", "0");
    PlainConstant("sortorder", "true");
    PlainConstant("inventory", "false");
    PlainConstant("columns", "id,bd.ip_address");
    PlainConstant("forcescreenshots", "false");
  }

  lemma PlainConstant(k: string, v: string)
    requires forall i :: 0 <= i < |k| ==> k[i] != '=' && k[i] != '&'
    requires forall i :: 0 <= i < |v| ==> v[i] != '&'
    ensures PlainParam((k, v))
  {
  }

  /** The paths have no `?`. */
  lemma PlainPaths()
    ensures '?' !in "/inventory" && '?' !in "/sources" && '?' !in "/inventories/list"
  {
  }

  /** `search_for_source` asks for offset 0 on the first page; later pages
      send the cursor as a second `offset` after `offset=0`, so the text
      carries two `offset` values. */
  lemma SearchForSourceParams(c: Client, limit: int, after: string, search: string)
    requires '?' !in c.apiurl && '&' !in after && '&' !in search
    ensures after == "" ==> Values(Params(Render(SearchForSource(c, limit, after, search).url)), "offset") == ["0"]
    ensures after != "" ==> Values(Params(Render(SearchForSource(c, limit, after, search).url)), "offset") == ["0", after]
    ensures Values(Params(Render(SearchForSource(c, limit, after, search).url)), "search") == [search]
  {
    var l := IntToString(limit);
    PlainValues(limit, after);
    PlainValues(limit, search);
    PlainConstants();
    PlainPaths();
    if after == "" {
      SourceFirstPage(c.apiurl, l, search);
    } else {
      SourceLaterPage(c.apiurl, l, after, search);
    }
  }

  lemma SourceFirstPage(base: string, l: string, search: string)
    requires '?' !in base && '?' !in "/sources"
    requires PlainParam(("offset", "0")) && PlainParam(("limit", l)) && PlainParam(("search", search))
    ensures Values(Params(Render(Url(base, "/sources", [("offset", "0"), ("limit", l), ("search", search)]))), "offset") == ["0"]
    ensures Values(Params(Render(Url(base, "/sources", [("offset", "0"), ("limit", l), ("search", search)]))), "search") == [search]
  {
    QueryValues3(base, "/sources", ("offset", "0"), ("limit", l), ("search", search), "offset");
    QueryValues3(base, "/sources", ("offset", "0"), ("limit", l), ("search", search), "search");
  }

  lemma SourceLaterPage(base: string, l: string, after: string, search: string)
    requires '?' !in base && '?' !in "/sources"
    requires PlainParam(("offset", "0")) && PlainParam(("offset", after))
    requires PlainParam(("limit", l)) && PlainParam(("search", search))
    ensures Values(Params(Render(Url(base, "/sources", [("offset", "0"), ("offset", after), ("limit", l), ("search", search)]))), "offset") == ["0", after]
    ensures Values(Params(Render(Url(base, "/sources", [("offset", "0"), ("offset", after), ("limit", l), ("search", search)]))), "search") == [search]
  {
    QueryValues4(base, "/sources", ("offset", "0"), ("offset", after), ("limit", l), ("search", search), "offset");
    QueryValues4(base, "/sources", ("offset", "0"), ("offset", after), ("limit", l), ("search", search), "search");
  }

  /** `search_inventory` asks for offset 0 on the first page and passes the
      cursor as `after` on later ones, never both. */
  lemma SearchInventoryParams(c: Client, limit: int, after: string)
    requires '?' !in c.apiurl && '&' !in after
    ensures after == "" ==> Values(Params(Render(SearchInventory(c, limit, after).url)), "offset") == ["0"]
    ensures after == "" ==> Values(Params(Render(SearchInventory(c, limit, after).url)), "after") == []
    ensures after != "" ==> Values(Params(Render(SearchInventory(c, limit, after).url)), "after") == [after]
    ensures after != "" ==> Values(Params(Render(SearchInventory(c, limit, after).url)), "offset") == []
  {
    var l := IntToString(limit);
    PlainValues(limit, after);
    PlainConstants();
    PlainPaths();
    if after == "" {
      QueryValues4(c.apiurl, "/inventory", ("limit", l), ("offset", "0"), ("sortorder", "true"), ("inventory", "false"), "offset");
      QueryValues4(c.apiurl, "/inventory", ("limit", l), ("offset", "0"), ("sortorder", "true"), ("inventory", "false"), "after");
    } else {
      QueryValues4(c.apiurl, "/inventory", ("limit", l), ("after", after), ("sortorder", "true"), ("inventory", "false"), "offset");
      QueryValues4(c.apiurl, "/inventory", ("limit", l), ("after", after), ("sortorder", "true"), ("inventory", "false"), "after");
    }
  }

  /** `search_for_ip_address` sends no offset at all and passes the cursor
      as `after` on later pages. */
  lemma SearchForIpAddressParams(c: Client, limit: int, after: string, ip: string)
    requires '?' !in c.apiurl && '&' !in after
    ensures Values(Params(Render(SearchForIpAddress(c, limit, after, ip).url)), "offset") == []
    ensures after == "" ==> Values(Params(Render(SearchForIpAddress(c, limit, after, ip).url)), "after") == []
    ensures after != "" ==> Values(Params(Render(SearchForIpAddress(c, limit, after, ip).url)), "after") == [after]
  {
    var l := IntToString(limit);
    PlainValues(limit, after);
    PlainConstants();
    PlainPaths();
    if after == "" {
      QueryValues3(c.apiurl, "/inventory", ("limit", l), ("sortorder", "true"), ("columns", "id,bd.ip_address"), "offset");
      QueryValues3(c.apiurl, "/inventory", ("limit", l), ("sortorder", "true"), ("columns", "id,bd.ip_address"), "after");
    } else {
      QueryValues4(c.apiurl, "/inventory", ("limit", l), ("after", after), ("sortorder", "true"), ("columns", "id,bd.ip_address"), "offset");
      QueryValues4(c.apiurl, "/inventory", ("limit", l), ("after", after), ("sortorder", "true"), ("columns", "id,bd.ip_address"), "after");
    }
  }

  /** `find_inventories` sends the offset and the limit in decimal. */
  lemma FindInventoriesParams(c: Client, offset: int, limit: int)
    requires '?' !in c.apiurl
    ensures Values(Params(Render(FindInventories(c, offset, limit).url)), "offset") == [IntToString(offset)]
    ensures Values(Params(Render(FindInventories(c, offset, limit).url)), "limit") == [IntToString(limit)]
  {
    var o := IntToString(offset);
    var l := IntToString(limit);
    PlainValues(limit, "");
    PlainValues(offset, "");
    PlainConstants();
    PlainPaths();
    QueryValues3(c.apiurl, "/inventories/list", ("offset", o), ("limit", l), ("forcescreenshots", "false"), "offset");
    QueryValues3(c.apiurl, "/inventories/list", ("offset", o), ("limit", l), ("forcescreenshots", "false"), "limit");
  }

  // ---- reading a body back: the pieces between double quotes ----

  /** A body none of whose pieces holds a double quote reads back, split at
      the quotes, as its pieces. */
  lemma BodyRoundTrip(b: Body)
    requires b.pieces != []
    requires forall k :: 0 <= k < |b.pieces| ==> '"' !in b.pieces[k]
    ensures Split(BodyText(b), '"') == b.pieces
  {
    SplitJoin(b.pieces, '"');
  }

  /** The address `add_ip` posts comes back as the fourth quoted piece,
      provided it holds no double quote. */
  lemma IpPayloadField(v: string)
    requires '"' !in v
    ensures Split(BodyText(IpPayload(v)), '"') == IpPayload(v).pieces
    ensures Split(BodyText(IpPayload(v)), '"')[3] == v
  {
    BodyRoundTrip(IpPayload(v));
  }

  /** The same for the keyword `add_source` posts. */
  lemma KeywordPayloadField(v: string)
    requires '"' !in v
    ensures Split(BodyText(KeywordPayload(v)), '"') == KeywordPayload(v).pieces
    ensures Split(BodyText(KeywordPayload(v)), '"')[3] == v
  {
    BodyRoundTrip(KeywordPayload(v));
  }

  /** The same for the id `archive_ip` hides. */
  lemma HidePayloadField(id: string)
    requires '"' !in id
    ensures Split(BodyText(HidePayload(id)), '"') == HidePayload(id).pieces
    ensures Split(BodyText(HidePayload(id)), '"')[3] == id
  {
    BodyRoundTrip(HidePayload(id));
  }

  /** The address the search filter asks for is its twelfth quoted piece. */
  lemma IpFilterField(ip: string)
    requires '"' !in ip
    ensures Split(BodyText(IpFilter(ip)), '"') == IpFilter(ip).pieces
    ensures Split(BodyText(IpFilter(ip)), '"')[11] == ip
  {
    BodyRoundTrip(IpFilter(ip));
  }

  /** Nothing is escaped: a quote inside the address ends the quoted piece
      early, and the body reads back with two pieces where the address was. */
  lemma IpPayloadQuoteNotEscaped()
    ensures Split(BodyText(IpPayload("a\"b")), '"') == ["{ ", "ip", ": ", "a", "b", " }"]
    ensures Split(BodyText(IpPayload("a\"b")), '"')[3] != "a\"b"
  {
    var parts := ["{ ", "ip", ": ", "a", "b", " }"];
    assert "a\"b" == "a" + ['"'] + "b";
    assert IpPayload("a\"b").pieces == ["{ ", "ip", ": ", "a" + ['"'] + "b", " }"];
    JoinSplitsPiece("{ ", "ip", ": ", "a", "b", " }", '"');
    SplitJoin6("{ ", "ip", ": ", "a", "b", " }", '"');
  }

  lemma SplitJoin6(x1: string, x2: string, x3: string, x4: string, x5: string, x6: string, c: char)
    requires c !in x1 && c !in x2 && c !in x3 && c !in x4 && c !in x5 && c !in x6
    ensures Split(Join([x1, x2, x3, x4, x5, x6], c), c) == [x1, x2, x3, x4, x5, x6]
  {
    var parts := [x1, x2, x3, x4, x5, x6];
    forall k | 0 <= k < |parts|
      ensures c !in parts[k]
    {
      assert parts[k] in {x1, x2, x3, x4, x5, x6};
    }
    SplitJoin(parts, c);
  }

  /** A separator inside the fourth of five pieces joins to the same text
      as six pieces. */
  lemma JoinSplitsPiece(x1: string, x2: string, x3: string, a: string, b: string, x5: string, c: char)
    ensures Join([x1, x2, x3, a + [c] + b, x5], c) == Join([x1, x2, x3, a, b, x5], c)
  {
    Join5(c, x1, x2, x3, a + [c] + b, x5);
    JoinCons(x1, [x2, x3, a, b, x5], c);
    assert [x1] + [x2, x3, a, b, x5] == [x1, x2, x3, a, b, x5];
    Join5(c, x2, x3, a, b, x5);
  }

  // ---- the cursor ----

  /** The loop of `get_lastid` over the assets, `lastid` holding the value
      so far. */
  function LastIdFrom(assets: seq<Entity>, lastid: string): string {
    if assets == [] then lastid
    else LastIdFrom(assets[1..], if "id" in assets[0] then StrOf(assets[0]["id"]) else lastid)
  }

  /** `get_lastid`: '' unless the response has assets. */
  function GetLastId(r: Response): string {
    if r.assets.Some? then LastIdFrom(r.assets.value, "") else ""
  }

  /** The cursor read off a source page's `searches`, the way `get_lastid`
      reads it off `assets`. */
  function LastSearchId(r: Response): string {
    if r.searches.Some? then LastIdFrom(r.searches.value, "") else ""
  }

  /** The asset a cursor comes from: it carries an id and no later one does. */
  ghost predicate LastWithId(assets: seq<Entity>, k: int) {
    && 0 <= k < |assets| && "id" in assets[k]
    && forall j :: k < j < |assets| ==> "id" !in assets[j]
  }

  lemma {:induction false} LastIdFromSpec(assets: seq<Entity>, lastid: string)
    ensures (forall j :: 0 <= j < |assets| ==> "id" !in assets[j]) ==> LastIdFrom(assets, lastid) == lastid
    ensures forall k :: LastWithId(assets, k) ==> LastIdFrom(assets, lastid) == StrOf(assets[k]["id"])
  {
    if assets != [] {
      var next := if "id" in assets[0] then StrOf(assets[0]["id"]) else lastid;
      LastIdFromSpec(assets[1..], next);
      forall k | LastWithId(assets, k)
        ensures LastIdFrom(assets, lastid) == StrOf(assets[k]["id"])
      {
        if k > 0 {
          assert LastWithId(assets[1..], k - 1);
        } else if |assets| > 1 {
          assert forall j :: 0 <= j < |assets[1..]| ==> "id" !in assets[1..][j] by {
            forall j | 0 <= j < |assets[1..]|
              ensures "id" !in assets[1..][j]
            {
              assert assets[1..][j] == assets[j + 1];
            }
          }
        }
      }
    }
  }

  /** `get_lastid` gives '' when there is no asset list or no asset carries
      an id, and otherwise `str` of the id of the last asset that does. */
  lemma GetLastIdSpec(r: Response)
    ensures r.assets.None? ==> GetLastId(r) == ""
    ensures r.assets.Some? && (forall j :: 0 <= j < |r.assets.value| ==> "id" !in r.assets.value[j]) ==> GetLastId(r) == ""
    ensures forall k :: r.assets.Some? && LastWithId(r.assets.value, k) ==> GetLastId(r) == StrOf(r.assets.value[k]["id"])
  {
    if r.assets.Some? {
      LastIdFromSpec(r.assets.value, "");
    }
  }

  /** The search cursor is the id of the last source entry that has one. */
  lemma LastSearchIdSpec(r: Response)
    ensures r.searches.None? ==> LastSearchId(r) == ""
    ensures forall k :: r.searches.Some? && LastWithId(r.searches.value, k) ==> LastSearchId(r) == StrOf(r.searches.value[k]["id"])
  {
    if r.searches.Some? {
      LastIdFromSpec(r.searches.value, "");
    }
  }

  // ---- the endpoints that answer True ----

  /** One call of `add_ip`, `add_source`, `archive_ip` or `delete_source`:
      it raises when the transport does, and otherwise returns True. */
  function EndpointCall(raised: bool): Attempt<bool> {
    if raised then Raised else Returned(true)
  }

  /** Under the retry helper these endpoints never yield False: the helper
      returns True after the first call that did not raise, and None
      exactly when every allowed call raised. */
  lemma EndpointRetry(raised: nat -> bool, maxTries: int)
    ensures var r := TryMultipleTimes((k: nat) => EndpointCall(raised(k)), maxTries);
      && r.result != Some(false)
      && (r.result == None <==> forall k :: 0 <= k < maxTries ==> raised(k))
      && (r.result == Some(true) ==> !raised(r.calls - 1) && forall j :: 0 <= j < r.calls - 1 ==> raised(j))
  {
    var fn := (k: nat) => EndpointCall(raised(k));
    var r := TryMultipleTimes(fn, maxTries);
    if r.result == None {
      forall k | 0 <= k < maxTries
        ensures raised(k)
      {
        assert !fn(k).Returned?;
      }
    } else {
      assert !raised(r.calls - 1);
      forall j | 0 <= j < r.calls - 1
        ensures raised(j)
      {
        assert Failed(fn(j));
      }
    }
  }
}
