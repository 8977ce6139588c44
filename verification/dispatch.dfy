/**
  The public entry points `ReadCookies` and `ReadSetCookies`: they accept a value
  of one of several shapes and normalise it to a cookie collection. Text shapes go
  to the direction's line parser, cookie shapes pass through, and everything else
  goes to `any2Cookies`, which handles the two native map shapes, a JSON client
  value, and otherwise decodes the value as JSON.
 */
module Dispatch {
  import opened Model
  import opened Adapter
  import Request
  import Response

  /** The value shapes the entry points distinguish (a Go type switch). */
  datatype Shape =
    | Text(line: string)                            // string: one header line
    | LineList(lines: seq<string>)                  // []string: several header lines
    | HeaderMap(header: Header)                     // http.Header
    | Already(cookies: Cookies)                     // Cookies or []*http.Cookie
    | Single(cookie: Cookie)                        // *http.Cookie or http.Cookie
    | StrMap(strs: map<string, string>)             // map[string]string
    | ListMap(lists: map<string, seq<string>>)      // map[string][]string
    | Client(client: JsonClient)                    // *gson.Client
    | Other(tag: string)                            // any other Go value; `tag` only tells such values apart

  /** What decoding a value as JSON gives: the decoded value, which need not be an object, or a failure. */
  type Decoder = Shape -> Result<JsonClient>

  /**
    `order` is the order in which Go visits the map that `any2Cookies` iterates
    over for `v`, if it iterates over one.
   */
  predicate OrderFits(v: Shape, order: seq<string>, decode: Decoder) {
    match v
    case StrMap(m) => IsEnumeration(order, m.Keys)
    case ListMap(m) => IsEnumeration(order, m.Keys)
    case Client(client) => client.isObject ==> IsEnumeration(order, client.members.Keys)
    case _ => decode(v).Ok? ==> IsEnumeration(order, decode(v).value.members.Keys)
  }

  /** The shapes `any2Cookies` reports as failures for: a non-object client, or a value that does not decode. */
  predicate Fails(v: Shape, decode: Decoder) {
    match v
    case StrMap(_) => false
    case ListMap(_) => false
    case Client(client) => !client.isObject
    case _ => decode(v).Err?
  }

  /** `any2Cookies`. */
  function Any2Cookies(v: Shape, order: seq<string>, decode: Decoder): (r: Result<Cookies>)
    requires OrderFits(v, order, decode)
    ensures r.Err? <==> Fails(v, decode)
    ensures v.Client? && !v.client.isObject ==> r == Err(NotSupported)
    ensures r.Ok? ==> forall i :: 0 <= i < |r.value| ==> IsPlain(r.value[i])
  {
    match v
    case StrMap(m) => Ok(FromStrMap(m, order))
    case ListMap(m) => Ok(FromListMap(m, order))
    case Client(client) =>
      if !client.isObject then Err(NotSupported) else Ok(FromJsonMap(client.members, order))
    case _ =>
      // the decoded value is read without asking whether it is an object
      match decode(v)
      case Err(e) => Err(e)
      case Ok(decoded) => Ok(FromJsonMap(decoded.members, order))
  }

  /** The values a JSON object lists under `name`: an array's elements, another value's text, or nothing. */
  function MemberValues(m: map<string, JsonValue>, name: string): seq<string> {
    if name !in m then [] else MemberTexts(m[name])
  }

  /**
    What a successful conversion gives, key by key: each map key or JSON member
    contributes exactly its values, in their own order, and no other name appears.
   */
  lemma Any2CookiesPerKey(v: Shape, order: seq<string>, decode: Decoder, name: string)
    requires OrderFits(v, order, decode) && !Fails(v, decode)
    ensures ValuesNamed(Any2Cookies(v, order, decode).value, name) ==
      if v.StrMap? then (if name in v.strs then [v.strs[name]] else [])
      else if v.ListMap? then (if name in v.lists then v.lists[name] else [])
      else if v.Client? then MemberValues(v.client.members, name)
      else MemberValues(decode(v).value.members, name)
  {
    if v.StrMap? {
      StrMapPerKey(v.strs, order, name);
    } else if v.ListMap? {
      ListMapPerKey(v.lists, order, name);
    } else if v.Client? {
      JsonPerKey(v.client.members, order, name);
    } else {
      JsonPerKey(decode(v).value.members, order, name);
    }
  }

  /** The shapes `ReadCookies` handles itself, without `any2Cookies`. */
  predicate ReadsDirectly(v: Shape) {
    v.Text? || v.LineList? || v.HeaderMap? || v.Already? || v.Single?
  }

  /** The shapes `ReadSetCookies` handles itself: it has no case for a single cookie. */
  predicate SetReadsDirectly(v: Shape) {
    v.Text? || v.LineList? || v.HeaderMap? || v.Already?
  }

  /** `ReadCookies`: the request direction. */
  function ReadCookies(v: Shape, order: seq<string>, decode: Decoder): (r: Result<Cookies>)
    requires ReadsDirectly(v) || OrderFits(v, order, decode)
    ensures ReadsDirectly(v) ==> r.Ok?
    ensures v.Text? ==> r == Ok(Request.LineCookies(v.line))
    ensures v.LineList? ==> r == Ok(Request.LinesCookies(v.lines))
    ensures v.HeaderMap? ==> r == Ok(Request.ReadCookies(v.header))
    ensures v.Already? ==> r == Ok(v.cookies)
    ensures v.Single? ==> r == Ok([v.cookie])
    ensures !ReadsDirectly(v) ==> r == Any2Cookies(v, order, decode)
  {
    match v
    case Single(c) => Ok([c])
    case Already(cs) => Ok(cs)
    case Text(line) =>
      Request.OneLine(line);
      Ok(Request.ReadCookies(map["Cookie" := [line]]))
    case HeaderMap(h) => Ok(Request.ReadCookies(h))
    case LineList(lines) => Ok(Request.ReadCookies(map["Cookie" := lines]))
    case _ => Any2Cookies(v, order, decode)
  }

  /** `ReadSetCookies`: the response direction. */
  function ReadSetCookies(v: Shape, order: seq<string>, decode: Decoder): (r: Result<Cookies>)
    requires SetReadsDirectly(v) || OrderFits(v, order, decode)
    ensures SetReadsDirectly(v) ==> r.Ok?
    ensures v.Text? ==> r == Ok(OptionToSeq(Response.LineCookie(v.line)))
    ensures v.LineList? ==> r == Ok(Response.LinesCookies(v.lines))
    ensures v.HeaderMap? ==> r == Ok(Response.ReadSetCookies(v.header))
    ensures v.Already? ==> r == Ok(v.cookies)
    ensures !SetReadsDirectly(v) ==> r == Any2Cookies(v, order, decode)
  {
    match v
    case Already(cs) => Ok(cs)
    case Text(line) =>
      Response.OneLine(line);
      Ok(Response.ReadSetCookies(map["Set-Cookie" := [line]]))
    case HeaderMap(h) => Ok(Response.ReadSetCookies(h))
    case LineList(lines) => Ok(Response.ReadSetCookies(map["Set-Cookie" := lines]))
    case _ => Any2Cookies(v, order, decode)
  }

  /** A string is one `Cookie` line and a list of strings is several; both parse line by line. */
  lemma ReadCookiesText(line: string, lines: seq<string>, order: seq<string>, decode: Decoder)
    ensures ReadCookies(Text(line), order, decode) == ReadCookies(LineList([line]), order, decode)
    ensures ReadCookies(LineList(lines), order, decode) == Ok(Request.LinesCookies(lines))
    ensures ReadCookies(HeaderMap(map["Cookie" := lines]), order, decode) == ReadCookies(LineList(lines), order, decode)
  {
  }

  /** A string is one `Set-Cookie` line and a list of strings is several; both parse line by line. */
  lemma ReadSetCookiesText(line: string, lines: seq<string>, order: seq<string>, decode: Decoder)
    ensures ReadSetCookies(Text(line), order, decode) == ReadSetCookies(LineList([line]), order, decode)
    ensures ReadSetCookies(LineList(lines), order, decode) == Ok(Response.LinesCookies(lines))
    ensures ReadSetCookies(HeaderMap(map["Set-Cookie" := lines]), order, decode)
      == ReadSetCookies(LineList(lines), order, decode)
  {
  }

  /** An existing collection is passed through unchanged, in both directions. */
  lemma PassThrough(cs: Cookies, order: seq<string>, decode: Decoder)
    ensures ReadCookies(Already(cs), order, decode) == Ok(cs)
    ensures ReadSetCookies(Already(cs), order, decode) == Ok(cs)
  {
  }

  /** Normalising is idempotent: a successful request-direction result, normalised again, comes back unchanged. */
  lemma Idempotent(v: Shape, order: seq<string>, decode: Decoder)
    requires ReadsDirectly(v) || OrderFits(v, order, decode)
    ensures ReadCookies(v, order, decode).Ok? ==>
      ReadCookies(Already(ReadCookies(v, order, decode).value), order, decode) == ReadCookies(v, order, decode)
  {
    var r := ReadCookies(v, order, decode);
    if r.Ok? {
      PassThrough(r.value, order, decode);
    }
  }

  /** The same for the response direction. */
  lemma SetIdempotent(v: Shape, order: seq<string>, decode: Decoder)
    requires SetReadsDirectly(v) || OrderFits(v, order, decode)
    ensures ReadSetCookies(v, order, decode).Ok? ==>
      ReadSetCookies(Already(ReadSetCookies(v, order, decode).value), order, decode) == ReadSetCookies(v, order, decode)
  {
    var r := ReadSetCookies(v, order, decode);
    if r.Ok? {
      PassThrough(r.value, order, decode);
    }
  }

  /**
    The two directions disagree on an empty name: `=v` gives nothing as a `Cookie` line
    but a cookie named "" as a `Set-Cookie` line.
   */
  lemma EmptyNameAsymmetry(order: seq<string>, decode: Decoder)
    ensures ReadCookies(Text("=v"), order, decode) == Ok([])
    ensures ReadSetCookies(Text("=v"), order, decode) == Ok([Plain("", "v")])
  {
    ReadCookiesText("=v", ["=v"], order, decode);
    ReadSetCookiesText("=v", ["=v"], order, decode);
    Request.OneLine("=v");
    Response.OneLine("=v");
    Request.EmptyNameExample();
    Response.EmptyNameExample();
  }

  /**
    The fallback does not check that a decoded value is an object: a decoded
    non-object is read through the members it reports, while a client value that
    is not an object is rejected as unsupported.
   */
  lemma DecodeSkipsObjectCheck(tag: string, m: map<string, JsonValue>, order: seq<string>, decode: Decoder)
    requires decode(Other(tag)) == Ok(JsonClient(false, m))
    requires IsEnumeration(order, m.Keys)
    ensures ReadCookies(Other(tag), order, decode) == Ok(FromJsonMap(m, order))
    ensures ReadSetCookies(Other(tag), order, decode) == Ok(FromJsonMap(m, order))
    ensures ReadCookies(Client(JsonClient(false, m)), order, decode) == Err(NotSupported)
    ensures ReadSetCookies(Client(JsonClient(false, m)), order, decode) == Err(NotSupported)
  {
  }

  /**
    Only the request direction accepts a single cookie as is; the response direction
    hands it to the JSON decoder and fails exactly when that fails.
   */
  lemma SingleCookie(c: Cookie, order: seq<string>, decode: Decoder)
    requires OrderFits(Single(c), order, decode)
    ensures ReadCookies(Single(c), order, decode) == Ok([c])
    ensures ReadSetCookies(Single(c), order, decode).Err? <==> decode(Single(c)).Err?
  {
  }
}
