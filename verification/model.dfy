/**
  The data shared by every parser: the cookie record (the fields of Go's
  `http.Cookie` that these parsers read or write), the header map, and the
  failure-carrying wrappers.
 */
module Model {

  datatype Option<+T> = None | Some(value: T)

  /** What a failed conversion reports. */
  datatype Error =
    | NotSupported              // the "cookies not support type" error
    | DecodeFailed(message: string)

  datatype Result<+T> = Ok(value: T) | Err(error: Error)

  /** One cookie, as a plain value. */
  datatype Cookie = Cookie(
    name: string,
    value: string,
    domain: string,
    path: string,
    secure: bool,
    httpOnly: bool)

  /** The ordered, duplicate-preserving cookie collection (`Cookies` in Go). */
  type Cookies = seq<Cookie>

  /** A cookie that carries only a name and a value (`&http.Cookie{Name: n, Value: v}`). */
  function Plain(name: string, value: string): Cookie {
    Cookie(name, value, "", "", false, false)
  }

  predicate IsPlain(c: Cookie) {
    c.domain == "" && c.path == "" && !c.secure && !c.httpOnly
  }

  function OptionToSeq<T>(o: Option<T>): seq<T> {
    match o
    case None => []
    case Some(v) => [v]
  }

  /** A multi-valued header map. Lookups use the key exactly as given, without canonicalisation. */
  type Header = map<string, seq<string>>

  /** The lines stored under `key`; a missing key has no lines. */
  function Lines(h: Header, key: string): seq<string> {
    if key in h then h[key] else []
  }

  /** The values of the cookies named `name`, in collection order. */
  function ValuesNamed(cs: Cookies, name: string): seq<string> {
    if cs == [] then []
    else (if cs[0].name == name then [cs[0].value] else []) + ValuesNamed(cs[1..], name)
  }

  lemma {:induction false} ValuesNamedAppend(a: Cookies, b: Cookies, name: string)
    ensures ValuesNamed(a + b, name) == ValuesNamed(a, name) + ValuesNamed(b, name)
  {
    if a == [] {
      assert a + b == b;
    } else {
      assert (a + b)[1..] == a[1..] + b;
      ValuesNamedAppend(a[1..], b, name);
    }
  }
}
