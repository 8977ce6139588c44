/**
  The response-direction parser (`readSetCookies`): every `Set-Cookie` line gives
  at most one cookie. The first `;`-segment must contain `=` and names the
  cookie; the later segments are attributes, of which only `Domain`, `Path`,
  `Secure` and `HttpOnly` (in any ASCII letter case) have an effect.
 */
module Response {
  import opened Text
  import opened Model

  /** The attribute value of a segment: the trimmed text after its first `=`. */
  function AttrValue(part: string): string {
    TrimSpace(CutAt(TrimSpace(part), '=').after)
  }

  /** `part` names the attribute `key`, ignoring ASCII letter case, whatever value it carries. */
  predicate Names(part: string, key: string) {
    EqualFold(NameOf(part), key)
  }

  /** `part` names the attribute `key` and carries a value (contains `=`). */
  predicate Assigns(part: string, key: string) {
    Names(part, key) && '=' in part
  }

  /** Text fields that are trimmed and free of `;`. */
  predicate Clean(c: Cookie) {
    && IsTrimmed(c.name) && IsTrimmed(c.value) && IsTrimmed(c.domain) && IsTrimmed(c.path)
    && ';' !in c.name && ';' !in c.value && ';' !in c.domain && ';' !in c.path
  }

  lemma AttrValueClean(part: string)
    requires ';' !in part
    ensures IsTrimmed(AttrValue(part)) && ';' !in AttrValue(part)
  {
    var attr := TrimSpace(part);
    TrimKeeps(part, ';');
    TrimKeeps(CutAt(attr, '=').after, ';');
  }

  /** One attribute segment applied to the cookie built so far (cookies.go:63-84). */
  function ApplyAttr(c: Cookie, part: string): (r: Cookie)
    ensures r.name == c.name && r.value == c.value
  {
    var attr := TrimSpace(part);
    if attr == "" then c
    else
      var kv := CutAt(attr, '=');
      Choose(c, ToLower(TrimSpace(kv.before)), kv)
  }

  /** The `switch key` of the attribute loop. */
  function Choose(c: Cookie, key: string, kv: Cut): (r: Cookie)
    ensures r.name == c.name && r.value == c.value
  {
    if key == "domain" then (if kv.found then c.(domain := TrimSpace(kv.after)) else c)
    else if key == "path" then (if kv.found then c.(path := TrimSpace(kv.after)) else c)
    else if key == "secure" then c.(secure := true)
    else if key == "httponly" then c.(httpOnly := true)
    else c
  }

  /** An empty segment names no attribute. */
  lemma EmptyAttrNamesNothing(part: string, key: string)
    requires TrimSpace(part) == "" && key != ""
    ensures !Names(part, key)
  {
    TrimmedIsFixed([]);
    assert CutAt([], '=').before == [];
  }

  /** A non-empty segment's switch key is one of the four words exactly when the segment names it. */
  lemma SwitchKey(part: string, word: string)
    requires TrimSpace(part) != ""
    requires IsLowerWord(word)
    ensures ToLower(TrimSpace(CutAt(TrimSpace(part), '=').before)) == word <==> Names(part, word)
  {
    LowerMatches(NameOf(part), word);
  }

  predicate IsLowerWord(w: string) {
    forall i :: 0 <= i < |w| ==> !IsUpper(w[i])
  }

  lemma KeyWordsLower()
    ensures IsLowerWord("domain") && IsLowerWord("path")
    ensures IsLowerWord("secure") && IsLowerWord("httponly")
  {
  }

  /** A segment raises `Secure` (or `HttpOnly`) exactly when it names it, whatever value it carries. */
  lemma ApplyAttrFlag(c: Cookie, part: string)
    ensures ApplyAttr(c, part).secure == (c.secure || Names(part, "secure"))
    ensures ApplyAttr(c, part).httpOnly == (c.httpOnly || Names(part, "httponly"))
  {
    if TrimSpace(part) == "" {
      EmptyAttrNamesNothing(part, "secure");
      EmptyAttrNamesNothing(part, "httponly");
    } else {
      var kv := CutAt(TrimSpace(part), '=');
      var key := ToLower(TrimSpace(kv.before));
      ApplyAttrBy(c, part, kv, key);
      ChooseFlags(c, key, kv);
      KeyWordsLower();
      SwitchKey(part, "secure");
      SwitchKey(part, "httponly");
    }
  }

  lemma ChooseFlags(c: Cookie, key: string, kv: Cut)
    ensures Choose(c, key, kv).secure == (c.secure || key == "secure")
    ensures Choose(c, key, kv).httpOnly == (c.httpOnly || key == "httponly")
  {
  }

  /** A segment sets `Domain` (or `Path`) exactly when it names it and carries a value. */
  lemma ApplyAttrValue(c: Cookie, part: string)
    ensures ApplyAttr(c, part).domain == if Assigns(part, "domain") then AttrValue(part) else c.domain
    ensures ApplyAttr(c, part).path == if Assigns(part, "path") then AttrValue(part) else c.path
  {
    var attr := TrimSpace(part);
    TrimKeeps(part, '=');
    if attr == "" {
      EmptyAttrNamesNothing(part, "domain");
      EmptyAttrNamesNothing(part, "path");
    } else {
      var kv := CutAt(attr, '=');
      var key := ToLower(TrimSpace(kv.before));
      assert kv.found <==> '=' in part;
      ApplyAttrBy(c, part, kv, key);
      ChooseValue(c, key, kv);
      KeyWordsLower();
      SwitchKey(part, "domain");
      SwitchKey(part, "path");
    }
  }

  lemma ChooseValue(c: Cookie, key: string, kv: Cut)
    ensures Choose(c, key, kv).domain == if key == "domain" && kv.found then TrimSpace(kv.after) else c.domain
    ensures Choose(c, key, kv).path == if key == "path" && kv.found then TrimSpace(kv.after) else c.path
  {
  }

  /** An attribute segment free of `;` keeps every text field trimmed and free of `;`. */
  lemma ApplyAttrClean(c: Cookie, part: string)
    ensures Clean(c) && ';' !in part ==> Clean(ApplyAttr(c, part))
  {
    var attr := TrimSpace(part);
    if ';' !in part && attr != "" {
      AttrValueClean(part);
      var kv := CutAt(attr, '=');
      ChooseClean(c, ToLower(TrimSpace(kv.before)), kv);
    }
  }

  lemma ChooseClean(c: Cookie, key: string, kv: Cut)
    requires IsTrimmed(TrimSpace(kv.after)) && ';' !in TrimSpace(kv.after)
    ensures Clean(c) ==> Clean(Choose(c, key, kv))
  {
  }

  /** `i` is the last segment of `parts` that assigns `key`. */
  ghost predicate LastAssignment(parts: seq<string>, key: string, i: int) {
    && 0 <= i < |parts|
    && Assigns(parts[i], key)
    && forall j :: i < j < |parts| ==> !Assigns(parts[j], key)
  }

  /**
    A value field after the attributes `parts`, starting from `init`: the value of
    the last segment that assigns `key`, or `init` if none does.
   */
  ghost predicate SetsField(parts: seq<string>, key: string, init: string, result: string) {
    && ((forall i :: 0 <= i < |parts| ==> !Assigns(parts[i], key)) ==> result == init)
    && (forall i :: LastAssignment(parts, key, i) ==> result == AttrValue(parts[i]))
  }

  /** A flag after the attributes `parts`: raised iff it started raised or some segment names `key`. */
  ghost predicate RaisesFlag(parts: seq<string>, key: string, init: bool, result: bool) {
    result <==> init || exists i :: 0 <= i < |parts| && Names(parts[i], key)
  }

  lemma SetsFieldStep(parts: seq<string>, key: string, init: string, mid: string, result: string)
    requires |parts| > 0
    requires SetsField(parts[..|parts| - 1], key, init, mid)
    requires result == if Assigns(parts[|parts| - 1], key) then AttrValue(parts[|parts| - 1]) else mid
    ensures SetsField(parts, key, init, result)
  {
    var n := |parts| - 1;
    var front := parts[..n];
    if Assigns(parts[n], key) {
      forall i | LastAssignment(parts, key, i)
        ensures i == n
      {
      }
    } else {
      forall i | LastAssignment(parts, key, i)
        ensures LastAssignment(front, key, i)
      {
        assert i != n;
      }
      if forall i :: 0 <= i < |parts| ==> !Assigns(parts[i], key) {
        assert forall i :: 0 <= i < n ==> !Assigns(front[i], key);
      }
    }
  }

  /** Some element of `parts` satisfies `f` iff one of its front does or its last one does. */
  lemma ExistsStep(parts: seq<string>, front: seq<string>, f: string -> bool)
    requires |parts| > 0 && front == parts[..|parts| - 1]
    ensures (exists i :: 0 <= i < |parts| && f(parts[i])) <==>
      (exists i :: 0 <= i < |front| && f(front[i])) || f(parts[|parts| - 1])
  {
    if exists i :: 0 <= i < |parts| && f(parts[i]) {
      var i :| 0 <= i < |parts| && f(parts[i]);
      if i < |front| {
        assert f(front[i]);
      }
    }
    if exists i :: 0 <= i < |front| && f(front[i]) {
      var i :| 0 <= i < |front| && f(front[i]);
      assert f(parts[i]);
    }
  }

  lemma RaisesFlagStep(parts: seq<string>, key: string, init: bool, mid: bool, result: bool)
    requires |parts| > 0
    requires RaisesFlag(parts[..|parts| - 1], key, init, mid)
    requires result == (mid || Names(parts[|parts| - 1], key))
    ensures RaisesFlag(parts, key, init, result)
  {
    ExistsStep(parts, parts[..|parts| - 1], p => Names(p, key));
  }

  /** The attribute loop: applies the segments `parts` in order to `c`. */
  function ApplyAttrs(c: Cookie, parts: seq<string>): (r: Cookie)
    ensures r.name == c.name && r.value == c.value
  {
    if parts == [] then c else ApplyAttr(ApplyAttrs(c, parts[..|parts| - 1]), parts[|parts| - 1])
  }

  /** Domain and Path come from the last segment that assigns them, or keep their initial value. */
  lemma {:induction false} ApplyAttrsSets(c: Cookie, parts: seq<string>)
    ensures SetsField(parts, "domain", c.domain, ApplyAttrs(c, parts).domain)
    ensures SetsField(parts, "path", c.path, ApplyAttrs(c, parts).path)
  {
    if parts != [] {
      var n := |parts| - 1;
      var mid := ApplyAttrs(c, parts[..n]);
      ApplyAttrsSets(c, parts[..n]);
      ApplyAttrValue(mid, parts[n]);
      SetsFieldStep(parts, "domain", c.domain, mid.domain, ApplyAttrs(c, parts).domain);
      SetsFieldStep(parts, "path", c.path, mid.path, ApplyAttrs(c, parts).path);
    }
  }

  /** Secure and HttpOnly are raised iff they start raised or some segment names them. */
  lemma {:induction false} ApplyAttrsRaises(c: Cookie, parts: seq<string>)
    ensures RaisesFlag(parts, "secure", c.secure, ApplyAttrs(c, parts).secure)
    ensures RaisesFlag(parts, "httponly", c.httpOnly, ApplyAttrs(c, parts).httpOnly)
  {
    if parts != [] {
      var n := |parts| - 1;
      var mid := ApplyAttrs(c, parts[..n]);
      ApplyAttrsRaises(c, parts[..n]);
      ApplyAttrFlag(mid, parts[n]);
      RaisesFlagStep(parts, "secure", c.secure, mid.secure, ApplyAttrs(c, parts).secure);
      RaisesFlagStep(parts, "httponly", c.httpOnly, mid.httpOnly, ApplyAttrs(c, parts).httpOnly);
    }
  }

  /** Segments free of `;` keep every text field trimmed and free of `;`. */
  lemma {:induction false} ApplyAttrsClean(c: Cookie, parts: seq<string>)
    requires Clean(c)
    requires forall i :: 0 <= i < |parts| ==> ';' !in parts[i]
    ensures Clean(ApplyAttrs(c, parts))
  {
    if parts != [] {
      var n := |parts| - 1;
      ApplyAttrsClean(c, parts[..n]);
      ApplyAttrClean(ApplyAttrs(c, parts[..n]), parts[n]);
    }
  }

  /** Applying two runs of segments is applying the first, then the second. */
  lemma {:induction false} ApplyAttrsAppend(c: Cookie, a: seq<string>, b: seq<string>)
    ensures ApplyAttrs(c, a + b) == ApplyAttrs(ApplyAttrs(c, a), b)
  {
    if b == [] {
      assert a + b == a;
    } else {
      var n := |b| - 1;
      assert (a + b)[..|a + b| - 1] == a + b[..n];
      assert (a + b)[|a + b| - 1] == b[n];
      ApplyAttrsAppend(c, a, b[..n]);
    }
  }

  /** Segments that name none of the four attributes leave the cookie unchanged. */
  lemma {:induction false} UnknownAttributesIgnored(c: Cookie, parts: seq<string>)
    requires forall i :: 0 <= i < |parts| ==>
      !Names(parts[i], "domain") && !Names(parts[i], "path")
      && !Names(parts[i], "secure") && !Names(parts[i], "httponly")
    ensures ApplyAttrs(c, parts) == c
  {
    if parts != [] {
      var n := |parts| - 1;
      assert forall i :: 0 <= i < n ==> parts[..n][i] == parts[i];
      UnknownAttributesIgnored(c, parts[..n]);
      ApplyAttrFlag(c, parts[n]);
      ApplyAttrValue(c, parts[n]);
    }
  }

  /** One `Set-Cookie` line: nothing unless the first segment contains `=`. */
  function LineCookie(line: string): (r: Option<Cookie>)
    ensures r.Some? <==> HasPair(line)
    ensures r.Some? ==> FitsSetCookieLine(r.value)
  {
    var parts := Split(line, ';');
    var kv := CutAt(TrimSpace(parts[0]), '=');
    SplitHeadIsCut(line, ';');
    TrimKeeps(parts[0], '=');
    if !kv.found then None
    else
      var name, value := TrimSpace(kv.before), TrimSpace(kv.after);
      TrimKeeps(kv.before, '=');
      TrimKeeps(parts[0], ';');
      TrimKeeps(kv.before, ';');
      TrimKeeps(kv.after, ';');
      TrimmedIsFixed([]);
      ApplyAttrsClean(Plain(name, value), parts[1..]);
      Some(ApplyAttrs(Plain(name, value), parts[1..]))
  }

  /** The cookies of several `Set-Cookie` lines, in line order. */
  function LinesCookies(lines: seq<string>): (r: Cookies)
    ensures |r| <= |lines|
    ensures forall i :: 0 <= i < |r| ==> FitsSetCookieLine(r[i])
  {
    if lines == [] then []
    else
      OptionToSeq(LineCookie(lines[0])) + LinesCookies(lines[1..])
  }

  /** `readSetCookies`: the cookies of the `Set-Cookie` lines of a header map. */
  function ReadSetCookies(h: Header): (r: Cookies)
    ensures Lines(h, "Set-Cookie") == [] ==> r == []
    ensures |r| == CountPaired(Lines(h, "Set-Cookie"))
    ensures forall i :: 0 <= i < |r| ==> FitsSetCookieLine(r[i])
    ensures r == LinesCookies(Lines(h, "Set-Cookie"))
  {
    LinesCookiesCount(Lines(h, "Set-Cookie"));
    var lines := Lines(h, "Set-Cookie");
    if |lines| == 0 then [] else LinesCookies(lines)
  }

  /** Parsing several lines is parsing each of them and concatenating, in line order. */
  lemma {:induction false} LinesAppend(a: seq<string>, b: seq<string>)
    ensures LinesCookies(a + b) == LinesCookies(a) + LinesCookies(b)
  {
    if a == [] {
      assert a + b == b;
    } else {
      assert (a + b)[1..] == a[1..] + b;
      LinesAppend(a[1..], b);
    }
  }

  /** A line whose text before its first `;` contains `=`: the lines that give a cookie. */
  predicate HasPair(line: string) {
    '=' in CutAt(line, ';').before
  }

  /** The number of lines that give a cookie. */
  function CountPaired(lines: seq<string>): (n: nat)
    ensures n <= |lines|
  {
    if lines == [] then 0 else (if HasPair(lines[0]) then 1 else 0) + CountPaired(lines[1..])
  }

  /** One cookie per line that has a pair, and none for the others. */
  lemma {:induction false} LinesCookiesCount(lines: seq<string>)
    ensures |LinesCookies(lines)| == CountPaired(lines)
  {
    if lines != [] {
      LinesCookiesCount(lines[1..]);
      assert |OptionToSeq(LineCookie(lines[0]))| == if HasPair(lines[0]) then 1 else 0;
    }
  }

  /** All lines are counted iff every one has a pair. */
  lemma {:induction false} CountPairedAll(lines: seq<string>)
    ensures CountPaired(lines) == |lines| <==> forall i :: 0 <= i < |lines| ==> HasPair(lines[i])
  {
    if lines != [] {
      var rest := lines[1..];
      CountPairedAll(rest);
      assert forall i :: 1 <= i < |lines| ==> lines[i] == rest[i - 1];
    }
  }

  /** Every line gives a cookie iff the text before each line's first `;` contains `=`. */
  lemma EveryLineKept(lines: seq<string>)
    ensures |LinesCookies(lines)| == |lines| <==> forall i :: 0 <= i < |lines| ==> HasPair(lines[i])
  {
    LinesCookiesCount(lines);
    CountPairedAll(lines);
  }

  /** The `Set-Cookie` line a server writes for `c`, attributes in the order Domain, Path, Secure, HttpOnly. */
  function AttrPieces(c: Cookie): seq<string> {
    (if c.domain != "" then [ValuedAttr("Domain", c.domain)] else [])
    + (if c.path != "" then [ValuedAttr("Path", c.path)] else [])
    + (if c.secure then [FlagAttr("Secure")] else [])
    + (if c.httpOnly then [FlagAttr("HttpOnly")] else [])
  }

  function Format(c: Cookie): string {
    Join([c.name + "=" + c.value] + AttrPieces(c), ';')
  }

  /** The cookies a `Set-Cookie` line can describe: clean fields and no `=` in the name. */
  predicate FitsSetCookieLine(c: Cookie) {
    Clean(c) && '=' !in c.name
  }

  /** Lower-casing a word whose only upper-case letter is its first gives the all-lower-case word. */
  lemma LowerCapitalised(s: string, w: string)
    requires |s| == |w| > 0 && IsLowerWord(w)
    requires IsUpper(s[0]) && s[0] as int + 32 == w[0] as int && s[1..] == w[1..]
    ensures ToLower(s) == w
  {
    LowerMatches(s, w);
    forall i | 0 <= i < |s|
      ensures FoldEq(s[i], w[i])
    {
      if i > 0 {
        assert s[i] == s[1..][i - 1];
      }
    }
  }

  lemma LowerDomain()
    ensures ToLower("Domain") == "domain"
  {
    KeyWordsLower();
    LowerCapitalised("Domain", "domain");
  }

  lemma LowerPath()
    ensures ToLower("Path") == "path"
  {
    KeyWordsLower();
    LowerCapitalised("Path", "path");
  }

  lemma LowerSecure()
    ensures ToLower("Secure") == "secure"
  {
    KeyWordsLower();
    LowerCapitalised("Secure", "secure");
  }

  lemma LowerHttpOnly()
    ensures ToLower("HttpOnly") == "httponly"
  {
    assert IsLowerWord("http") && IsLowerWord("only");
    LowerCapitalised("Http", "http");
    LowerCapitalised("Only", "only");
    LowerAppend("Http", "Only");
    assert "Http" + "Only" == "HttpOnly";
    assert "http" + "only" == "httponly";
  }

  /** A single segment applied on its own. */
  lemma ApplyOne(c: Cookie, p: string)
    ensures ApplyAttrs(c, [p]) == ApplyAttr(c, p)
  {
    assert [p][..0] == [];
  }

  /** The attribute segment `<space>key=v` a server writes. */
  function ValuedAttr(key: string, v: string): string {
    " " + key + "=" + v
  }

  /** The attribute segment `<space>word` a server writes for a flag. */
  function FlagAttr(word: string): string {
    " " + word
  }

  /** A word that can stand as an attribute key: non-empty, trimmed, without `=`. */
  predicate IsKeyWord(key: string) {
    key != [] && IsTrimmed(key) && '=' !in key
  }

  /** `ApplyAttr` on a non-empty segment, given its cut and its switch key. */
  lemma ApplyAttrBy(c: Cookie, part: string, kv: Cut, key: string)
    requires TrimSpace(part) != ""
    requires kv == CutAt(TrimSpace(part), '=') && key == ToLower(TrimSpace(kv.before))
    ensures ApplyAttr(c, part) == Choose(c, key, kv)
  {
  }

  /** A written `key=v` segment is switched on the lower-cased key and carries `v`. */
  lemma ApplyValued(c: Cookie, key: string, v: string)
    requires IsKeyWord(key) && IsTrimmed(v) && v != []
    ensures ApplyAttr(c, ValuedAttr(key, v)) == Choose(c, ToLower(key), Cut(key, v, true))
  {
    var t := key + "=" + v;
    assert t[0] == key[0] && t[|t| - 1] == v[|v| - 1];
    assert " " + t + [] == ValuedAttr(key, v);
    TrimSpaceOf(" ", t, []);
    CutOf(key, '=', v);
    TrimmedIsFixed(key);
    ApplyAttrBy(c, ValuedAttr(key, v), Cut(key, v, true), ToLower(key));
  }

  /** A written flag segment is switched on the lower-cased word and carries no value. */
  lemma ApplyFlag(c: Cookie, word: string)
    requires IsKeyWord(word)
    ensures ApplyAttr(c, FlagAttr(word)) == Choose(c, ToLower(word), Cut(word, [], false))
  {
    assert " " + word + [] == FlagAttr(word);
    TrimSpaceOf(" ", word, []);
    TrimmedIsFixed(word);
    ApplyAttrBy(c, FlagAttr(word), Cut(word, [], false), ToLower(word));
  }

  lemma DomainPiece(c: Cookie, d: string)
    requires IsTrimmed(d) && d != []
    ensures ApplyAttr(c, ValuedAttr("Domain", d)) == c.(domain := d)
  {
    assert IsKeyWord("Domain");
    ApplyValued(c, "Domain", d);
    LowerDomain();
    TrimmedIsFixed(d);
  }

  lemma PathPiece(c: Cookie, p: string)
    requires IsTrimmed(p) && p != []
    ensures ApplyAttr(c, ValuedAttr("Path", p)) == c.(path := p)
  {
    assert IsKeyWord("Path");
    ApplyValued(c, "Path", p);
    LowerPath();
    TrimmedIsFixed(p);
  }

  lemma FlagWords()
    ensures IsKeyWord("Secure") && IsKeyWord("HttpOnly")
  {
  }

  lemma SecurePiece(c: Cookie)
    ensures ApplyAttr(c, FlagAttr("Secure")) == c.(secure := true)
  {
    FlagWords();
    ApplyFlag(c, "Secure");
    LowerSecure();
    assert Choose(c, "secure", Cut("Secure", [], false)) == c.(secure := true);
  }

  lemma HttpOnlyPiece(c: Cookie)
    ensures ApplyAttr(c, FlagAttr("HttpOnly")) == c.(httpOnly := true)
  {
    FlagWords();
    ApplyFlag(c, "HttpOnly");
    LowerHttpOnly();
    assert Choose(c, "httponly", Cut("HttpOnly", [], false)) == c.(httpOnly := true);
  }

  /** The written attribute segments, applied to the bare name/value cookie, rebuild the cookie. */
  lemma AttrPiecesApply(c: Cookie)
    requires Clean(c)
    ensures ApplyAttrs(Plain(c.name, c.value), AttrPieces(c)) == c
  {
    var d := if c.domain != "" then [ValuedAttr("Domain", c.domain)] else [];
    var p := if c.path != "" then [ValuedAttr("Path", c.path)] else [];
    var s := if c.secure then [FlagAttr("Secure")] else [];
    var h := if c.httpOnly then [FlagAttr("HttpOnly")] else [];
    var x0 := Plain(c.name, c.value);
    var x1 := x0.(domain := c.domain);
    var x2 := x1.(path := c.path);
    var x3 := x2.(secure := c.secure);
    if d != [] {
      ApplyOne(x0, d[0]);
      DomainPiece(x0, c.domain);
    }
    assert ApplyAttrs(x0, d) == x1;
    if p != [] {
      ApplyOne(x1, p[0]);
      PathPiece(x1, c.path);
    }
    assert ApplyAttrs(x1, p) == x2;
    if s != [] {
      ApplyOne(x2, s[0]);
      SecurePiece(x2);
    }
    assert ApplyAttrs(x2, s) == x3;
    if h != [] {
      ApplyOne(x3, h[0]);
      HttpOnlyPiece(x3);
    }
    assert ApplyAttrs(x3, h) == c;
    ApplyAttrsAppend(x0, d, p);
    ApplyAttrsAppend(x0, d + p, s);
    ApplyAttrsAppend(x0, d + p + s, h);
  }

  /** No written segment contains `;`. */
  lemma PiecesSeparable(c: Cookie)
    requires Clean(c)
    ensures forall i :: 0 <= i < |AttrPieces(c)| ==> ';' !in AttrPieces(c)[i]
    ensures ';' !in c.name + "=" + c.value
  {
    assert ';' !in ValuedAttr("Domain", c.domain);
    assert ';' !in ValuedAttr("Path", c.path);
    assert ';' !in FlagAttr("Secure") && ';' !in FlagAttr("HttpOnly");
  }

  /** The `name=value` segment of a written line is trimmed. */
  lemma PairTrimmed(c: Cookie)
    requires FitsSetCookieLine(c)
    ensures IsTrimmed(c.name + "=" + c.value)
  {
    var t := c.name + "=" + c.value;
    assert t[0] == if c.name == [] then '=' else c.name[0];
    assert t[|t| - 1] == if c.value == [] then '=' else c.value[|c.value| - 1];
  }

  /** Round trip: reading back the `Set-Cookie` line written for a cookie gives that cookie. */
  lemma RoundTrip(c: Cookie)
    requires FitsSetCookieLine(c)
    ensures LineCookie(Format(c)) == Some(c)
  {
    var pair := c.name + "=" + c.value;
    var pieces := [pair] + AttrPieces(c);
    PiecesSeparable(c);
    assert forall i :: 0 <= i < |pieces| ==> ';' !in pieces[i];
    SplitJoin(pieces, ';');
    PairTrimmed(c);
    TrimmedIsFixed(pair);
    CutOf(c.name, '=', c.value);
    TrimmedIsFixed(c.name);
    TrimmedIsFixed(c.value);
    assert pieces[1..] == AttrPieces(c);
    AttrPiecesApply(c);
  }

  /** A segment without `=`, such as a bare `Domain`, never changes Domain or Path. */
  lemma BareSegmentKeepsValues(c: Cookie, part: string)
    requires '=' !in part
    ensures ApplyAttr(c, part).domain == c.domain && ApplyAttr(c, part).path == c.path
  {
    ApplyAttrValue(c, part);
  }

  /** The segments of the full example, glued with `;`. */
  lemma FullLineText()
    ensures Join(["sid=abc123", " Domain=example.com", " Path=/", " Secure", " HttpOnly"], ';')
      == "sid=abc123; Domain=example.com; Path=/; Secure; HttpOnly"
  {
    var p := ["sid=abc123", " Domain=example.com", " Path=/", " Secure", " HttpOnly"];
    var front := ["sid=abc123", " Domain=example.com", " Path=/"];
    FullLineFront();
    assert p == front + [" Secure"] + [" HttpOnly"];
    JoinSnoc(front, " Secure", ';');
    assert "sid=abc123; Domain=example.com; Path=/" + [';'] + " Secure"
      == "sid=abc123; Domain=example.com; Path=/; Secure";
    JoinSnoc(front + [" Secure"], " HttpOnly", ';');
    assert "sid=abc123; Domain=example.com; Path=/; Secure" + [';'] + " HttpOnly"
      == "sid=abc123; Domain=example.com; Path=/; Secure; HttpOnly";
  }

  lemma FullLineFront()
    ensures Join(["sid=abc123", " Domain=example.com", " Path=/"], ';') == "sid=abc123; Domain=example.com; Path=/"
  {
    var p := ["sid=abc123", " Domain=example.com", " Path=/"];
    assert p == [p[0]] + [p[1]] + [p[2]];
    JoinSnoc([p[0]], p[1], ';');
    assert p[0] + [';'] + p[1] == "sid=abc123; Domain=example.com";
    JoinSnoc([p[0]] + [p[1]], p[2], ';');
    assert "sid=abc123; Domain=example.com" + [';'] + p[2] == "sid=abc123; Domain=example.com; Path=/";
  }

  /** `sid=abc123; Domain=example.com; Path=/; Secure; HttpOnly` gives the fully populated cookie. */
  lemma FullLineExample()
    ensures LineCookie("sid=abc123; Domain=example.com; Path=/; Secure; HttpOnly")
      == Some(Cookie("sid", "abc123", "example.com", "/", true, true))
  {
    var c := Cookie("sid", "abc123", "example.com", "/", true, true);
    assert IsTrimmed(c.name) && IsTrimmed(c.value) && IsTrimmed(c.domain) && IsTrimmed(c.path);
    assert ';' !in c.name && ';' !in c.value && ';' !in c.domain && ';' !in c.path && '=' !in c.name;
    FullLineSegments(c);
    FullLineText();
    RoundTrip(c);
  }

  lemma FullLineSegments(c: Cookie)
    requires c == Cookie("sid", "abc123", "example.com", "/", true, true)
    ensures [c.name + "=" + c.value] + AttrPieces(c)
      == ["sid=abc123", " Domain=example.com", " Path=/", " Secure", " HttpOnly"]
  {
    var d, p := ValuedAttr("Domain", c.domain), ValuedAttr("Path", c.path);
    assert AttrPieces(c) == [d] + [p] + [FlagAttr("Secure")] + [FlagAttr("HttpOnly")];
    assert c.name + "=" + c.value == "sid=abc123";
    assert d == " Domain=example.com";
    assert p == " Path=/";
    assert FlagAttr("Secure") == " Secure" && FlagAttr("HttpOnly") == " HttpOnly";
  }

  /**
    The name and value of a line's cookie: the first segment, trimmed, is cut at
    its first `=`, and both sides are trimmed; later `=` signs stay in the value.
   */
  lemma LinePair(line: string, n: string, v: string)
    requires '=' !in n && TrimSpace(CutAt(line, ';').before) == n + "=" + v
    ensures LineCookie(line).Some?
    ensures LineCookie(line).value.name == TrimSpace(n) && LineCookie(line).value.value == TrimSpace(v)
  {
    SplitHeadIsCut(line, ';');
    CutOf(n, '=', v);
  }

  /** A line whose first segment has no `=` gives nothing, whatever attributes follow. */
  lemma FirstSegmentWithoutPair(first: string, rest: string)
    requires ';' !in first && '=' !in first
    ensures LineCookie(first + [';'] + rest) == None
  {
    CutOf(first, ';', rest);
  }

  /** `noequals; Secure` gives nothing: its first segment has no `=`. */
  lemma NoEqualsExample()
    ensures LineCookie("noequals; Secure") == None
  {
    assert "noequals" + [';'] + " Secure" == "noequals; Secure";
    assert '=' !in "noequals";
    FirstSegmentWithoutPair("noequals", " Secure");
  }

  /** `=v` gives a cookie with an empty name: names are not required to be non-empty. */
  lemma EmptyNameExample()
    ensures LineCookie("=v") == Some(Plain("", "v"))
  {
    var c := Plain("", "v");
    assert IsTrimmed(c.value) && ';' !in c.value;
    assert Format(c) == "=v";
    RoundTrip(c);
  }

  /**
    For a line that gives a cookie: Domain and Path come from the last segment after the
    first that assigns them (else stay empty), and Secure and HttpOnly are raised iff some
    segment after the first names them.
   */
  lemma LineAttributes(line: string)
    requires LineCookie(line).Some?
    ensures var attrs := Split(line, ';')[1..];
      var c := LineCookie(line).value;
      && SetsField(attrs, "domain", "", c.domain)
      && SetsField(attrs, "path", "", c.path)
      && RaisesFlag(attrs, "secure", false, c.secure)
      && RaisesFlag(attrs, "httponly", false, c.httpOnly)
  {
    var parts := Split(line, ';');
    var kv := CutAt(TrimSpace(parts[0]), '=');
    var start := Plain(TrimSpace(kv.before), TrimSpace(kv.after));
    assert LineCookie(line).value == ApplyAttrs(start, parts[1..]);
    ApplyAttrsSets(start, parts[1..]);
    ApplyAttrsRaises(start, parts[1..]);
  }

  /** A single line parses to its own cookies. */
  lemma OneLine(line: string)
    ensures LinesCookies([line]) == OptionToSeq(LineCookie(line))
  {
    assert [line][1..] == [];
  }
}
