/**
  The request-direction parser (`readCookies`): every `Cookie` line is split on
  `;`, and every segment with a non-empty name becomes a name/value cookie.
  A segment without `=` is kept as a cookie with an empty value.
 */
module Request {
  import opened Text
  import opened Model

  /** What every cookie produced from a `Cookie` line looks like. */
  predicate IsRequestCookie(c: Cookie) {
    && c.name != ""
    && IsTrimmed(c.name)
    && '=' !in c.name
    && IsTrimmed(c.value)
    && IsPlain(c)
  }

  /** One `;`-separated segment: trimmed, cut at its first `=`, kept only when the name is non-empty. */
  function SegmentCookie(part: string): (r: Option<Cookie>)
    ensures r.Some? ==> IsRequestCookie(r.value)
  {
    var p := TrimSpace(part);
    if p == "" then None
    else
      var kv := CutAt(p, '=');
      var name := TrimSpace(kv.before);
      TrimKeeps(kv.before, '=');
      if name != "" then Some(Plain(name, TrimSpace(kv.after))) else None
  }

  function SegmentsCookies(parts: seq<string>): (r: Cookies)
    ensures |r| <= |parts|
    ensures forall i :: 0 <= i < |r| ==> IsRequestCookie(r[i])
  {
    if parts == [] then []
    else
      var head := OptionToSeq(SegmentCookie(parts[0]));
      var rest := SegmentsCookies(parts[1..]);
      assert forall i :: 0 <= i < |head| ==> IsRequestCookie(head[i]);
      head + rest
  }

  /** The cookies of one `Cookie` line. */
  function LineCookies(line: string): (r: Cookies)
    ensures forall i :: 0 <= i < |r| ==> IsRequestCookie(r[i])
  {
    SegmentsCookies(Split(TrimSpace(line), ';'))
  }

  /** The cookies of several `Cookie` lines, in line order. */
  function LinesCookies(lines: seq<string>): (r: Cookies)
    ensures forall i :: 0 <= i < |r| ==> IsRequestCookie(r[i])
  {
    if lines == [] then [] else LineCookies(lines[0]) + LinesCookies(lines[1..])
  }

  /** `readCookies`: the cookies of the `Cookie` lines of a header map. */
  function ReadCookies(h: Header): (r: Cookies)
    ensures Lines(h, "Cookie") == [] ==> r == []
    ensures forall i :: 0 <= i < |r| ==> IsRequestCookie(r[i])
    ensures r == LinesCookies(Lines(h, "Cookie"))
  {
    var lines := Lines(h, "Cookie");
    if |lines| == 0 then [] else LinesCookies(lines)
  }

  /** A segment without `=` is a cookie with an empty value, named by the whole trimmed segment. */
  lemma EqualsLessSegment(part: string)
    requires TrimSpace(part) != "" && '=' !in TrimSpace(part)
    ensures SegmentCookie(part) == Some(Plain(TrimSpace(part), ""))
  {
    var p := TrimSpace(part);
    TrimmedIsFixed(p);
    TrimmedIsFixed([]);
    assert CutAt(p, '=') == Cut(p, [], false);
  }

  /** A segment is split at its FIRST `=`: later `=` signs stay in the value. */
  lemma FirstEqualsSplits(part: string, name: string, value: string)
    requires '=' !in name
    requires TrimSpace(part) == name + "=" + value
    ensures SegmentCookie(part) ==
      if TrimSpace(name) == "" then None else Some(Plain(TrimSpace(name), TrimSpace(value)))
  {
    CutOf(name, '=', value);
  }

  /** Parsing several lines is parsing each of them and concatenating, in line order. */
  lemma {:induction false} LinesAppend(a: seq<string>, b: seq<string>)
    ensures LinesCookies(a + b) == LinesCookies(a) + LinesCookies(b)
  {
    if a == [] {
      assert a + b == b;
    } else {
      assert (a + b)[1..] == a[1..] + b;
      LinesAppend(a[1..], b);
    }
  }

  /** A cookie a client can put in a `Cookie` line and have read back unchanged. */
  predicate FitsCookieLine(c: Cookie) {
    IsRequestCookie(c) && ';' !in c.name && ';' !in c.value
  }

  function Pair(c: Cookie): string {
    c.name + "=" + c.value
  }

  /** The `;`-separated pieces of `n1=v1; n2=v2; ...`. */
  function Pieces(cs: Cookies): (r: seq<string>)
    requires |cs| > 0
    ensures |r| == |cs|
  {
    [Pair(cs[0])] + seq(|cs| - 1, i requires 0 <= i < |cs| - 1 => " " + Pair(cs[i + 1]))
  }

  /** A `Cookie` line as a client writes it: `n1=v1; n2=v2; ...`. */
  function FormatLine(cs: Cookies): string {
    if cs == [] then "" else Join(Pieces(cs), ';')
  }

  lemma PairShape(c: Cookie)
    requires FitsCookieLine(c)
    ensures Pair(c) != [] && IsTrimmed(Pair(c)) && ';' !in Pair(c)
  {
    var p := Pair(c);
    assert p[0] == c.name[0];
    assert p[|p| - 1] == if c.value == [] then '=' else c.value[|c.value| - 1];
  }

  lemma PairSegment(c: Cookie)
    requires FitsCookieLine(c)
    ensures SegmentCookie(Pair(c)) == Some(c)
    ensures SegmentCookie(" " + Pair(c)) == Some(c)
  {
    var p := Pair(c);
    PairShape(c);
    assert " " + p + [] == " " + p;
    TrimSpaceOf(" ", p, []);
    TrimmedIsFixed(p);
    TrimmedIsFixed(c.name);
    TrimmedIsFixed(c.value);
    FirstEqualsSplits(p, c.name, c.value);
    FirstEqualsSplits(" " + p, c.name, c.value);
  }

  lemma PiecesAt(cs: Cookies, i: int)
    requires 0 <= i < |cs|
    ensures Pieces(cs)[i] == if i == 0 then Pair(cs[0]) else " " + Pair(cs[i])
  {
  }

  /** Segments that each give a cookie give exactly those cookies, in order. */
  lemma {:induction false} SegmentsOfPairs(parts: seq<string>, cs: Cookies)
    requires |parts| == |cs|
    requires forall i :: 0 <= i < |cs| ==> SegmentCookie(parts[i]) == Some(cs[i])
    ensures SegmentsCookies(parts) == cs
  {
    if parts != [] {
      SegmentsOfPairs(parts[1..], cs[1..]);
    }
  }

  /** Every piece of a written line ends where its pair ends. */
  lemma PieceEnd(cs: Cookies, i: int)
    requires 0 <= i < |cs| && FitsCookieLine(cs[i])
    ensures var piece := Pieces(cs)[i];
      var pair := Pair(cs[i]);
      piece != [] && !IsSpace(piece[|piece| - 1])
  {
    PiecesAt(cs, i);
    PairShape(cs[i]);
    var pair := Pair(cs[i]);
    var piece := Pieces(cs)[i];
    assert piece[|piece| - 1] == pair[|pair| - 1];
  }

  /** A written line is already trimmed. */
  lemma FormattedIsTrimmed(cs: Cookies)
    requires |cs| > 0
    requires FitsCookieLine(cs[0]) && FitsCookieLine(cs[|cs| - 1])
    ensures IsTrimmed(FormatLine(cs))
  {
    var parts := Pieces(cs);
    PairShape(cs[0]);
    PiecesAt(cs, 0);
    PieceEnd(cs, |cs| - 1);
    JoinTrimmed(parts, ';');
  }

  /** Splitting a written line recovers its pieces. */
  lemma SplitFormatted(cs: Cookies)
    requires |cs| > 0
    requires forall i :: 0 <= i < |cs| ==> FitsCookieLine(cs[i])
    ensures Split(TrimSpace(FormatLine(cs)), ';') == Pieces(cs)
  {
    forall i | 0 <= i < |cs|
      ensures ';' !in Pieces(cs)[i]
    {
      PiecesAt(cs, i);
      PairShape(cs[i]);
    }
    FormattedIsTrimmed(cs);
    TrimmedIsFixed(FormatLine(cs));
    SplitJoin(Pieces(cs), ';');
  }

  /** Round trip: reading back a `Cookie` line written from well-formed cookies gives those cookies. */
  lemma RoundTrip(cs: Cookies)
    requires forall i :: 0 <= i < |cs| ==> FitsCookieLine(cs[i])
    ensures ReadCookies(map["Cookie" := [FormatLine(cs)]]) == cs
  {
    var line := FormatLine(cs);
    assert LinesCookies([line]) == LineCookies(line) + [];
    if cs == [] {
      TrimmedIsFixed([]);
    } else {
      forall i | 0 <= i < |cs|
        ensures SegmentCookie(Pieces(cs)[i]) == Some(cs[i])
      {
        PiecesAt(cs, i);
        PairSegment(cs[i]);
      }
      SplitFormatted(cs);
      SegmentsOfPairs(Pieces(cs), cs);
    }
  }

  lemma ExampleJoin()
    ensures Join(["a=1", " noequals", " x=y=z"], ';') == "a=1; noequals; x=y=z"
  {
  }

  lemma ExampleSplit()
    ensures Split(TrimSpace("a=1; noequals; x=y=z"), ';') == ["a=1", " noequals", " x=y=z"]
  {
    var parts := ["a=1", " noequals", " x=y=z"];
    ExampleJoin();
    TrimmedIsFixed("a=1; noequals; x=y=z");
    assert forall i :: 0 <= i < |parts| ==> ';' !in parts[i];
    SplitJoin(parts, ';');
  }

  lemma ExampleFirst()
    ensures SegmentCookie("a=1") == Some(Plain("a", "1"))
  {
    var t, n, v := "a=1", "a", "1";
    assert IsTrimmed(t) && IsTrimmed(n) && IsTrimmed(v) && '=' !in n;
    assert t == n + "=" + v;
    TrimmedIsFixed(t);
    TrimmedIsFixed(n);
    TrimmedIsFixed(v);
    FirstEqualsSplits(t, n, v);
  }

  lemma ExampleSecond()
    ensures SegmentCookie(" noequals") == Some(Plain("noequals", ""))
  {
    var t := "noequals";
    assert IsTrimmed(t) && '=' !in t && t != [];
    assert " " + t + [] == " noequals";
    TrimSpaceOf(" ", t, []);
    EqualsLessSegment(" noequals");
  }

  lemma ExampleThird()
    ensures SegmentCookie(" x=y=z") == Some(Plain("x", "y=z"))
  {
    var t, n, v := "x=y=z", "x", "y=z";
    assert IsTrimmed(t) && IsTrimmed(n) && IsTrimmed(v) && '=' !in n;
    assert " " + t + [] == " x=y=z";
    assert t == n + "=" + v;
    TrimSpaceOf(" ", t, []);
    TrimmedIsFixed(n);
    TrimmedIsFixed(v);
    FirstEqualsSplits(" x=y=z", n, v);
  }

  /** `a=1; noequals; x=y=z` reads as (a, 1), (noequals, ""), (x, y=z). */
  lemma MixedLineExample()
    ensures LineCookies("a=1; noequals; x=y=z")
      == [Plain("a", "1"), Plain("noequals", ""), Plain("x", "y=z")]
  {
    ExampleSplit();
    ExampleFirst();
    ExampleSecond();
    ExampleThird();
    LineOfThree("a=1; noequals; x=y=z", "a=1", " noequals", " x=y=z",
      Plain("a", "1"), Plain("noequals", ""), Plain("x", "y=z"));
  }

  /** A line of three segments, each giving one known cookie, gives exactly those cookies. */
  lemma LineOfThree(line: string, p0: string, p1: string, p2: string, c0: Cookie, c1: Cookie, c2: Cookie)
    requires Split(TrimSpace(line), ';') == [p0, p1, p2]
    requires SegmentCookie(p0) == Some(c0) && SegmentCookie(p1) == Some(c1) && SegmentCookie(p2) == Some(c2)
    ensures LineCookies(line) == [c0, c1, c2]
  {
    var parts, cs := [p0, p1, p2], [c0, c1, c2];
    forall i | 0 <= i < |parts|
      ensures SegmentCookie(parts[i]) == Some(cs[i])
    {
      if i == 0 {
        assert parts[i] == p0 && cs[i] == c0;
      } else if i == 1 {
        assert parts[i] == p1 && cs[i] == c1;
      } else {
        assert parts[i] == p2 && cs[i] == c2;
      }
    }
    SegmentsOfPairs(parts, cs);
  }

  /** A header map without a `Cookie` key (the lookup is exact: `cookie` does not count) yields nothing. */
  lemma NoCookieLines(h: Header)
    requires "Cookie" !in h || h["Cookie"] == []
    ensures ReadCookies(h) == []
  {
  }

  /** Every segment of a run gives a cookie iff every one has a non-empty name. */
  lemma {:induction false} EverySegmentKept(parts: seq<string>)
    ensures |SegmentsCookies(parts)| == |parts| <==>
      forall i :: 0 <= i < |parts| ==> NameOf(parts[i]) != ""
  {
    if parts != [] {
      var rest := parts[1..];
      EverySegmentKept(rest);
      assert SegmentCookie(parts[0]).Some? <==> NameOf(parts[0]) != "";
      assert |SegmentsCookies(rest)| <= |rest|;
      assert forall i :: 1 <= i < |parts| ==> parts[i] == rest[i - 1];
    }
  }

  /** The number of segments with a non-empty name. */
  function CountNamed(parts: seq<string>): (n: nat)
    ensures n <= |parts|
  {
    if parts == [] then 0 else (if NameOf(parts[0]) != "" then 1 else 0) + CountNamed(parts[1..])
  }

  /** One cookie per segment with a non-empty name, and none for the others. */
  lemma {:induction false} SegmentsCookiesCount(parts: seq<string>)
    ensures |SegmentsCookies(parts)| == CountNamed(parts)
  {
    if parts != [] {
      SegmentsCookiesCount(parts[1..]);
      assert SegmentCookie(parts[0]).Some? <==> NameOf(parts[0]) != "";
    }
  }

  /** The number of segments with a non-empty name over several `Cookie` lines. */
  function CountNamedInLines(lines: seq<string>): nat {
    if lines == [] then 0 else CountNamed(Split(TrimSpace(lines[0]), ';')) + CountNamedInLines(lines[1..])
  }

  /** Several lines give one cookie per named segment, across all of them. */
  lemma {:induction false} LinesCookiesCount(lines: seq<string>)
    ensures |LinesCookies(lines)| == CountNamedInLines(lines)
  {
    if lines != [] {
      LinesCookiesCount(lines[1..]);
      SegmentsCookiesCount(Split(TrimSpace(lines[0]), ';'));
    }
  }

  /** `=v` gives nothing in a `Cookie` line: an empty name is dropped. */
  lemma EmptyNameExample()
    ensures LineCookies("=v") == []
  {
    var line := "=v";
    assert IsTrimmed(line) && ';' !in line;
    TrimmedIsFixed(line);
    SplitNoSep(line, ';');
    assert [] + "=" + "v" == line;
    CutOf([], '=', "v");
    TrimmedIsFixed([]);
    assert SegmentCookie(line) == None;
  }

  /** A single line parses to its own cookies. */
  lemma OneLine(line: string)
    ensures LinesCookies([line]) == LineCookies(line)
  {
    assert [line][1..] == [];
  }
}
