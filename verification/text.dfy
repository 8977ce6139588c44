/**
  The handful of Go `strings` operations the cookie parsers use, restricted to
  ASCII: `TrimSpace`, `Split` on a one-character separator, `Cut` at the first
  occurrence of a character, and `ToLower`. Each is given a contract that
  characterises its result independently of how it is computed.
 */
module Text {

  /** ASCII white space: tab, line feed, vertical tab, form feed, carriage return, space. */
  predicate IsSpace(c: char) {
    c == ' ' || '\t' <= c <= '\r'
  }

  predicate AllSpace(s: string) {
    forall i :: 0 <= i < |s| ==> IsSpace(s[i])
  }

  /** Neither end of `s` is white space. */
  predicate IsTrimmed(s: string) {
    s == [] || (!IsSpace(s[0]) && !IsSpace(s[|s| - 1]))
  }

  /** Drops leading white space (see `TrimLeftOf` for what exactly is dropped). */
  function TrimLeft(s: string): (r: string)
    ensures |r| <= |s|
    ensures r == [] || !IsSpace(r[0])
  {
    if |s| > 0 && IsSpace(s[0]) then TrimLeft(s[1..]) else s
  }

  /** Drops trailing white space (see `TrimRightOf` for what exactly is dropped). */
  function TrimRight(s: string): (r: string)
    ensures |r| <= |s|
    ensures r != [] ==> r[0] == s[0]
    ensures r == [] || !IsSpace(r[|r| - 1])
  {
    if |s| > 0 && IsSpace(s[|s| - 1]) then TrimRight(s[..|s| - 1]) else s
  }

  /** Go's `strings.TrimSpace` on ASCII text. */
  function TrimSpace(s: string): (r: string)
    ensures IsTrimmed(r)
    ensures |r| <= |s|
  {
    TrimRight(TrimLeft(s))
  }

  lemma {:induction false} TrimLeftOf(lead: string, t: string)
    requires AllSpace(lead)
    requires t == [] || !IsSpace(t[0])
    ensures TrimLeft(lead + t) == t
  {
    if lead == [] {
      assert lead + t == t;
    } else {
      assert (lead + t)[1..] == lead[1..] + t;
      TrimLeftOf(lead[1..], t);
    }
  }

  lemma {:induction false} TrimRightOf(t: string, trail: string)
    requires AllSpace(trail)
    requires t == [] || !IsSpace(t[|t| - 1])
    ensures TrimRight(t + trail) == t
  {
    if trail == [] {
      assert t + trail == t;
    } else {
      var shorter := trail[..|trail| - 1];
      assert (t + trail)[..|t + trail| - 1] == t + shorter;
      TrimRightOf(t, shorter);
    }
  }

  /** TrimSpace is determined by its contract: stripping white space off a trimmed text gives it back. */
  lemma {:induction false} TrimSpaceOf(lead: string, t: string, trail: string)
    requires AllSpace(lead) && AllSpace(trail) && IsTrimmed(t)
    ensures TrimSpace(lead + t + trail) == t
  {
    if t == [] {
      assert lead + t + trail == lead + trail;
      TrimLeftOf(lead + trail, []);
      assert lead + trail + [] == lead + trail;
    } else {
      assert lead + t + trail == lead + (t + trail);
      TrimLeftOf(lead, t + trail);
      TrimRightOf(t, trail);
    }
  }

  lemma TrimmedIsFixed(t: string)
    requires IsTrimmed(t)
    ensures TrimSpace(t) == t
  {
    assert [] + t + [] == t;
    TrimSpaceOf([], t, []);
  }

  lemma {:induction false} TrimLeftKeeps(s: string, c: char)
    requires !IsSpace(c)
    ensures c in TrimLeft(s) <==> c in s
  {
    if |s| > 0 && IsSpace(s[0]) {
      TrimLeftKeeps(s[1..], c);
      assert s == [s[0]] + s[1..];
    }
  }

  lemma {:induction false} TrimRightKeeps(s: string, c: char)
    requires !IsSpace(c)
    ensures c in TrimRight(s) <==> c in s
  {
    if |s| > 0 && IsSpace(s[|s| - 1]) {
      TrimRightKeeps(s[..|s| - 1], c);
      assert s == s[..|s| - 1] + [s[|s| - 1]];
    }
  }

  /** Trimming removes only white space, so it keeps every other character. */
  lemma TrimKeeps(s: string, c: char)
    requires !IsSpace(c)
    ensures c in TrimSpace(s) <==> c in s
  {
    TrimLeftKeeps(s, c);
    TrimRightKeeps(TrimLeft(s), c);
  }

  /** The inverse of `Split`: the pieces glued back together with `sep` between them. */
  function Join(parts: seq<string>, sep: char): string
    requires |parts| > 0
  {
    if |parts| == 1 then parts[0] else parts[0] + [sep] + Join(parts[1..], sep)
  }

  /** Go's `strings.Split` with a one-character separator: always at least one piece. */
  function Split(s: string, sep: char): (r: seq<string>)
    ensures |r| > 0
    ensures forall i :: 0 <= i < |r| ==> sep !in r[i]
    ensures Join(r, sep) == s
  {
    if s == [] then [[]]
    else
      var rest := Split(s[1..], sep);
      if s[0] == sep then
        assert ([[]] + rest)[1..] == rest;
        [[]] + rest
      else
        var r := [[s[0]] + rest[0]] + rest[1..];
        assert r[1..] == rest[1..];
        assert s == [s[0]] + s[1..];
        r
  }

  lemma {:induction false} SplitNoSep(p: string, sep: char)
    requires sep !in p
    ensures Split(p, sep) == [p]
  {
    if p != [] {
      SplitNoSep(p[1..], sep);
    }
  }

  lemma {:induction false} SplitAtFirst(p: string, sep: char, rest: string)
    requires sep !in p
    ensures Split(p + [sep] + rest, sep) == [p] + Split(rest, sep)
  {
    if p == [] {
      assert p + [sep] + rest == [sep] + rest;
      assert ([sep] + rest)[1..] == rest;
    } else {
      var s := p + [sep] + rest;
      assert s[1..] == p[1..] + [sep] + rest;
      SplitAtFirst(p[1..], sep, rest);
      var tail := [p[1..]] + Split(rest, sep);
      assert tail[0] == p[1..] && tail[1..] == Split(rest, sep);
      assert [p[0]] + p[1..] == p;
    }
  }

  /** Splitting undoes joining whenever no piece contains the separator. */
  lemma {:induction false} SplitJoin(parts: seq<string>, sep: char)
    requires |parts| > 0
    requires forall i :: 0 <= i < |parts| ==> sep !in parts[i]
    ensures Split(Join(parts, sep), sep) == parts
  {
    if |parts| == 1 {
      SplitNoSep(parts[0], sep);
    } else {
      SplitJoin(parts[1..], sep);
      SplitAtFirst(parts[0], sep, Join(parts[1..], sep));
      assert parts == [parts[0]] + parts[1..];
    }
  }

  /** Joining one more piece appends the separator and that piece. */
  lemma {:induction false} JoinSnoc(parts: seq<string>, last: string, sep: char)
    requires |parts| > 0
    ensures Join(parts + [last], sep) == Join(parts, sep) + [sep] + last
  {
    if |parts| > 1 {
      assert (parts + [last])[1..] == parts[1..] + [last];
      JoinSnoc(parts[1..], last, sep);
    } else {
      assert (parts + [last])[1..] == [last];
    }
  }

  /** The first character of a join is the first character of its first piece. */
  lemma JoinHead(parts: seq<string>, sep: char)
    requires |parts| > 0 && parts[0] != []
    ensures Join(parts, sep) != [] && Join(parts, sep)[0] == parts[0][0]
  {
  }

  /** The last character of a join is the last character of its last piece. */
  lemma {:induction false} JoinLast(parts: seq<string>, sep: char)
    requires |parts| > 0 && parts[|parts| - 1] != []
    ensures var j := Join(parts, sep);
      var last := parts[|parts| - 1];
      j != [] && j[|j| - 1] == last[|last| - 1]
  {
    if |parts| > 1 {
      JoinLast(parts[1..], sep);
    }
  }

  /** A join is trimmed when its first piece starts, and its last piece ends, with non-space. */
  lemma JoinTrimmed(parts: seq<string>, sep: char)
    requires |parts| > 0 && parts[0] != [] && parts[|parts| - 1] != []
    requires !IsSpace(parts[0][0])
    requires !IsSpace(parts[|parts| - 1][|parts[|parts| - 1]| - 1])
    ensures IsTrimmed(Join(parts, sep))
  {
    JoinHead(parts, sep);
    JoinLast(parts, sep);
  }

  /** The result of Go's `strings.Cut`: text before and after the first separator, and whether there was one. */
  datatype Cut = Cut(before: string, after: string, found: bool)

  function CutAt(s: string, sep: char): (r: Cut)
    ensures r.found <==> sep in s
    ensures sep !in r.before
    ensures r.found ==> s == r.before + [sep] + r.after
    ensures !r.found ==> r.before == s && r.after == []
  {
    if s == [] then Cut([], [], false)
    else if s[0] == sep then Cut([], s[1..], true)
    else
      var c := CutAt(s[1..], sep);
      assert s == [s[0]] + s[1..];
      Cut([s[0]] + c.before, c.after, c.found)
  }

  /** Cutting a text at its first separator recovers the two sides. */
  lemma {:induction false} CutOf(before: string, sep: char, after: string)
    requires sep !in before
    ensures CutAt(before + [sep] + after, sep) == Cut(before, after, true)
  {
    var s := before + [sep] + after;
    if before == [] {
      assert s == [sep] + after;
    } else {
      assert s[0] == before[0] != sep;
      assert s[1..] == before[1..] + [sep] + after;
      CutOf(before[1..], sep, after);
      assert [before[0]] + before[1..] == before;
    }
  }

  /** The first piece of a split is the text before the first separator. */
  lemma {:induction false} SplitHeadIsCut(s: string, sep: char)
    ensures Split(s, sep)[0] == CutAt(s, sep).before
  {
    if s != [] && s[0] != sep {
      SplitHeadIsCut(s[1..], sep);
    }
  }

  /** The name a `;`-segment gives: the trimmed text before the first `=` of the trimmed segment. */
  function NameOf(part: string): string {
    TrimSpace(CutAt(TrimSpace(part), '=').before)
  }

  predicate IsUpper(c: char) {
    'A' <= c <= 'Z'
  }

  predicate IsLetter(c: char) {
    IsUpper(c) || 'a' <= c <= 'z'
  }

  /** ASCII case-insensitive equality of two characters. */
  predicate FoldEq(a: char, b: char) {
    a == b || (IsLetter(a) && IsLetter(b) && (a as int - b as int == 32 || b as int - a as int == 32))
  }

  /** ASCII case-insensitive equality of two texts. */
  predicate EqualFold(a: string, b: string) {
    |a| == |b| && forall i :: 0 <= i < |a| ==> FoldEq(a[i], b[i])
  }

  function LowerChar(c: char): char {
    if IsUpper(c) then (c as int + 32) as char else c
  }

  /** Go's `strings.ToLower` on ASCII text: each character is replaced by its lower-case form. */
  function ToLower(s: string): (r: string)
    ensures |r| == |s|
    ensures forall i :: 0 <= i < |s| ==> FoldEq(r[i], s[i]) && !IsUpper(r[i])
  {
    if s == [] then [] else [LowerChar(s[0])] + ToLower(s[1..])
  }

  lemma {:induction false} LowerAppend(a: string, b: string)
    ensures ToLower(a + b) == ToLower(a) + ToLower(b)
  {
    if a != [] {
      assert (a + b)[1..] == a[1..] + b;
      LowerAppend(a[1..], b);
    } else {
      assert a + b == b;
    }
  }

  /** Comparing the lower-cased text with a lower-case word is a case-insensitive comparison. */
  lemma LowerMatches(s: string, w: string)
    requires forall i :: 0 <= i < |w| ==> !IsUpper(w[i])
    ensures ToLower(s) == w <==> EqualFold(s, w)
  {
    var r := ToLower(s);
    if EqualFold(s, w) {
      forall i | 0 <= i < |s|
        ensures r[i] == w[i]
      {
        assert FoldEq(w[i], s[i]) && FoldEq(r[i], s[i]);
      }
    }
  }
}
