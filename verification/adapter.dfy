/**
  The map branches of `any2Cookies`: a `map[string]string` gives one cookie per
  entry, a `map[string][]string` one cookie per listed value. Go visits a map in
  an unspecified order, so that order is a parameter `order`: any duplicate-free
  listing of the keys. Every property is stated per key and so holds whatever
  order Go picks.
 */
module Adapter {
  import opened Model

  /** `order` lists every key of `keys` exactly once. */
  predicate IsEnumeration(order: seq<string>, keys: set<string>) {
    && (forall i, j :: 0 <= i < j < |order| ==> order[i] != order[j])
    && (forall k :: k in keys ==> k in order)
    && (forall i :: 0 <= i < |order| ==> order[i] in keys)
  }

  /** A duplicate-free listing of a key set is exactly as long as the set is large. */
  lemma {:induction false} EnumerationSize(order: seq<string>, keys: set<string>)
    requires IsEnumeration(order, keys)
    ensures |order| == |keys|
  {
    if order != [] {
      var rest := keys - {order[0]};
      forall k
        ensures k in rest <==> k in order[1..]
      {
        if k in order[1..] {
          var j :| 0 <= j < |order[1..]| && order[1..][j] == k;
          assert order[j + 1] == k;
        }
        if k in order && k != order[0] {
          var j :| 0 <= j < |order| && order[j] == k;
          assert order[1..][j - 1] == k;
        }
      }
      EnumerationSize(order[1..], rest);
    }
  }

  /** The `map[string]string` loop, visiting the keys in `order`. */
  function StrEntries(m: map<string, string>, order: seq<string>): (r: Cookies)
    requires forall i :: 0 <= i < |order| ==> order[i] in m
    ensures |r| == |order|
    ensures forall i :: 0 <= i < |r| ==> IsPlain(r[i]) && r[i].name in m
  {
    if order == [] then [] else [Plain(order[0], m[order[0]])] + StrEntries(m, order[1..])
  }

  /** The `map[string][]string` loop body for one key: one cookie per value, in list order. */
  function Expand(k: string, vs: seq<string>): (r: Cookies)
    ensures |r| == |vs|
    ensures forall i :: 0 <= i < |r| ==> r[i] == Plain(k, vs[i])
  {
    seq(|vs|, i requires 0 <= i < |vs| => Plain(k, vs[i]))
  }

  /** The `map[string][]string` loop, visiting the keys in `order`. */
  function ListEntries(m: map<string, seq<string>>, order: seq<string>): (r: Cookies)
    requires forall i :: 0 <= i < |order| ==> order[i] in m
    ensures forall i :: 0 <= i < |r| ==> IsPlain(r[i]) && r[i].name in m
  {
    if order == [] then []
    else
      var head := Expand(order[0], m[order[0]]);
      var rest := ListEntries(m, order[1..]);
      assert forall i :: 0 <= i < |head| ==> head[i].name == order[0];
      head + rest
  }

  /** `any2Cookies` on a `map[string]string`. */
  function FromStrMap(m: map<string, string>, order: seq<string>): (r: Cookies)
    requires IsEnumeration(order, m.Keys)
    ensures |r| == |m|
    ensures forall i :: 0 <= i < |r| ==> IsPlain(r[i]) && r[i].name in m
  {
    EnumerationSize(order, m.Keys);
    StrEntries(m, order)
  }

  /** `any2Cookies` on a `map[string][]string`. */
  function FromListMap(m: map<string, seq<string>>, order: seq<string>): (r: Cookies)
    requires IsEnumeration(order, m.Keys)
    ensures forall i :: 0 <= i < |r| ==> IsPlain(r[i]) && r[i].name in m
  {
    ListEntries(m, order)
  }

  /** The values listed for `name` by one key's cookies: all of them if the key is `name`, none otherwise. */
  lemma {:induction false} ExpandNamed(k: string, vs: seq<string>, name: string)
    ensures ValuesNamed(Expand(k, vs), name) == if k == name then vs else []
  {
    if vs != [] {
      var e := Expand(k, vs);
      assert e[1..] == Expand(k, vs[1..]);
      ExpandNamed(k, vs[1..], name);
      assert vs == [vs[0]] + vs[1..];
    }
  }

  lemma {:induction false} StrEntriesNamed(m: map<string, string>, order: seq<string>, name: string)
    requires forall i :: 0 <= i < |order| ==> order[i] in m
    requires forall i, j :: 0 <= i < j < |order| ==> order[i] != order[j]
    ensures ValuesNamed(StrEntries(m, order), name) == if name in order then [m[name]] else []
  {
    if order != [] {
      var rest := order[1..];
      assert forall i, j :: 0 <= i < j < |rest| ==> rest[i] == order[i + 1] && rest[j] == order[j + 1];
      StrEntriesNamed(m, rest, name);
      assert StrEntries(m, order)[1..] == StrEntries(m, rest);
      assert name in order <==> name == order[0] || name in rest;
      assert forall j :: 0 <= j < |rest| ==> rest[j] != order[0] by {
        assert forall j :: 0 <= j < |rest| ==> rest[j] == order[j + 1];
      }
    }
  }

  lemma {:induction false} ListEntriesNamed(m: map<string, seq<string>>, order: seq<string>, name: string)
    requires forall i :: 0 <= i < |order| ==> order[i] in m
    requires forall i, j :: 0 <= i < j < |order| ==> order[i] != order[j]
    ensures ValuesNamed(ListEntries(m, order), name) == if name in order then m[name] else []
  {
    if order != [] {
      var rest := order[1..];
      assert forall i, j :: 0 <= i < j < |rest| ==> rest[i] == order[i + 1] && rest[j] == order[j + 1];
      ListEntriesNamed(m, rest, name);
      ValuesNamedAppend(Expand(order[0], m[order[0]]), ListEntries(m, rest), name);
      ExpandNamed(order[0], m[order[0]], name);
      assert name in order <==> name == order[0] || name in rest;
      assert forall j :: 0 <= j < |rest| ==> rest[j] != order[0] by {
        assert forall j :: 0 <= j < |rest| ==> rest[j] == order[j + 1];
      }
    }
  }

  /** One cookie per entry: every key contributes exactly its value, and nothing else appears. */
  lemma StrMapPerKey(m: map<string, string>, order: seq<string>, name: string)
    requires IsEnumeration(order, m.Keys)
    ensures ValuesNamed(FromStrMap(m, order), name) == if name in m then [m[name]] else []
  {
    StrEntriesNamed(m, order, name);
  }

  /** Every key contributes exactly its list of values, in list order, and nothing else appears. */
  lemma ListMapPerKey(m: map<string, seq<string>>, order: seq<string>, name: string)
    requires IsEnumeration(order, m.Keys)
    ensures ValuesNamed(FromListMap(m, order), name) == if name in m then m[name] else []
  {
    ListEntriesNamed(m, order, name);
  }

  /** The total number of listed values, whatever the order of the keys. */
  ghost function TotalValues(m: map<string, seq<string>>): nat
    decreases |m|
  {
    if m == map[] then 0
    else
      var k :| k in m;
      |m[k]| + TotalValues(m - {k})
  }

  /** Any key can be counted first. */
  lemma {:induction false} TotalValuesAt(m: map<string, seq<string>>, k: string)
    requires k in m
    ensures TotalValues(m) == |m[k]| + TotalValues(m - {k})
    decreases |m|
  {
    var k' :| k' in m && TotalValues(m) == |m[k']| + TotalValues(m - {k'});
    if k' != k {
      var both := m - {k} - {k'};
      assert m - {k'} - {k} == both;
      TotalValuesAt(m - {k'}, k);
      TotalValuesAt(m - {k}, k');
    }
  }

  /** The loop emits one cookie per listed value over the keys in `order`. */
  lemma {:induction false} ListEntriesSize(m: map<string, seq<string>>, order: seq<string>)
    requires IsEnumeration(order, m.Keys)
    ensures |ListEntries(m, order)| == TotalValues(m)
  {
    if order != [] {
      var k := order[0];
      var rest := order[1..];
      var m' := m - {k};
      assert IsEnumeration(rest, m'.Keys) by {
        assert forall i, j :: 0 <= i < j < |rest| ==> rest[i] == order[i + 1] && rest[j] == order[j + 1];
        forall x
          ensures x in m'.Keys <==> x in rest
        {
          if x in rest {
            var j :| 0 <= j < |rest| && rest[j] == x;
            assert order[j + 1] == x && order[0] == k;
          }
          if x in order && x != k {
            var j :| 0 <= j < |order| && order[j] == x;
            assert rest[j - 1] == x;
          }
        }
      }
      ListEntriesSize(m', rest);
      ListEntriesAgree(m, m', rest);
      TotalValuesAt(m, k);
    }
  }

  /** The loop reads only the keys it visits. */
  lemma {:induction false} ListEntriesAgree(m: map<string, seq<string>>, m': map<string, seq<string>>, order: seq<string>)
    requires forall i :: 0 <= i < |order| ==> order[i] in m && order[i] in m' && m[order[i]] == m'[order[i]]
    ensures ListEntries(m, order) == ListEntries(m', order)
  {
    if order != [] {
      ListEntriesAgree(m, m', order[1..]);
    }
  }

  /** `map[string][]string`: as many cookies as there are listed values in total. */
  lemma ListMapSize(m: map<string, seq<string>>, order: seq<string>)
    requires IsEnumeration(order, m.Keys)
    ensures |FromListMap(m, order)| == TotalValues(m)
  {
    ListEntriesSize(m, order);
  }

  /**
    A member of a decoded JSON object, reduced to what the loop reads from it:
    an array (its elements' texts) or any other value (its text).
   */
  datatype JsonValue = JArray(items: seq<string>) | JScalar(text: string)

  /**
    A JSON value as the library hands it over: whether it is an object, and the
    members its `Map()` reports.
   */
  datatype JsonClient = JsonClient(isObject: bool, members: map<string, JsonValue>)

  /** The texts one member contributes: each element of an array, or the value's own text. */
  function MemberTexts(v: JsonValue): seq<string> {
    match v
    case JArray(items) => items
    case JScalar(text) => [text]
  }

  /** The members of a JSON object as a `map[string][]string`. */
  function Flatten(m: map<string, JsonValue>): (r: map<string, seq<string>>)
    ensures r.Keys == m.Keys
  {
    map k | k in m :: MemberTexts(m[k])
  }

  /** The loop over a decoded JSON object's members, visiting the keys in `order`. */
  function FromJsonMap(m: map<string, JsonValue>, order: seq<string>): (r: Cookies)
    requires IsEnumeration(order, m.Keys)
    ensures forall i :: 0 <= i < |r| ==> IsPlain(r[i]) && r[i].name in m
  {
    ListEntries(Flatten(m), order)
  }

  /** An array member gives one cookie per element, any other member one cookie. */
  lemma JsonPerKey(m: map<string, JsonValue>, order: seq<string>, name: string)
    requires IsEnumeration(order, m.Keys)
    ensures ValuesNamed(FromJsonMap(m, order), name) ==
      if name !in m then []
      else if m[name].JArray? then m[name].items
      else [m[name].text]
  {
    ListMapPerKey(Flatten(m), order, name);
  }
}
